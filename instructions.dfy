/** The instruction normaliser of the recipe detail page (`cleanInstructions`
    in src/pages/Recipe.jsx): markup tags are removed from the raw instruction
    text, the text is split on every period, blank pieces are dropped and the
    remaining pieces are trimmed, giving the ordered list of steps. */
module InstructionSteps {

  import opened Wrappers

  // ---------------------------------------------------------------------------
  // Characters and whitespace
  // ---------------------------------------------------------------------------

  /** The characters `String.prototype.trim` removes: ECMAScript WhiteSpace
      (tab, vertical tab, form feed, space, no-break space, the byte order
      mark and every space separator) and LineTerminator (line feed, carriage
      return, line and paragraph separators). */
  predicate IsWhitespace(c: char) {
    var n := c as int;
    if n <= 0x20 then n == 0x20 || 0x09 <= n <= 0x0D
    else if n < 0xA0 then false
    else
      || n == 0xA0 || n == 0x1680 || 0x2000 <= n <= 0x200A
      || n == 0x2028 || n == 0x2029 || n == 0x202F || n == 0x205F
      || n == 0x3000 || n == 0xFEFF
  }

  /** The code points of ECMAScript WhiteSpace and LineTerminator, listed one
      by one: tab, line feed, vertical tab, form feed, carriage return, space,
      no-break space, ogham space mark, the eleven spaces from en quad to hair
      space, line separator, paragraph separator, narrow no-break space,
      medium mathematical space, ideographic space and the byte order mark. */
  const TrimmedCodePoints: set<int> := {
    0x09, 0x0A, 0x0B, 0x0C, 0x0D, 0x20, 0xA0, 0x1680,
    0x2000, 0x2001, 0x2002, 0x2003, 0x2004, 0x2005, 0x2006, 0x2007,
    0x2008, 0x2009, 0x200A, 0x2028, 0x2029, 0x202F, 0x205F, 0x3000, 0xFEFF
  }

  /** The range tests of `IsWhitespace` pick out exactly the listed code points. */
  lemma IsWhitespaceListed(c: char)
    ensures IsWhitespace(c) <==> c as int in TrimmedCodePoints
  {
  }

  /** A string is blank when `trim()` leaves nothing of it, i.e. it is falsy after trimming. */
  predicate Blank(s: string) {
    forall i :: 0 <= i < |s| ==> IsWhitespace(s[i])
  }

  /** Number of occurrences of `c` in `s`. */
  function Count(s: string, c: char): (n: nat)
    ensures n <= |s|
    ensures n == 0 <==> c !in s
  {
    if s == [] then 0 else (if s[0] == c then 1 else 0) + Count(s[1..], c)
  }

  /** Index of the first occurrence of `c` in `s`. */
  function IndexOf(s: string, c: char): (j: nat)
    requires c in s
    ensures j < |s| && s[j] == c
    ensures forall k :: 0 <= k < j ==> s[k] != c
  {
    if s[0] == c then 0 else 1 + IndexOf(s[1..], c)
  }

  // ---------------------------------------------------------------------------
  // Tag removal: instructions.replace(/<[^>]*>/g, '')
  // ---------------------------------------------------------------------------

  /** No `<` is followed, anywhere later, by a `>`: the text holds no span
      that the pattern `<[^>]*>` can match. */
  predicate NoCompleteTag(s: string) {
    forall i, j :: 0 <= i < j < |s| && s[i] == '<' ==> s[j] != '>'
  }

  /** The global replacement of `<[^>]*>` by the empty string. Scanning left
      to right, a `<` that has a `>` somewhere after it starts a match that
      ends at the first such `>` (the class `[^>]` cannot cross a `>`); the
      whole span is dropped and the scan resumes after it. A `<` with no
      later `>` matches nothing and is kept, as is every other character. */
  function StripTags(s: string): (r: string)
    ensures |r| <= |s|
    decreases |s|
  {
    if s == [] then []
    else if s[0] == '<' && '>' in s then
      StripTags(s[IndexOf(s, '>') + 1..])
    else
      [s[0]] + StripTags(s[1..])
  }

  /** Removal of tags only deletes characters: it introduces none. */
  lemma {:induction false} StripTagsKeepsOnlyInput(s: string, c: char)
    requires c in StripTags(s)
    ensures c in s
    decreases |s|
  {
    if s == [] {
    } else if s[0] == '<' && '>' in s {
      var j := IndexOf(s, '>');
      StripTagsKeepsOnlyInput(s[j + 1..], c);
      assert c in s[j + 1..];
    } else if c != s[0] {
      assert c in StripTags(s[1..]);
      StripTagsKeepsOnlyInput(s[1..], c);
    }
  }

  /** After the global replacement no `<` is followed by a `>`: every `<`
      that had a later `>` has been consumed by a match. */
  lemma {:induction false} StripTagsLeavesNoCompleteTag(s: string)
    ensures NoCompleteTag(StripTags(s))
    decreases |s|
  {
    if s == [] {
    } else if s[0] == '<' && '>' in s {
      StripTagsLeavesNoCompleteTag(s[IndexOf(s, '>') + 1..]);
    } else {
      var rest := StripTags(s[1..]);
      StripTagsLeavesNoCompleteTag(s[1..]);
      var r := [s[0]] + rest;
      forall i, j | 0 <= i < j < |r| && r[i] == '<'
        ensures r[j] != '>'
      {
        if i == 0 {
          // s[0] is a '<' with no '>' after it, so nothing kept can be a '>'
          assert '>' !in s[1..];
          if r[j] == '>' {
            assert '>' in rest by { assert rest[j - 1] == '>'; }
            StripTagsKeepsOnlyInput(s[1..], '>');
          }
        } else {
          assert rest[i - 1] == '<';
        }
      }
    }
  }

  /** Text that holds no complete tag is left as it is. */
  lemma {:induction false} StripTagsIdentity(s: string)
    requires NoCompleteTag(s)
    ensures StripTags(s) == s
    decreases |s|
  {
    if s != [] {
      NoCompleteTagRest(s);
      StripTagsIdentity(s[1..]);
    }
  }

  /** A `<` in front of text without a complete tag has no `>` after it, and
      the rest of the text holds no complete tag either. */
  lemma NoCompleteTagRest(s: string)
    requires s != [] && NoCompleteTag(s)
    ensures s[0] == '<' ==> '>' !in s
    ensures NoCompleteTag(s[1..])
  {
    if s[0] == '<' {
      forall j | 0 <= j < |s| ensures s[j] != '>' {
        if j > 0 { assert s[0] == '<'; }
      }
    }
    forall i, j | 0 <= i < j < |s[1..]| && s[1..][i] == '<'
      ensures s[1..][j] != '>'
    {
      assert s[i + 1] == '<';
    }
  }

  /** A tag is dropped whole and the text around it is kept: with no `<` in
      `x` and no `>` inside the tag, the first match is exactly the tag. */
  lemma {:induction false} StripTagsDropsTag(x: string, t: string, y: string)
    requires '<' !in x && '>' !in t
    ensures StripTags(x + ['<'] + t + ['>'] + y) == x + StripTags(y)
    decreases |x|
  {
    var s := x + ['<'] + t + ['>'] + y;
    if x == [] {
      assert s == ['<'] + t + ['>'] + y;
      StripTagsDropsFirstTag(s, t, y);
    } else {
      var rest := x[1..] + ['<'] + t + ['>'] + y;
      assert s == [x[0]] + rest;
      StripTagsKeepsFirst(s, x[0], rest);
      StripTagsDropsTag(x[1..], t, y);
      PrependSplit(x, StripTags(y));
    }
  }

  /** A leading tag with no `>` inside it is dropped whole. */
  lemma StripTagsDropsFirstTag(s: string, t: string, y: string)
    requires s == ['<'] + t + ['>'] + y && '>' !in t
    ensures StripTags(s) == StripTags(y)
  {
    assert s[|t| + 1] == '>';
    assert IndexOf(s, '>') == |t| + 1 by {
      forall k | 0 <= k < |t| + 1 ensures s[k] != '>' {
        if k > 0 { assert s[k] == t[k - 1]; }
      }
    }
    assert s[|t| + 2..] == y;
  }

  /** Putting the first character back in front of the rest. */
  lemma PrependSplit(x: string, z: string)
    requires x != []
    ensures [x[0]] + (x[1..] + z) == x + z
  {
    assert [x[0]] + x[1..] == x;
  }

  /** A first character other than `<` is kept. */
  lemma StripTagsKeepsFirst(s: string, c: char, rest: string)
    requires s == [c] + rest && c != '<'
    ensures StripTags(s) == [c] + StripTags(rest)
  {
    assert s[0] == c && s[1..] == rest;
  }

  /** Text without a `<` holds no tag and passes through unchanged. */
  lemma StripTagsWithoutOpen(s: string)
    requires '<' !in s
    ensures StripTags(s) == s
  {
    StripTagsIdentity(s);
  }

  /** The tags of a typical instruction text are removed and its words kept.
      The text is a parameter fixed by the precondition rather than a literal
      in the postcondition: applied to a literal, the recursive `StripTags`
      would be unfolded character by character by the verifier. */
  lemma StripTagsExample(html: string)
    requires html == "<b>Boil</b> water. Stir."
    ensures StripTags(html) == "Boil water. Stir."
  {
    var tail := " water. Stir.";
    var word, mid := "Boil", "Boil</b>" + tail;
    ExampleWords(word, tail);
    ExampleClosingTag(mid, word, tail);
    ExampleOpeningTag(html, mid, tail);
    StripTagsWithoutOpen(tail);
    StripTagsDropsTag(word, "/b", tail);
    StripTagsDropsTag([], "b", mid);
  }

  /** The words of the example text hold no `<`, and together they are the
      expected result. */
  lemma ExampleWords(word: string, tail: string)
    requires word == "Boil" && tail == " water. Stir."
    ensures '<' !in tail && '<' !in word
    ensures word + tail == "Boil water. Stir."
  {
  }

  /** The closing tag sits between the first word and the rest of the text. */
  lemma ExampleClosingTag(mid: string, word: string, tail: string)
    requires word == "Boil" && mid == "Boil</b>" + tail
    ensures mid == word + ['<'] + "/b" + ['>'] + tail
  {
  }

  /** The example text opens with a tag. */
  lemma ExampleOpeningTag(html: string, mid: string, tail: string)
    requires html == "<b>Boil</b> water. Stir." && tail == " water. Stir."
    requires mid == "Boil</b>" + tail
    ensures html == [] + ['<'] + "b" + ['>'] + mid
  {
  }

  /** Removing tags twice removes nothing more than removing them once. */
  lemma StripTagsIdempotent(s: string)
    ensures StripTags(StripTags(s)) == StripTags(s)
  {
    StripTagsLeavesNoCompleteTag(s);
    StripTagsIdentity(StripTags(s));
  }

  // ---------------------------------------------------------------------------
  // Splitting: cleanText.split('.')
  // ---------------------------------------------------------------------------

  /** `String.prototype.split` with a one-character separator: the pieces
      between consecutive separators, including the empty piece before a
      leading separator, between two adjacent ones and after a trailing one;
      the empty string splits into one empty piece. */
  function Split(s: string, sep: char): (pieces: seq<string>)
    ensures |pieces| == Count(s, sep) + 1
    ensures forall k :: 0 <= k < |pieces| ==> sep !in pieces[k]
  {
    if s == [] then [[]]
    else
      var rest := Split(s[1..], sep);
      if s[0] == sep then [[]] + rest
      else [[s[0]] + rest[0]] + rest[1..]
  }

  /** `Array.prototype.join` with a one-character separator. */
  function Join(pieces: seq<string>, sep: char): string
    requires pieces != []
  {
    if |pieces| == 1 then pieces[0] else pieces[0] + [sep] + Join(pieces[1..], sep)
  }

  /** Splitting loses nothing: joining the pieces back with the separator
      gives the original text. */
  lemma {:induction false} JoinSplit(s: string, sep: char)
    ensures Join(Split(s, sep), sep) == s
  {
    if s != [] {
      var rest := Split(s[1..], sep);
      JoinSplit(s[1..], sep);
      if s[0] == sep {
        calc {
          Join(Split(s, sep), sep);
          Join([[]] + rest, sep);
          { assert ([[]] + rest)[1..] == rest; }
          [] + [sep] + Join(rest, sep);
          [sep] + s[1..];
          s;
        }
      } else {
        JoinPrepend(s[0], rest, sep);
        assert s == [s[0]] + s[1..];
      }
    }
  }

  /** Prepending a character to the first piece prepends it to the join. */
  lemma JoinPrepend(c: char, pieces: seq<string>, sep: char)
    requires pieces != []
    ensures Join([[c] + pieces[0]] + pieces[1..], sep) == [c] + Join(pieces, sep)
  {
    var q := [[c] + pieces[0]] + pieces[1..];
    assert q[1..] == pieces[1..];
  }

  /** Text without a separator splits into exactly itself. */
  lemma SplitWithoutSeparator(s: string, sep: char)
    requires sep !in s
    ensures Split(s, sep) == [s]
  {
    JoinSplit(s, sep);
  }

  /** The text up to the first separator is the first piece. */
  lemma {:induction false} SplitAfter(a: string, b: string, sep: char)
    requires sep !in a
    ensures Split(a + [sep] + b, sep) == [a] + Split(b, sep)
    decreases |a|
  {
    var s := a + [sep] + b;
    if a == [] {
      assert s[1..] == b;
    } else {
      assert s[1..] == a[1..] + [sep] + b;
      SplitAfter(a[1..], b, sep);
      assert [a[0]] + a[1..] == a;
    }
  }

  // ---------------------------------------------------------------------------
  // Trimming: step.trim()
  // ---------------------------------------------------------------------------

  /** Trailing whitespace removed. */
  function TrimEnd(s: string): (r: string)
    ensures |r| <= |s| && r == s[..|r|]
    ensures Blank(s[|r|..])
    ensures r == [] || !IsWhitespace(r[|r| - 1])
  {
    if s != [] && IsWhitespace(s[|s| - 1]) then
      var r := TrimEnd(s[..|s| - 1]);
      TrimEndStep(s, r);
      r
    else
      s
  }

  /** Cutting one more whitespace character off the back keeps the result a
      prefix with only whitespace after it. */
  lemma TrimEndStep(s: string, r: string)
    requires s != [] && IsWhitespace(s[|s| - 1])
    requires |r| <= |s| - 1 && r == s[..|s| - 1][..|r|] && Blank(s[..|s| - 1][|r|..])
    ensures r == s[..|r|] && Blank(s[|r|..])
  {
    var n := |r|;
    assert s[..|s| - 1][..n] == s[..n];
    forall i | 0 <= i < |s| - n ensures IsWhitespace(s[n..][i]) {
      if i < |s| - n - 1 {
        assert s[n..][i] == s[..|s| - 1][n..][i];
      }
    }
  }

  /** The number of whitespace characters `trim` cuts off the front of `s`:
      all of them are whitespace, and the character after them is not. */
  function Lead(s: string): (n: nat)
    ensures n <= |s| && Blank(s[..n])
    ensures n == |s| || !IsWhitespace(s[n])
  {
    if s != [] && IsWhitespace(s[0]) then
      var m := Lead(s[1..]);
      LeadStep(s, m);
      m + 1
    else
      0
  }

  /** One more whitespace character in front extends the leading run by one. */
  lemma LeadStep(s: string, m: nat)
    requires s != [] && IsWhitespace(s[0])
    requires m <= |s[1..]| && Blank(s[1..][..m])
    requires m == |s[1..]| || !IsWhitespace(s[1..][m])
    ensures m + 1 <= |s| && Blank(s[..m + 1])
    ensures m + 1 == |s| || !IsWhitespace(s[m + 1])
  {
    var n := m + 1;
    forall i | 0 <= i < n ensures IsWhitespace(s[..n][i]) {
      if i > 0 {
        assert s[..n][i] == s[1..][..m][i - 1];
      }
    }
  }

  /** Leading whitespace removed. */
  function TrimStart(s: string): (r: string)
    ensures |r| <= |s| && r == s[|s| - |r|..]
    ensures Blank(s[..|s| - |r|])
    ensures r == [] || !IsWhitespace(r[0])
  {
    s[Lead(s)..]
  }

  /** `String.prototype.trim`: the text between the leading and the trailing
      whitespace. The result is the contiguous piece of the input that starts
      after the leading whitespace, everything cut off is whitespace, it
      neither starts nor ends with whitespace, and it is empty exactly when
      the input is blank. */
  function Trim(s: string): (r: string)
    ensures Lead(s) + |r| <= |s| && r == s[Lead(s)..Lead(s) + |r|]
    ensures Blank(s[..Lead(s)]) && Blank(s[Lead(s) + |r|..])
    ensures r == [] || (!IsWhitespace(r[0]) && !IsWhitespace(r[|r| - 1]))
    ensures r == [] <==> Blank(s)
  {
    var t := TrimStart(s);
    var r := TrimEnd(t);
    TrimPieces(s, Lead(s), r);
    r
  }

  /** Cutting `a` whitespace characters off the front of `s` and trimming
      the back of the rest to `r` leaves `r` as a slice of `s` with only
      whitespace around it, and `r` is empty exactly when `s` is blank. */
  lemma TrimPieces(s: string, a: nat, r: string)
    requires a <= |s| && Blank(s[..a]) && (a == |s| || !IsWhitespace(s[a]))
    requires |r| <= |s[a..]| && r == s[a..][..|r|] && Blank(s[a..][|r|..])
    requires r == [] || !IsWhitespace(r[|r| - 1])
    ensures a + |r| <= |s| && r == s[a..a + |r|]
    ensures Blank(s[..a]) && Blank(s[a + |r|..])
    ensures r == [] || (!IsWhitespace(r[0]) && !IsWhitespace(r[|r| - 1]))
    ensures r == [] <==> Blank(s)
  {
    var t := s[a..];
    assert s[a + |r|..] == t[|r|..];
    if r == [] {
      assert t[|r|..] == t;
      assert s[..a] == s;
    } else {
      assert r[0] == t[0] == s[a];
    }
  }

  /** Text that neither starts nor ends with whitespace is its own trim. */
  lemma TrimUnchanged(s: string)
    requires s != [] && !IsWhitespace(s[0]) && !IsWhitespace(s[|s| - 1])
    ensures Trim(s) == s
  {
    assert Lead(s) == 0;
    assert TrimEnd(s) == s;
  }

  /** A leading whitespace character is cut off by `trim`. */
  lemma TrimSkipsSpace(c: char, s: string)
    requires IsWhitespace(c)
    ensures Trim([c] + s) == Trim(s)
  {
    assert ([c] + s)[1..] == s;
    assert Lead([c] + s) == Lead(s) + 1;
  }

  /** A character absent from a text is absent from every piece of it. */
  lemma AbsentFromSlice(s: string, a: nat, b: nat, c: char)
    requires a <= b <= |s| && c !in s
    ensures c !in s[a..b]
  {
  }

  // ---------------------------------------------------------------------------
  // Filtering and mapping the pieces
  // ---------------------------------------------------------------------------

  /** `.filter(step => step.trim())`: the pieces that are not blank, in order. */
  function NonBlank(pieces: seq<string>): (kept: seq<string>)
    ensures |kept| <= |pieces|
    ensures forall k :: 0 <= k < |kept| ==> !Blank(kept[k])
  {
    if pieces == [] then []
    else (if Blank(pieces[0]) then [] else [pieces[0]]) + NonBlank(pieces[1..])
  }

  /** A character absent from every piece is absent from every kept piece. */
  lemma {:induction false} NonBlankKeepsExclusion(pieces: seq<string>, c: char)
    requires forall k :: 0 <= k < |pieces| ==> c !in pieces[k]
    ensures forall k :: 0 <= k < |NonBlank(pieces)| ==> c !in NonBlank(pieces)[k]
  {
    if pieces != [] {
      NonBlankKeepsExclusion(pieces[1..], c);
      assert NonBlank(pieces) == (if Blank(pieces[0]) then [] else [pieces[0]]) + NonBlank(pieces[1..]);
    }
  }

  /** `.map(step => step.trim())`. */
  function TrimEach(pieces: seq<string>): (trimmed: seq<string>)
    ensures |trimmed| == |pieces|
    ensures forall k :: 0 <= k < |pieces| ==> trimmed[k] == Trim(pieces[k])
  {
    Map(Trim, pieces)
  }

  /** `Array.prototype.map` with a total callback: item k is `f` of element k. */
  function Map<A, B>(f: A -> B, xs: seq<A>): (ys: seq<B>)
    ensures |ys| == |xs|
    ensures forall k :: 0 <= k < |xs| ==> ys[k] == f(xs[k])
  {
    if xs == [] then [] else [f(xs[0])] + Map(f, xs[1..])
  }

  /** The positions of the pieces the filter keeps, in increasing order. */
  function KeptPositions(pieces: seq<string>): (idx: seq<nat>)
    ensures |idx| == |NonBlank(pieces)|
    ensures forall k :: 0 <= k < |idx| ==> idx[k] < |pieces|
  {
    if pieces == [] then []
    else (if Blank(pieces[0]) then [] else [0]) + Shift(KeptPositions(pieces[1..]))
  }

  /** The kept pieces are the pieces at the kept positions. */
  lemma {:induction false} KeptPositionsSelect(pieces: seq<string>)
    ensures forall k :: 0 <= k < |KeptPositions(pieces)| ==> NonBlank(pieces)[k] == pieces[KeptPositions(pieces)[k]]
  {
    if pieces != [] {
      var rest := pieces[1..];
      KeptPositionsSelect(rest);
      var first: seq<nat> := if Blank(pieces[0]) then [] else [0];
      var pre := if Blank(pieces[0]) then [] else [pieces[0]];
      SelectStep(pieces, first, pre, KeptPositions(rest), NonBlank(rest));
    }
  }

  /** One step of `KeptPositionsSelect`: putting the first piece, or
      nothing, before the selection from the other pieces. */
  lemma SelectStep(pieces: seq<string>, first: seq<nat>, pre: seq<string>, tail: seq<nat>, keptRest: seq<string>)
    requires pieces != []
    requires (first == [] && pre == []) || (first == [0] && pre == [pieces[0]])
    requires |tail| == |keptRest|
    requires forall k :: 0 <= k < |tail| ==> tail[k] < |pieces| - 1 && keptRest[k] == pieces[1..][tail[k]]
    ensures forall k :: 0 <= k < |first + Shift(tail)| ==> (pre + keptRest)[k] == pieces[(first + Shift(tail))[k]]
  {
    var h, idx, kept := |first|, first + Shift(tail), pre + keptRest;
    forall k | 0 <= k < |idx| ensures kept[k] == pieces[idx[k]] {
      if k >= h {
        assert idx[k] == tail[k - h] + 1;
        assert kept[k] == keptRest[k - h] == pieces[1..][tail[k - h]];
      }
    }
  }

  /** The kept positions strictly increase: the filter keeps the order. */
  lemma {:induction false} KeptPositionsIncrease(pieces: seq<string>)
    ensures forall k, m :: 0 <= k < m < |KeptPositions(pieces)| ==> KeptPositions(pieces)[k] < KeptPositions(pieces)[m]
  {
    if pieces != [] {
      var rest := pieces[1..];
      KeptPositionsIncrease(rest);
      var first: seq<nat> := if Blank(pieces[0]) then [] else [0];
      IncreaseStep(first, KeptPositions(rest));
    }
  }

  /** One step of `KeptPositionsIncrease`: position 0, or nothing, before
      increasing positions shifted by one still increases. */
  lemma IncreaseStep(first: seq<nat>, tail: seq<nat>)
    requires first == [] || first == [0]
    requires forall k, m :: 0 <= k < m < |tail| ==> tail[k] < tail[m]
    ensures forall k, m :: 0 <= k < m < |first + Shift(tail)| ==> (first + Shift(tail))[k] < (first + Shift(tail))[m]
  {
    var h, idx := |first|, first + Shift(tail);
    forall k, m | 0 <= k < m < |idx| ensures idx[k] < idx[m] {
      assert idx[m] == tail[m - h] + 1;
      if k >= h {
        assert idx[k] == tail[k - h] + 1;
      }
    }
  }

  /** Every non-blank piece has its position kept. */
  lemma {:induction false} KeptPositionsComplete(pieces: seq<string>)
    ensures forall j :: 0 <= j < |pieces| && !Blank(pieces[j]) ==> j in KeptPositions(pieces)
  {
    if pieces != [] {
      var rest := pieces[1..];
      KeptPositionsComplete(rest);
      var first: seq<nat> := if Blank(pieces[0]) then [] else [0];
      CompleteStep(pieces, first, KeptPositions(rest));
    }
  }

  /** One step of `KeptPositionsComplete`: the first piece is kept when it
      is not blank, and every later kept position moves up by one. */
  lemma CompleteStep(pieces: seq<string>, first: seq<nat>, tail: seq<nat>)
    requires pieces != []
    requires (first == [] && Blank(pieces[0])) || (first == [0] && !Blank(pieces[0]))
    requires forall j :: 0 <= j < |pieces| - 1 && !Blank(pieces[1..][j]) ==> j in tail
    ensures forall j :: 0 <= j < |pieces| && !Blank(pieces[j]) ==> j in first + Shift(tail)
  {
    var h, idx := |first|, first + Shift(tail);
    forall j | 0 <= j < |pieces| && !Blank(pieces[j]) ensures j in idx {
      if j == 0 {
        assert idx[0] == 0;
      } else {
        assert pieces[1..][j - 1] == pieces[j];
        var k :| 0 <= k < |tail| && tail[k] == j - 1;
        assert idx[h + k] == j;
      }
    }
  }

  /** Every index one higher. An index helper, not part of the modelled
      code: its postconditions only spell out the comprehension element by
      element, which spares the verifier the lambda in the proofs that use it. */
  function Shift(idx: seq<nat>): (r: seq<nat>)
    ensures |r| == |idx|
    ensures forall k :: 0 <= k < |idx| ==> r[k] == idx[k] + 1
  {
    seq(|idx|, k requires 0 <= k < |idx| => idx[k] + 1)
  }

  // ---------------------------------------------------------------------------
  // cleanInstructions
  // ---------------------------------------------------------------------------

  /** `cleanInstructions(instructions)`: an absent (`undefined`/`null`) or
      empty instruction text gives no steps; otherwise the tag-stripped text
      is split on every period and the non-blank pieces, trimmed, are the
      steps. No step is empty, none starts or ends with whitespace, none
      contains a period, and there is at most one step more than there are
      periods in the tag-stripped text. */
  function CleanInstructions(instructions: Option<string>): (steps: seq<string>)
    ensures instructions == None || instructions == Some([]) ==> steps == []
    ensures forall k :: 0 <= k < |steps| ==>
      && steps[k] != []
      && !IsWhitespace(steps[k][0])
      && !IsWhitespace(steps[k][|steps[k]| - 1])
      && '.' !in steps[k]
    ensures instructions.Some? ==> |steps| <= Count(StripTags(instructions.value), '.') + 1
  {
    if instructions == None || instructions.value == [] then []
    else
      var pieces := Split(StripTags(instructions.value), '.');
      NonBlankKeepsExclusion(pieces, '.');
      StepsHaveNoPeriod(NonBlank(pieces));
      TrimEach(NonBlank(pieces))
  }

  /** Trimming pieces free of periods leaves them free of periods. */
  lemma StepsHaveNoPeriod(pieces: seq<string>)
    requires forall k :: 0 <= k < |pieces| ==> '.' !in pieces[k]
    ensures forall k :: 0 <= k < |pieces| ==> '.' !in TrimEach(pieces)[k]
  {
    forall k | 0 <= k < |pieces| ensures '.' !in TrimEach(pieces)[k] {
      var p := pieces[k];
      AbsentFromSlice(p, Lead(p), Lead(p) + |Trim(p)|, '.');
    }
  }

  /** Steps keep the order of the text: step `k` is the trimmed piece number
      `idx[k]` of the tag-stripped text split on periods, the indices grow,
      and every piece that yields no step is blank. */
  lemma StepsFollowText(instructions: string) returns (idx: seq<nat>)
    requires instructions != []
    ensures var pieces := Split(StripTags(instructions), '.');
      var steps := CleanInstructions(Some(instructions));
      && |idx| == |steps|
      && (forall k :: 0 <= k < |idx| ==> idx[k] < |pieces| && steps[k] == Trim(pieces[idx[k]]))
      && (forall k, m :: 0 <= k < m < |idx| ==> idx[k] < idx[m])
      && (forall j :: 0 <= j < |pieces| && j !in idx ==> Blank(pieces[j]))
  {
    var pieces := Split(StripTags(instructions), '.');
    idx := KeptPositions(pieces);
    KeptPositionsSelect(pieces);
    KeptPositionsIncrease(pieces);
    KeptPositionsComplete(pieces);
  }

  /** Instruction text with no period and no tag that is not blank gives
      exactly one step: the text itself, trimmed. */
  lemma SingleStep(instructions: string)
    requires '.' !in instructions && NoCompleteTag(instructions) && !Blank(instructions)
    ensures CleanInstructions(Some(instructions)) == [Trim(instructions)]
  {
    StripTagsIdentity(instructions);
    SplitWithoutSeparator(instructions, '.');
    assert NonBlank([instructions]) == [instructions];
  }

  /** A typical instruction text: the bold tag goes, the text is cut at
      its two periods, the empty piece after the last period is dropped and
      the space before the second step is trimmed. As in `StripTagsExample`,
      the text is a parameter so that the recursive functions are not
      unfolded on a literal. */
  lemma CleanInstructionsExample(html: string)
    requires html == "<b>Boil</b> water. Stir."
    ensures CleanInstructions(Some(html)) == ["Boil water", "Stir"]
  {
    var first, second, word := "Boil water", " Stir", "Stir";
    StripTagsExample(html);
    ExampleSteps(StripTags(html), first, second, word);
    TwoSentences(html, first, second, word);
  }

  /** Text whose tags strip to two sentences, each ended by a period, the
      second after one space, gives the two sentences as steps. The empty
      tail `[]` is written out so that the text has the shape `a + [sep] + b`
      that `SplitAfter` takes, once for each sentence. */
  lemma TwoSentences(html: string, first: string, second: string, word: string)
    requires html != [] && StripTags(html) == first + ['.'] + (second + ['.'] + [])
    requires '.' !in first && '.' !in second && second == [' '] + word
    requires first != [] && !IsWhitespace(first[0]) && !IsWhitespace(first[|first| - 1])
    requires word != [] && !IsWhitespace(word[0]) && !IsWhitespace(word[|word| - 1])
    ensures CleanInstructions(Some(html)) == [first, word]
  {
    assert !Blank(first);
    assert second[1] == word[0];
    assert !Blank(second);
    var pieces := Split(StripTags(html), '.');
    assert CleanInstructions(Some(html)) == TrimEach(NonBlank(pieces));
    SplitTwoSentences(first, second);
    NonBlankDropsEmptyLast(first, second);
    TrimTwo(first, second, word);
  }

  /** Trimming a step without outer whitespace and one after a single space. */
  lemma TrimTwo(first: string, second: string, word: string)
    requires first != [] && !IsWhitespace(first[0]) && !IsWhitespace(first[|first| - 1])
    requires second == [' '] + word
    requires word != [] && !IsWhitespace(word[0]) && !IsWhitespace(word[|word| - 1])
    ensures TrimEach([first, second]) == [first, word]
  {
    TrimUnchanged(first);
    TrimAfterSpace(second, word);
    TrimEachPair(first, second, first, word);
  }

  /** A single space before text without outer whitespace is trimmed away. */
  lemma TrimAfterSpace(second: string, word: string)
    requires second == [' '] + word
    requires word != [] && !IsWhitespace(word[0]) && !IsWhitespace(word[|word| - 1])
    ensures Trim(second) == word
  {
    TrimSkipsSpace(' ', word);
    TrimUnchanged(word);
  }

  /** Trimming two pieces one by one. */
  lemma TrimEachPair(a: string, b: string, ta: string, tb: string)
    requires Trim(a) == ta && Trim(b) == tb
    ensures TrimEach([a, b]) == [ta, tb]
  {
    var pieces := [a, b];
    assert pieces[1..] == [b] && pieces[1..][1..] == [];
  }

  /** Two sentences, each ended by a period, split into themselves and the
      empty piece after the last period. The trailing `+ []` gives the second
      sentence the shape `a + [sep] + b` that `SplitAfter` takes. */
  lemma SplitTwoSentences(first: string, second: string)
    requires '.' !in first && '.' !in second
    ensures Split(first + ['.'] + (second + ['.'] + []), '.') == [first, second, []]
  {
    var tail := second + ['.'] + [];
    SplitAfter(second, [], '.');
    assert Split([], '.') == [[]];
    SplitAfter(first, tail, '.');
  }

  /** The filter drops a final empty piece and keeps two non-blank ones. */
  lemma NonBlankDropsEmptyLast(a: string, b: string)
    requires !Blank(a) && !Blank(b)
    ensures NonBlank([a, b, []]) == [a, b]
  {
    var pieces: seq<string> := [a, b, []];
    assert pieces[1..] == [b, []] && pieces[2..] == [[]];
    var last: seq<string> := [[]];
    assert NonBlank(last) == [] by { assert last[1..] == []; }
  }

  /** How the tag-free example text is put together from its pieces. */
  lemma ExampleSteps(text: string, first: string, second: string, word: string)
    requires text == "Boil water. Stir." && first == "Boil water" && second == " Stir" && word == "Stir"
    ensures text == first + ['.'] + (second + ['.'] + [])
    ensures '.' !in first && '.' !in second && second == [' '] + word
    ensures first != [] && !IsWhitespace(first[0]) && !IsWhitespace(first[|first| - 1]) && !Blank(first)
    ensures word != [] && !IsWhitespace(word[0]) && !IsWhitespace(word[|word| - 1]) && !Blank(second)
  {
    assert second[1] == 'S';
  }

  // ---------------------------------------------------------------------------
  // Rendering: <li>{step}.</li>
  // ---------------------------------------------------------------------------

  /** The text of one rendered list item: the step followed by a period. */
  function RenderStep(step: string): (item: string)
    ensures |item| == |step| + 1 && item[..|step|] == step && item[|step|] == '.'
  {
    step + "."
  }

  /** The period shown after a step is added by the rendering only: the
      rendered item ends in the one period of the item, and dropping it gives
      back the step. */
  lemma RenderedStepHasOnePeriod(instructions: Option<string>, k: nat)
    requires k < |CleanInstructions(instructions)|
    ensures var step := CleanInstructions(instructions)[k];
      var item := RenderStep(step);
      && item[..|item| - 1] == step
      && item[|item| - 1] == '.'
      && Count(item, '.') == 1
  {
    var step := CleanInstructions(instructions)[k];
    CountAppend(step, ".", '.');
  }

  lemma {:induction false} CountAppend(s: string, t: string, c: char)
    ensures Count(s + t, c) == Count(s, c) + Count(t, c)
  {
    if s == [] {
      assert s + t == t;
    } else {
      assert (s + t)[1..] == s[1..] + t;
      CountAppend(s[1..], t, c);
    }
  }
}
