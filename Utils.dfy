/**
 * The static helpers of the `Utils` class: integer ranges, trailing-space
 * trimming, the sorted-merge intersection, camel-case word splitting,
 * flattening and capitalising.  Case mapping is modelled for ASCII letters,
 * which is all the word splitter claims to support.
 */
module Utils {
  import opened Wrappers
  import opened Strings

  // ---------------------------------------------------------------------
  // createRange

  /** `createRange(start, end)`: an array of `end - start + 1` consecutive integers from `start`. */
  function CreateRange(start: int, end: int): (r: seq<int>)
    ensures |r| == if end < start then 0 else end - start + 1
  {
    if end < start then [] else seq(end - start + 1, k => start + k)
  }

  /** The range holds exactly the integers from `start` to `end`, in increasing order. */
  lemma CreateRangeMembers(start: int, end: int)
    ensures forall x :: x in CreateRange(start, end) <==> start <= x <= end
    ensures forall k :: 0 <= k < |CreateRange(start, end)| ==> CreateRange(start, end)[k] == start + k
  {
    var r := CreateRange(start, end);
    forall x | start <= x <= end ensures x in r {
      assert r[x - start] == x;
    }
  }

  // ---------------------------------------------------------------------
  // trimTrailingSpace

  /** `aString.replace(/\s+$/, "")`: the string without its trailing white space. */
  function TrimTrailingSpace(s: string): (r: string)
    ensures |r| <= |s| && r == s[..|r|]
    ensures |r| == 0 || !IsJsWhitespace(r[|r| - 1])
    ensures forall k :: |r| <= k < |s| ==> IsJsWhitespace(s[k])
    decreases |s|
  {
    if |s| > 0 && IsJsWhitespace(s[|s| - 1]) then TrimTrailingSpace(s[..|s| - 1]) else s
  }

  /** Trimming twice trims nothing more. */
  lemma TrimTrailingSpaceIdempotent(s: string)
    ensures TrimTrailingSpace(TrimTrailingSpace(s)) == TrimTrailingSpace(s)
  {
  }

  // ---------------------------------------------------------------------
  // getIntersection

  /**
   * The merge of two sorted arrays from positions `i` and `o` as the
   * source writes it: on equal elements it pushes `first[o]`, which is
   * `undefined` (here `None`) when `o` is past the end of `first`.
   */
  function IntersectionAsWritten(first: seq<string>, second: seq<string>, i: nat, o: nat): (r: seq<Option<string>>)
    requires i <= |first| && o <= |second|
    decreases |first| - i + |second| - o
  {
    if i == |first| || o == |second| then []
    else if first[i] == second[o] then
      [if o < |first| then Some(first[o]) else None] + IntersectionAsWritten(first, second, i + 1, o + 1)
    else if LexLess(first[i], second[o]) then IntersectionAsWritten(first, second, i + 1, o)
    else IntersectionAsWritten(first, second, i, o + 1)
  }

  /** The same merge pushing the element it found in both arrays, `first[i]`. */
  function Intersection(first: seq<string>, second: seq<string>, i: nat, o: nat): (r: seq<string>)
    requires i <= |first| && o <= |second|
    ensures |r| <= |first| - i && |r| <= |second| - o
    decreases |first| - i + |second| - o
  {
    if i == |first| || o == |second| then []
    else if first[i] == second[o] then [first[i]] + Intersection(first, second, i + 1, o + 1)
    else if LexLess(first[i], second[o]) then Intersection(first, second, i + 1, o)
    else Intersection(first, second, i, o + 1)
  }

  /** The merge loop as written. */
  method GetIntersectionAsWritten(first: seq<string>, second: seq<string>) returns (result: seq<Option<string>>)
    ensures result == IntersectionAsWritten(first, second, 0, 0)
  {
    result := [];
    var i, o := 0, 0;
    while i < |first| && o < |second|
      invariant i <= |first| && o <= |second|
      invariant IntersectionAsWritten(first, second, 0, 0) == result + IntersectionAsWritten(first, second, i, o)
      decreases |first| - i + |second| - o
    {
      if first[i] == second[o] {
        result := result + [if o < |first| then Some(first[o]) else None];
        i := i + 1;
        o := o + 1;
      } else if LexLess(first[i], second[o]) {
        i := i + 1;
      } else {
        o := o + 1;
      }
    }
  }

  /** The merge loop pushing `first[i]`. */
  method GetIntersection(first: seq<string>, second: seq<string>) returns (result: seq<string>)
    ensures result == Intersection(first, second, 0, 0)
  {
    result := [];
    var i, o := 0, 0;
    while i < |first| && o < |second|
      invariant i <= |first| && o <= |second|
      invariant Intersection(first, second, 0, 0) == result + Intersection(first, second, i, o)
      decreases |first| - i + |second| - o
    {
      if first[i] == second[o] {
        result := result + [first[i]];
        i := i + 1;
        o := o + 1;
      } else if LexLess(first[i], second[o]) {
        i := i + 1;
      } else {
        o := o + 1;
      }
    }
  }

  /** Both versions push equally often, so a caller that reads only the length cannot tell them apart. */
  lemma {:induction false} IntersectionLengthsAgree(first: seq<string>, second: seq<string>, i: nat, o: nat)
    requires i <= |first| && o <= |second|
    ensures |IntersectionAsWritten(first, second, i, o)| == |Intersection(first, second, i, o)|
    decreases |first| - i + |second| - o
  {
    if i == |first| || o == |second| {
    } else if first[i] == second[o] {
      IntersectionLengthsAgree(first, second, i + 1, o + 1);
    } else if LexLess(first[i], second[o]) {
      IntersectionLengthsAgree(first, second, i + 1, o);
    } else {
      IntersectionLengthsAgree(first, second, i, o + 1);
    }
  }

  /** The as-written merge reports an element that is not in the second array, or `undefined`. */
  lemma IntersectionAsWrittenWrong()
    ensures IntersectionAsWritten(["a", "b"], ["b"], 0, 0) == [Some("a")]
    ensures Intersection(["a", "b"], ["b"], 0, 0) == ["b"]
    ensures IntersectionAsWritten(["b"], ["a", "b"], 0, 0) == [None]
  {
    assert LexLess("a", "b");
    assert !LexLess("b", "a");
  }

  /** Strictly increasing in the JavaScript string order: sorted and free of duplicates. */
  predicate StrictlySorted(s: seq<string>)
  {
    forall k, j :: 0 <= k < j < |s| ==> LexLess(s[k], s[j])
  }

  lemma SortedTailAbove(s: seq<string>, i: nat, x: string)
    requires StrictlySorted(s) && i < |s|
    requires x in s[i + 1..]
    ensures LexLess(s[i], x)
  {
    var j :| i + 1 <= j < |s| && s[j] == x;
  }

  lemma SortedTailNot(s: seq<string>, i: nat, x: string)
    requires StrictlySorted(s) && i < |s|
    requires LexLess(x, s[i])
    ensures x !in s[i..]
  {
    var y := s[i];
    if x in s[i..] {
      var j :| i <= j < |s| && s[j] == x;
      if j == i {
        LexLessIrreflexive(x);
      } else {
        LexLessTotal(x, y);
      }
    }
  }

  /**
   * For strictly sorted inputs the merge yields exactly the common
   * elements, itself strictly sorted and starting no lower than both inputs.
   */
  lemma {:induction false} IntersectionCommon(first: seq<string>, second: seq<string>, i: nat, o: nat)
    requires StrictlySorted(first) && StrictlySorted(second)
    requires i <= |first| && o <= |second|
    ensures forall x :: x in Intersection(first, second, i, o) <==> x in first[i..] && x in second[o..]
    ensures StrictlySorted(Intersection(first, second, i, o))
    decreases |first| - i + |second| - o
  {
    var r := Intersection(first, second, i, o);
    if i == |first| || o == |second| {
    } else if first[i] == second[o] {
      IntersectionCommon(first, second, i + 1, o + 1);
      var rest := Intersection(first, second, i + 1, o + 1);
      forall x ensures x in r <==> x in first[i..] && x in second[o..] {
        assert first[i..] == [first[i]] + first[i + 1..];
        assert second[o..] == [second[o]] + second[o + 1..];
        if x in first[i + 1..] && x != first[i] {
          SortedTailAbove(first, i, x);
          if x == second[o] { LexLessIrreflexive(x); }
        }
        if x in second[o + 1..] && x != second[o] {
          SortedTailAbove(second, o, x);
          if x == first[i] { LexLessIrreflexive(x); }
        }
      }
      forall k, j | 0 <= k < j < |r| ensures LexLess(r[k], r[j]) {
        if k == 0 {
          assert r[j] in rest;
          SortedTailAbove(first, i, r[j]);
        } else {
          assert r[k] == rest[k - 1] && r[j] == rest[j - 1];
        }
      }
    } else if LexLess(first[i], second[o]) {
      IntersectionCommon(first, second, i + 1, o);
      SortedTailNot(second, o, first[i]);
      assert first[i..] == [first[i]] + first[i + 1..];
    } else {
      IntersectionCommon(first, second, i, o + 1);
      LexLessTotal(first[i], second[o]);
      SortedTailNot(first, i, second[o]);
      assert second[o..] == [second[o]] + second[o + 1..];
    }
  }

  lemma {:induction false} DistinctCardinality(s: seq<string>)
    requires StrictlySorted(s)
    ensures |set x | x in s| == |s|
    decreases |s|
  {
    if |s| > 0 {
      var front := s[..|s| - 1];
      DistinctCardinality(front);
      var last := s[|s| - 1];
      if last in front {
        var j :| 0 <= j < |front| && front[j] == last;
        LexLessIrreflexive(last);
      }
      assert (set x | x in s) == (set x | x in front) + {last};
    }
  }

  /**
   * For strictly sorted inputs the intersection's length (all that callers
   * read) is the number of elements the two arrays share, and this holds
   * for the as-written merge too.
   */
  /** A word list shares all of its words with itself. */
  lemma {:induction false} IntersectionWithItself(s: seq<string>, i: nat)
    requires i <= |s|
    ensures Intersection(s, s, i, i) == s[i..]
    decreases |s| - i
  {
    if i < |s| {
      IntersectionWithItself(s, i + 1);
      assert s[i..] == [s[i]] + s[i + 1..];
    }
  }

  lemma IntersectionSize(first: seq<string>, second: seq<string>)
    requires StrictlySorted(first) && StrictlySorted(second)
    ensures |IntersectionAsWritten(first, second, 0, 0)| == |(set x | x in first) * (set x | x in second)|
    ensures |Intersection(first, second, 0, 0)| == |(set x | x in first) * (set x | x in second)|
  {
    var r := Intersection(first, second, 0, 0);
    IntersectionCommon(first, second, 0, 0);
    assert first[0..] == first && second[0..] == second;
    DistinctCardinality(r);
    assert (set x | x in r) == (set x | x in first) * (set x | x in second);
    IntersectionLengthsAgree(first, second, 0, 0);
  }

  // ---------------------------------------------------------------------
  // splitIntoNormalizedWords

  /** The text without its space characters. */
  function NonSpace(s: string): string
  {
    if |s| == 0 then "" else (if s[0] == ' ' then "" else [s[0]]) + NonSpace(s[1..])
  }

  /** The non-space text of a character followed by a string. */
  lemma NonSpaceCons(c: char, t: string)
    ensures NonSpace([c] + t) == (if c == ' ' then [] else [c]) + NonSpace(t)
  {
    assert ([c] + t)[1..] == t;
  }

  /**
   * One `replace(/([X])([Y])/g, "$1 $2")`: matches are found left to right,
   * do not overlap, and each gets a space between its two characters.
   * Only spaces are added.
   */
  function SeparatePairs(s: string, first: char -> bool, second: char -> bool): (r: string)
    ensures |r| >= |s|
    decreases |s|
  {
    if |s| < 2 then s
    else if first(s[0]) && second(s[1]) then [s[0], ' ', s[1]] + SeparatePairs(s[2..], first, second)
    else [s[0]] + SeparatePairs(s[1..], first, second)
  }

  /** Separating the pairs only adds spaces. */
  lemma {:induction false} SeparatePairsKeepsText(s: string, first: char -> bool, second: char -> bool)
    ensures NonSpace(SeparatePairs(s, first, second)) == NonSpace(s)
    decreases |s|
  {
    if |s| < 2 {
    } else if first(s[0]) && second(s[1]) {
      SeparatePairsKeepsText(s[2..], first, second);
      assert s == [s[0]] + ([s[1]] + s[2..]);
      SpacedPairKeepsText(s[0], s[1], s[2..], SeparatePairs(s[2..], first, second));
    } else {
      SeparatePairsKeepsText(s[1..], first, second);
      assert s == [s[0]] + s[1..];
      NonSpaceCons(s[0], s[1..]);
      NonSpaceCons(s[0], SeparatePairs(s[1..], first, second));
    }
  }

  lemma SpacedPairKeepsText(c0: char, c1: char, rest: string, tail: string)
    requires NonSpace(tail) == NonSpace(rest)
    ensures NonSpace([c0, ' ', c1] + tail) == NonSpace([c0] + ([c1] + rest))
  {
    assert [c0, ' ', c1] + tail == [c0] + ([' '] + ([c1] + tail));
    NonSpaceCons(c0, [' '] + ([c1] + tail));
    NonSpaceCons(' ', [c1] + tail);
    NonSpaceCons(c1, tail);
    NonSpaceCons(c0, [c1] + rest);
    NonSpaceCons(c1, rest);
  }

  /**
   * `replace(/([A-Z])([A-Z][a-z])/g, "$1 $2")`: an acronym is separated from
   * a following capitalised word.
   */
  function SeparateAcronyms(s: string): (r: string)
    ensures |r| >= |s|
    decreases |s|
  {
    if |s| < 3 then s
    else if IsAsciiUpper(s[0]) && IsAsciiUpper(s[1]) && IsAsciiLower(s[2]) then
      [s[0], ' ', s[1], s[2]] + SeparateAcronyms(s[3..])
    else [s[0]] + SeparateAcronyms(s[1..])
  }

  /** Separating acronyms only adds spaces. */
  lemma {:induction false} SeparateAcronymsKeepsText(s: string)
    ensures NonSpace(SeparateAcronyms(s)) == NonSpace(s)
    decreases |s|
  {
    if |s| < 3 {
    } else if IsAsciiUpper(s[0]) && IsAsciiUpper(s[1]) && IsAsciiLower(s[2]) {
      SeparateAcronymsKeepsText(s[3..]);
      AcronymStepKeepsText(s[0], s[1], s[2], s[3..], SeparateAcronyms(s[3..]));
      assert s == [s[0]] + ([s[1]] + ([s[2]] + s[3..]));
    } else {
      SeparateAcronymsKeepsText(s[1..]);
      assert s == [s[0]] + s[1..];
      NonSpaceCons(s[0], s[1..]);
      NonSpaceCons(s[0], SeparateAcronyms(s[1..]));
    }
  }

  /** The acronym step: a space between the first two of three letters. */
  lemma AcronymStepKeepsText(c0: char, c1: char, c2: char, rest: string, tail: string)
    requires NonSpace(tail) == NonSpace(rest)
    ensures NonSpace([c0, ' ', c1, c2] + tail) == NonSpace([c0] + ([c1] + ([c2] + rest)))
  {
    NonSpaceCons(c2, rest);
    NonSpaceCons(c2, tail);
    SpacedPairKeepsText(c0, c1, [c2] + rest, [c2] + tail);
    assert [c0, ' ', c1, c2] + tail == [c0, ' ', c1] + ([c2] + tail);
  }

  predicate IsWordBreak(c: char) { IsJsWhitespace(c) || c == '.' || c == '-' || c == '_' }

  /** The characters U+0021-U+002F, U+003A-U+0040, U+005B-U+0060 and U+007B-U+007F. */
  predicate IsBasicLatinPunctuation(c: char)
  {
    ('\U{21}' <= c <= '\U{2F}') || ('\U{3A}' <= c <= '\U{40}') ||
    ('\U{5B}' <= c <= '\U{60}') || ('\U{7B}' <= c <= '\U{7F}')
  }

  /** `split(/[\s\.\-\_]/)`: the pieces between word-break characters, empty ones included. */
  function SplitAtBreaks(s: string): (r: seq<string>)
    ensures |r| >= 1
    ensures forall k, j :: 0 <= k < |r| && 0 <= j < |r[k]| ==> !IsWordBreak(r[k][j])
    decreases |s|
  {
    if |s| == 0 then [""]
    else
      var rest := SplitAtBreaks(s[1..]);
      if IsWordBreak(s[0]) then [""] + rest
      else [[s[0]] + rest[0]] + rest[1..]
  }

  /** The word-break characters of `s`, in order: what `split` cuts at. */
  function BreakChars(s: string): (r: string)
    ensures forall j :: 0 <= j < |r| ==> IsWordBreak(r[j])
    decreases |s|
  {
    if |s| == 0 then ""
    else (if IsWordBreak(s[0]) then [s[0]] else "") + BreakChars(s[1..])
  }

  /** The pieces with one separator between each neighbouring pair: the inverse of a split. */
  function Interleave(pieces: seq<string>, separators: string): string
    requires |pieces| == |separators| + 1
    decreases |separators|
  {
    if |separators| == 0 then pieces[0]
    else pieces[0] + [separators[0]] + Interleave(pieces[1..], separators[1..])
  }

  /**
   * The split loses nothing: there is one piece more than there are break
   * characters, and putting the break characters back between the pieces
   * gives back the text.
   */
  lemma {:induction false} SplitAtBreaksRoundTrip(s: string)
    ensures |SplitAtBreaks(s)| == |BreakChars(s)| + 1
    ensures Interleave(SplitAtBreaks(s), BreakChars(s)) == s
    decreases |s|
  {
    if |s| > 0 {
      SplitAtBreaksRoundTrip(s[1..]);
      var rest := SplitAtBreaks(s[1..]);
      var seps := BreakChars(s[1..]);
      if IsWordBreak(s[0]) {
        assert SplitAtBreaks(s) == [""] + rest;
        assert BreakChars(s) == [s[0]] + seps;
        assert ([""] + rest)[1..] == rest;
        assert s == "" + [s[0]] + s[1..];
      } else {
        assert BreakChars(s) == seps;
        InterleaveFirst(rest, seps, [s[0]]);
        assert s == [s[0]] + s[1..];
      }
    }
  }

  /** Text put in front of the first piece comes out in front of the whole. */
  lemma InterleaveFirst(pieces: seq<string>, separators: string, front: string)
    requires |pieces| == |separators| + 1
    ensures Interleave([front + pieces[0]] + pieces[1..], separators) == front + Interleave(pieces, separators)
  {
    var moved := [front + pieces[0]] + pieces[1..];
    assert moved[0] == front + pieces[0];
    if |separators| > 0 {
      assert moved[1..] == pieces[1..];
    }
  }

  /** Removing the basic Latin punctuation from a word. */
  function StripPunctuation(w: string): (r: string)
    ensures forall j :: 0 <= j < |r| ==> !IsBasicLatinPunctuation(r[j]) && r[j] in w
    decreases |w|
  {
    if |w| == 0 then ""
    else (if IsBasicLatinPunctuation(w[0]) then "" else [w[0]]) + StripPunctuation(w[1..])
  }

  /** Stripping works character by character, so it distributes over concatenation. */
  lemma {:induction false} StripPunctuationAppend(a: string, b: string)
    ensures StripPunctuation(a + b) == StripPunctuation(a) + StripPunctuation(b)
    decreases |a|
  {
    if |a| > 0 {
      StripPunctuationAppend(a[1..], b);
      assert (a + b)[1..] == a[1..] + b;
    } else {
      assert a + b == b;
    }
  }

  /** A punctuation character goes; any other character is kept. */
  lemma StripPunctuationChar(c: char)
    ensures StripPunctuation([c]) == if IsBasicLatinPunctuation(c) then "" else [c]
  {
    assert [c][1..] == "";
  }

  /** A word without punctuation is kept as it is. */
  lemma {:induction false} StripPunctuationKeeps(w: string)
    requires forall j :: 0 <= j < |w| ==> !IsBasicLatinPunctuation(w[j])
    ensures StripPunctuation(w) == w
    decreases |w|
  {
    if |w| > 0 {
      StripPunctuationKeeps(w[1..]);
      assert w == [w[0]] + w[1..];
    }
  }

  /** The punctuation-free, non-empty words, in order. */
  function CleanWords(pieces: seq<string>): (r: seq<string>)
    ensures forall k :: 0 <= k < |r| ==> |r[k]| > 0
    ensures forall w :: w in r <==> exists p :: p in pieces && w == StripPunctuation(p) && |w| > 0
    decreases |pieces|
  {
    if |pieces| == 0 then []
    else
      var rest := CleanWords(pieces[1..]);
      var w := StripPunctuation(pieces[0]);
      var r := if |w| > 0 then [w] + rest else rest;
      assert forall p :: p in pieces ==> p == pieces[0] || p in pieces[1..];
      forall x ensures x in r <==> exists p :: p in pieces && x == StripPunctuation(p) && |x| > 0 {
        if x in rest {
          var p :| p in pieces[1..] && x == StripPunctuation(p) && |x| > 0;
          assert p in pieces;
        } else if x in r {
          assert x == w && pieces[0] in pieces;
        }
      }
      r
  }

  /** `Array.from(new Set(words))`: the first occurrence of every word, in order. */
  function Dedupe(words: seq<string>): (r: seq<string>)
    ensures forall w :: w in r <==> w in words
    ensures forall k, j :: 0 <= k < j < |r| ==> r[k] != r[j]
  {
    if |words| == 0 then []
    else
      var front := Dedupe(words[..|words| - 1]);
      var last := words[|words| - 1];
      assert forall w :: w in words <==> w in words[..|words| - 1] || w == last;
      if last in front then front else front + [last]
  }

  /** Where `w` first occurs in `words`. */
  function FirstIndex(words: seq<string>, w: string): (i: nat)
    requires w in words
    ensures i < |words| && words[i] == w
    ensures forall j :: 0 <= j < i ==> words[j] != w
    decreases |words|
  {
    if words[0] == w then 0
    else
      assert w in words[1..];
      1 + FirstIndex(words[1..], w)
  }

  /** Appending a word leaves the first occurrences of earlier words where they were. */
  lemma FirstIndexSnoc(words: seq<string>, last: string, w: string)
    requires w in words + [last]
    ensures w in words ==> FirstIndex(words + [last], w) == FirstIndex(words, w)
    ensures w !in words ==> FirstIndex(words + [last], w) == |words|
  {
    var all := words + [last];
    if w in words {
      assert all[FirstIndex(words, w)] == w;
    }
  }

  /**
   * The deduplicated words are in order of first occurrence; with the
   * membership and distinctness of `Dedupe`'s contract this fixes the
   * result completely.
   */
  lemma {:induction false} DedupeKeepsFirstOccurrenceOrder(words: seq<string>)
    ensures forall k, j :: 0 <= k < j < |Dedupe(words)| ==>
      FirstIndex(words, Dedupe(words)[k]) < FirstIndex(words, Dedupe(words)[j])
    decreases |words|
  {
    if |words| > 0 {
      var front := words[..|words| - 1];
      var last := words[|words| - 1];
      assert words == front + [last];
      DedupeKeepsFirstOccurrenceOrder(front);
      var r := Dedupe(words);
      var rf := Dedupe(front);
      forall k, j | 0 <= k < j < |r|
        ensures FirstIndex(words, r[k]) < FirstIndex(words, r[j])
      {
        assert r[k] in rf;
        FirstIndexSnoc(front, last, r[k]);
        FirstIndexSnoc(front, last, r[j]);
        if j < |rf| {
          assert r[k] == rf[k] && r[j] == rf[j];
        }
      }
    }
  }

  /** A character that may appear in a normalised word. */
  predicate IsWordChar(c: char)
  {
    !IsWordBreak(c) && !IsBasicLatinPunctuation(c) && !IsAsciiUpper(c)
  }

  /** The text with camel-case, acronym and digit boundaries separated by spaces, in lower case. */
  function Separated(text: string): (r: string)
    ensures forall j :: 0 <= j < |r| ==> !IsAsciiUpper(r[j])
  {
    var digitsLetters := SeparatePairs(text, IsDigit, IsAsciiLetter);
    var lettersDigits := SeparatePairs(digitsLetters, IsAsciiLetter, IsDigit);
    var camel := SeparatePairs(lettersDigits, IsAsciiLower, IsAsciiUpper);
    LowerString(SeparateAcronyms(camel))
  }

  /**
   * `splitIntoNormalizedWords`: the distinct non-empty lower-case words of
   * the separated text, in order of first occurrence.
   */
  function SplitIntoNormalizedWords(text: string): (words: seq<string>)
    ensures forall k :: 0 <= k < |words| ==> |words[k]| > 0
    ensures forall k, j :: 0 <= k < j < |words| ==> words[k] != words[j]
    ensures forall k, j :: 0 <= k < |words| && 0 <= j < |words[k]| ==> IsWordChar(words[k][j])
    ensures forall w :: w in words <==> w in CleanWords(SplitAtBreaks(Separated(text)))
  {
    var separated := Separated(text);
    var clean := CleanWords(SplitAtBreaks(separated));
    CleanWordsAreWordChars(separated);
    Dedupe(clean)
  }

  /** The normalised words come in order of their first occurrence among the cleaned words. */
  lemma SplitIntoNormalizedWordsOrder(text: string)
    ensures var clean := CleanWords(SplitAtBreaks(Separated(text)));
      var words := SplitIntoNormalizedWords(text);
      forall k, j :: 0 <= k < j < |words| ==> FirstIndex(clean, words[k]) < FirstIndex(clean, words[j])
  {
    DedupeKeepsFirstOccurrenceOrder(CleanWords(SplitAtBreaks(Separated(text))));
  }

  /** Every stripped, non-empty piece of a text without upper-case letters is made of word characters. */
  lemma CleanWordsAreWordChars(separated: string)
    requires forall j :: 0 <= j < |separated| ==> !IsAsciiUpper(separated[j])
    ensures forall w, j :: w in CleanWords(SplitAtBreaks(separated)) && 0 <= j < |w| ==> IsWordChar(w[j])
  {
    var pieces := SplitAtBreaks(separated);
    forall w, j | w in CleanWords(pieces) && 0 <= j < |w| ensures IsWordChar(w[j]) {
      var p :| p in pieces && w == StripPunctuation(p) && |w| > 0;
      assert w[j] in p;
      PieceCharIsWordChar(separated, p, w[j]);
    }
  }

  lemma PieceCharIsWordChar(separated: string, p: string, c: char)
    requires forall j :: 0 <= j < |separated| ==> !IsAsciiUpper(separated[j])
    requires p in SplitAtBreaks(separated) && c in p && !IsBasicLatinPunctuation(c)
    ensures IsWordChar(c)
  {
    var pieces := SplitAtBreaks(separated);
    var m :| 0 <= m < |pieces| && pieces[m] == p;
    var n :| 0 <= n < |p| && p[n] == c;
    PiecesFromText(separated, m, n);
  }

  /** Every character of a split piece comes from the split text. */
  lemma {:induction false} PiecesFromText(s: string, k: nat, j: nat)
    requires k < |SplitAtBreaks(s)| && j < |SplitAtBreaks(s)[k]|
    ensures SplitAtBreaks(s)[k][j] in s
    decreases |s|
  {
    var rest := SplitAtBreaks(s[1..]);
    if IsWordBreak(s[0]) {
      PiecesFromText(s[1..], k - 1, j);
    } else if k == 0 && j == 0 {
    } else if k == 0 {
      PiecesFromText(s[1..], 0, j - 1);
    } else {
      PiecesFromText(s[1..], k, j);
    }
  }

  // ---------------------------------------------------------------------
  // flatten and capitalize

  /** `[].concat(...arrayOfArrays)`. */
  function Flatten<T(!new)>(arrays: seq<seq<T>>): (r: seq<T>)
    ensures forall x :: x in r <==> exists a :: a in arrays && x in a
  {
    if |arrays| == 0 then []
    else
      assert forall a :: a in arrays <==> a == arrays[0] || a in arrays[1..];
      arrays[0] + Flatten(arrays[1..])
  }

  /** Flattening distributes over concatenation, so it keeps the inner arrays' order. */
  lemma {:induction false} FlattenAppend<T(!new)>(a: seq<seq<T>>, b: seq<seq<T>>)
    ensures Flatten(a + b) == Flatten(a) + Flatten(b)
    decreases |a|
  {
    if |a| == 0 {
      assert a + b == b;
    } else {
      assert (a + b)[1..] == a[1..] + b;
      FlattenAppend(a[1..], b);
    }
  }

  /** `capitalize`: the first character in upper case, the rest in lower case. */
  function Capitalize(s: string): (r: string)
    ensures |r| == |s|
    ensures |r| > 0 ==> !IsAsciiLower(r[0])
    ensures forall k :: 1 <= k < |r| ==> !IsAsciiUpper(r[k])
    ensures forall k :: 0 <= k < |s| ==> ToLower(r[k]) == ToLower(s[k])
  {
    if |s| == 0 then "" else [ToUpper(s[0])] + LowerString(s[1..])
  }

  /** Capitalising a capitalised string changes nothing. */
  lemma CapitalizeIdempotent(s: string)
    ensures Capitalize(Capitalize(s)) == Capitalize(s)
  {
    var c := Capitalize(s);
    if |s| > 0 {
      assert Capitalize(c) == [ToUpper(c[0])] + LowerString(c[1..]);
      assert LowerString(c[1..]) == c[1..];
    }
  }
}
