/** Single-line array collapsing in `json_dumps` (`keep_arrays_single_line`): every
    innermost array span of the serialized text, longest first, is rewritten as
    `[` + its stripped items joined by `line_separator.ljust(2)` + `]`, and the
    first occurrence of the span is replaced by that text when it is no longer
    than `max_arrays_line_length`. */
module ArrayCollapse {
  import opened Wrappers
  import opened Text

  predicate IsBracket(c: char) {
    c == '[' || c == ']'
  }

  /** An innermost array span: `[`, at least one character that is not a bracket, `]`. */
  predicate IsInnermostArray(m: String) {
    && |m| >= 3 && m[0] == '[' && m[|m| - 1] == ']'
    && forall i | 0 < i < |m| - 1 :: !IsBracket(m[i])
  }

  /** Length of the longest bracket-free prefix of `s`. */
  function NonBracketRun(s: String): (n: nat)
    ensures n <= |s| && forall i | 0 <= i < n :: !IsBracket(s[i])
    ensures n < |s| ==> IsBracket(s[n])
    decreases |s|
  {
    if |s| == 0 || IsBracket(s[0]) then 0 else 1 + NonBracketRun(s[1..])
  }

  /** Length of the match of `\[[^\[\]]+?\]` at the start of `s`, if it matches there.
      `[^\[\]]` cannot match `]`, so the lazy `+?` ends at the first bracket. */
  function SpanAt(s: String): (r: Option<nat>)
    ensures r.Some? ==> r.value <= |s| && IsInnermostArray(s[..r.value])
    ensures r.None? ==> forall n | 0 <= n <= |s| :: !IsInnermostArray(s[..n])
  {
    if |s| == 0 || s[0] != '[' then None
    else
      var n := NonBracketRun(s[1..]);
      if n >= 1 && n + 1 < |s| && s[n + 1] == ']' then Some(n + 2)
      else
        assert forall k | 0 <= k <= |s| :: !IsInnermostArray(s[..k]) by {
          forall k | 0 <= k <= |s|
            ensures !IsInnermostArray(s[..k])
          {
            if n + 2 < k {
              assert s[..k][n + 1] == s[n + 1];
            } else if 3 <= k {
              assert s[..k][k - 1] == s[1..][k - 2];
            }
          }
        }
        None
  }

  /** `re.findall(r'(\[[^\[\]]+?\])', s)`: leftmost matches, scanning resumes after each. */
  function FindSpans(s: String): (r: seq<String>)
    ensures forall k | 0 <= k < |r| :: IsInnermostArray(r[k])
    decreases |s|
  {
    if |s| == 0 then []
    else
      match SpanAt(s)
      case Some(n) => [s[..n]] + FindSpans(s[n..])
      case None => FindSpans(s[1..])
  }

  /** Reference definition: the span starting at every position of `s`, in order. */
  function EverySpan(s: String): seq<String>
    decreases |s|
  {
    if |s| == 0 then []
    else
      (if SpanAt(s).Some? then [s[..SpanAt(s).value]] else []) + EverySpan(s[1..])
  }

  /** Positions that do not hold `[` start no span. */
  lemma {:induction false} SkipNoOpen(s: String, n: nat)
    requires n <= |s|
    requires forall i | 0 <= i < n :: s[i] != '['
    ensures EverySpan(s) == EverySpan(s[n..])
    decreases n
  {
    if n > 0 {
      assert SpanAt(s).None?;
      DropTail(s, n);
      SkipNoOpen(s[1..], n - 1);
    }
  }

  /** No `[` follows the opening bracket inside a span. */
  lemma SpanInterior(s: String, n: nat)
    requires SpanAt(s) == Some(n)
    ensures 2 <= n <= |s|
    ensures forall i | 0 <= i < n - 1 :: s[1..][i] != '['
  {
    assert forall i | 0 < i < n - 1 :: !IsBracket(s[..n][i]);
    assert s[1..][n - 2] == ']';
  }

  /** Resuming after each match loses nothing: innermost spans never overlap, so the
      non-overlapping scan finds the span starting at every position. */
  lemma {:induction false} FindSpansFindsEverySpan(s: String)
    ensures FindSpans(s) == EverySpan(s)
    decreases |s|
  {
    if |s| > 0 {
      match SpanAt(s)
      case None =>
        FindSpansFindsEverySpan(s[1..]);
      case Some(n) =>
        FindSpansFindsEverySpan(s[n..]);
        SpanInterior(s, n);
        SkipNoOpen(s[1..], n - 1);
        DropTail(s, n);
    }
  }

  // ---------------------------------------------------------------------------
  // matches.sort(key=len, reverse=True): a stable sort, longest first

  /** Each element is at least as long as the next. */
  predicate LongestFirst(ms: seq<String>) {
    forall i | 0 < i < |ms| :: |ms[i - 1]| >= |ms[i]|
  }

  /** The elements of `ms` of length `n`, in order. */
  function OfLength(ms: seq<String>, n: nat): (r: seq<String>)
    ensures forall k | 0 <= k < |r| :: |r[k]| == n
    decreases |ms|
  {
    if |ms| == 0 then []
    else (if |ms[0]| == n then [ms[0]] else []) + OfLength(ms[1..], n)
  }

  /** Place `x` before the first element no longer than it, so that `x` stays ahead of
      the elements of its own length. */
  function InsertByLength(x: String, ms: seq<String>): (r: seq<String>)
    requires LongestFirst(ms)
    ensures LongestFirst(r)
    ensures |r| > 0 && (r[0] == x || (|ms| > 0 && r[0] == ms[0]))
    decreases |ms|
  {
    if |ms| == 0 || |ms[0]| <= |x| then
      LongestFirstCons(x, ms);
      [x] + ms
    else
      LongestFirstTail(ms);
      var rest := InsertByLength(x, ms[1..]);
      LongestFirstCons(ms[0], rest);
      ConsTail(ms);
      [ms[0]] + rest
  }

  /** Inserting adds `x` and keeps every element. */
  lemma {:induction false} InsertByLengthPermutes(x: String, ms: seq<String>)
    requires LongestFirst(ms)
    ensures multiset(InsertByLength(x, ms)) == multiset(ms) + multiset{x}
    decreases |ms|
  {
    if |ms| > 0 && |ms[0]| > |x| {
      LongestFirstTail(ms);
      InsertByLengthPermutes(x, ms[1..]);
      ConsTail(ms);
    }
  }

  lemma LongestFirstCons(a: String, ms: seq<String>)
    requires LongestFirst(ms) && (|ms| > 0 ==> |a| >= |ms[0]|)
    ensures LongestFirst([a] + ms)
  {
    var r := [a] + ms;
    forall i | 0 < i < |r|
      ensures |r[i - 1]| >= |r[i]|
    {
      if i > 1 {
        assert r[i - 1] == ms[i - 2] && r[i] == ms[i - 1];
      }
    }
  }

  lemma LongestFirstTail(ms: seq<String>)
    requires LongestFirst(ms) && |ms| > 0
    ensures LongestFirst(ms[1..])
  {
    forall i | 0 < i < |ms| - 1
      ensures |ms[1..][i - 1]| >= |ms[1..][i]|
    {
      assert ms[1..][i - 1] == ms[i] && ms[1..][i] == ms[i + 1];
    }
  }

  /** `sorted(ms, key=len, reverse=True)`: longest first and a permutation of `ms`. */
  function SortLongestFirst(ms: seq<String>): (r: seq<String>)
    ensures LongestFirst(r)
    ensures multiset(r) == multiset(ms)
    decreases |ms|
  {
    if |ms| == 0 then []
    else
      var sorted := SortLongestFirst(ms[1..]);
      InsertByLengthPermutes(ms[0], sorted);
      ConsTail(ms);
      InsertByLength(ms[0], sorted)
  }

  lemma {:induction false} InsertByLengthStable(x: String, ms: seq<String>, n: nat)
    requires LongestFirst(ms)
    ensures OfLength(InsertByLength(x, ms), n) == OfLength([x] + ms, n)
    decreases |ms|
  {
    if |ms| > 0 && |ms[0]| > |x| {
      var rest := InsertByLength(x, ms[1..]);
      LongestFirstTail(ms);
      InsertByLengthStable(x, ms[1..], n);
      OfLengthCons(ms[0], rest, n);
      OfLengthCons(x, ms[1..], n);
      OfLengthCons(x, ms, n);
      ConsTail(ms);
      OfLengthCons(ms[0], ms[1..], n);
      if |x| == n {
        EmptyAppend([x] + OfLength(ms[1..], n));
      } else {
        EmptyAppend(OfLength(ms, n));
        EmptyAppend(OfLength(ms[1..], n));
      }
    }
  }

  lemma OfLengthCons(y: String, s: seq<String>, n: nat)
    ensures OfLength([y] + s, n) == (if |y| == n then [y] else []) + OfLength(s, n)
  {
    TailOfCons(y, s);
  }

  /** Python's sort is stable: among spans of equal length the order of `findall` is kept. */
  lemma {:induction false} SortLongestFirstStable(ms: seq<String>, n: nat)
    ensures OfLength(SortLongestFirst(ms), n) == OfLength(ms, n)
    decreases |ms|
  {
    if |ms| > 0 {
      var sorted := SortLongestFirst(ms[1..]);
      SortLongestFirstStable(ms[1..], n);
      InsertByLengthStable(ms[0], sorted, n);
      TailOfCons(ms[0], sorted);
    }
  }

  // ---------------------------------------------------------------------------
  // Collapsing one span

  /** The replacement for span `m`: its content split on the stripped separator, each
      item stripped, rejoined by the separator padded to two characters, in brackets. */
  function Collapsed(m: String, sep: String): (r: String)
    requires |m| >= 2 && |Strip(sep)| > 0
    ensures |r| >= 2 && r[0] == '[' && r[|r| - 1] == ']'
  {
    ['['] + Join(StripAll(Split(m[1..|m| - 1], Strip(sep))), LJust(sep, 2)) + [']']
  }

  /** Stripping a piece cannot create an occurrence of a pattern. */
  lemma StripKeepsAbsent(x: String, pat: String)
    requires !Contains(x, pat)
    ensures Stripped(Strip(x)) && !Contains(Strip(x), pat)
  {
    if Contains(Strip(x), pat) {
      ContainsInfix(x, |LeadingSpace(x)|, |Strip(x)|, pat);
    }
  }

  /** The items of a collapsed array, the pieces between the padded separators: each is
      free of surrounding whitespace and of the stripped separator, and together, joined
      by the stripped separator, they hold the content's non-whitespace characters. */
  lemma CollapsedItems(m: String, sep: String)
    requires |m| >= 2 && |Strip(sep)| > 0
    ensures var items := StripAll(Split(m[1..|m| - 1], Strip(sep)));
            && (forall k | 0 <= k < |items| :: Stripped(items[k]) && !Contains(items[k], Strip(sep)))
            && RemoveSpace(Join(items, Strip(sep))) == RemoveSpace(m[1..|m| - 1])
  {
    var p := Strip(sep);
    var parts := Split(m[1..|m| - 1], p);
    var items := StripAll(parts);
    forall k | 0 <= k < |items|
      ensures Stripped(items[k]) && !Contains(items[k], p)
    {
      StripKeepsAbsent(parts[k], p);
    }
    RemoveSpaceJoin(items, p);
    RemoveSpaceStripAll(parts);
    RemoveSpaceJoin(parts, p);
  }

  /** Collapsing changes whitespace only: the span and its replacement have the same
      non-whitespace characters. */
  lemma CollapsedKeepsNonSpace(m: String, sep: String)
    requires IsInnermostArray(m) && |Strip(sep)| > 0
    ensures RemoveSpace(Collapsed(m, sep)) == RemoveSpace(m)
  {
    var content := m[1..|m| - 1];
    var parts := Split(content, Strip(sep));
    var joinSep := LJust(sep, 2);
    var body := Join(StripAll(parts), joinSep);
    assert RemoveSpace(joinSep) == RemoveSpace(Strip(sep)) by {
      PaddingKeepsNonSpace(sep, joinSep[|sep|..]);
      assert joinSep == sep + joinSep[|sep|..];
      RemoveSpaceStrip(sep);
    }
    assert RemoveSpace(body) == RemoveSpace(content) by {
      RemoveSpaceJoin(StripAll(parts), joinSep);
      RemoveSpaceStripAll(parts);
      RemoveSpaceJoin(parts, Strip(sep));
    }
    Ends(m);
    RemoveSpaceBracketed(content);
    RemoveSpaceBracketed(body);
  }

  /** Padding with whitespace adds no non-whitespace characters. */
  lemma PaddingKeepsNonSpace(s: String, pad: String)
    requires AllSpace(pad)
    ensures RemoveSpace(s + pad) == RemoveSpace(s)
  {
    RemoveSpaceAppend(s, pad);
    RemoveSpaceAllSpace(pad);
  }

  lemma RemoveSpaceBracketed(x: String)
    ensures RemoveSpace(['['] + x + [']']) == ['['] + RemoveSpace(x) + [']']
  {
    RemoveSpaceAppend(['['] + x, [']']);
    RemoveSpaceAppend(['['], x);
  }

  /** No piece of a text split on `c` contains `c`, and stripping keeps it so. */
  lemma StrippedPiecesFree(content: String, c: char)
    ensures forall k | 0 <= k < |StripAll(Split(content, [c]))| ::
      c !in StripAll(Split(content, [c]))[k]
  {
    var parts := Split(content, [c]);
    forall k | 0 <= k < |parts|
      ensures c !in Strip(parts[k])
    {
      var l := |LeadingSpace(parts[k])|;
      var r := Strip(parts[k]);
      if c in r {
        var i :| 0 <= i < |r| && r[i] == c;
        assert parts[k][l + i] == c;
        CharContains(parts[k], c);
        assert false;
      }
    }
  }

  predicate Stripped(x: String) {
    |x| > 0 ==> !IsSpace(x[0]) && !IsSpace(x[|x| - 1])
  }

  /** Splitting the joined items on the separator character and stripping the pieces
      gives the items back, whatever whitespace pads the separator. */
  lemma {:induction false} SplitPaddedJoin(pre: String, items: seq<String>, w1: String, c: char, w2: String)
    requires AllSpace(pre) && AllSpace(w1) && AllSpace(w2) && !IsSpace(c)
    requires |items| >= 1
    requires forall k | 0 <= k < |items| :: c !in items[k] && Stripped(items[k])
    ensures StripAll(Split(pre + Join(items, w1 + [c] + w2), [c])) == items
    decreases |items|
  {
    var sep := w1 + [c] + w2;
    if |items| == 1 {
      SplitPaddedLast(pre, items[0], c);
    } else {
      var rest := Join(items[1..], sep);
      assert Join(items, sep) == items[0] + sep + rest;
      SplitPaddedFirst(pre, items[0], w1, c, w2, rest);
      assert StripAll(Split(w2 + rest, [c])) == items[1..] by {
        forall k | 0 <= k < |items| - 1
          ensures c !in items[1..][k] && Stripped(items[1..][k])
        {
          assert items[1..][k] == items[k + 1];
        }
        SplitPaddedJoin(w2, items[1..], w1, c, w2);
      }
      ConsTail(items);
    }
  }

  lemma SplitPaddedLast(pre: String, x: String, c: char)
    requires AllSpace(pre) && !IsSpace(c) && c !in x && Stripped(x)
    ensures StripAll(Split(pre + x, [c])) == [x]
  {
    var s := pre + x;
    assert c !in pre;
    assert c !in s;
    SplitWithoutChar(s, c);
    StripPadded(pre, x, []);
    assert pre + x + [] == s;
  }

  lemma SplitPaddedFirst(pre: String, x: String, w1: String, c: char, w2: String, rest: String)
    requires AllSpace(pre) && AllSpace(w1) && !IsSpace(c) && c !in x && Stripped(x)
    ensures StripAll(Split(pre + (x + (w1 + [c] + w2) + rest), [c]))
         == [x] + StripAll(Split(w2 + rest, [c]))
  {
    var head := pre + x + w1;
    var s := pre + (x + (w1 + [c] + w2) + rest);
    assert s == head + [c] + (w2 + rest);
    forall k | 0 <= k < |head|
      ensures head[k] != c
    {
      if k < |pre| {
        assert head[k] == pre[k];
      } else if k < |pre| + |x| {
        assert head[k] == x[k - |pre|];
      } else {
        assert head[k] == w1[k - |pre| - |x|];
      }
    }
    FindChar(s, c, |head|);
    assert s[..|head|] == head;
    assert s[|head| + 1..] == w2 + rest;
    StripPadded(pre, x, w1);
    assert Split(s, [c]) == [head] + Split(w2 + rest, [c]);
  }

  /** Collapsing a collapsed span changes nothing when the separator is one visible
      character with optional whitespace around it (the default `,` among them). */
  lemma CollapsedIdempotent(m: String, sep: String)
    requires IsInnermostArray(m) && |Strip(sep)| == 1
    ensures Collapsed(Collapsed(m, sep), sep) == Collapsed(m, sep)
  {
    var w1, c, w2 := SeparatorShape(sep);
    var joinSep := LJust(sep, 2);
    var items := StripAll(Split(m[1..|m| - 1], [c]));
    StrippedPiecesFree(m[1..|m| - 1], c);
    var once := Collapsed(m, sep);
    var body := Join(items, joinSep);
    assert once[1..|once| - 1] == body;
    assert StripAll(Split(body, [c])) == items by {
      SplitPaddedJoin([], items, w1, c, w2);
      EmptyAppend(body);
    }
    Ends(once);
  }

  /** A separator whose stripped form is one character `c` pads to `w1 + [c] + w2`,
      whitespace around `c`. */
  lemma SeparatorShape(sep: String) returns (w1: String, c: char, w2: String)
    requires |Strip(sep)| == 1
    ensures Strip(sep) == [c] && !IsSpace(c) && AllSpace(w1) && AllSpace(w2)
    ensures LJust(sep, 2) == w1 + [c] + w2
  {
    c := Strip(sep)[0];
    var l := |LeadingSpace(sep)|;
    var joinSep := LJust(sep, 2);
    w1 := sep[..l];
    w2 := sep[l + 1..] + joinSep[|sep|..];
    assert joinSep == w1 + [c] + w2 by {
      assert sep[l] == c;
      AroundIndex(sep, l);
      PrefixRest(sep, joinSep);
      AppendAssoc(w1 + [c], sep[l + 1..], joinSep[|sep|..]);
    }
    assert AllSpace(w2) by {
      assert AllSpace(sep[l + 1..]);
      assert AllSpace(joinSep[|sep|..]);
    }
  }

  // ---------------------------------------------------------------------------
  // The whole pass

  datatype CollapseError = EmptySeparator

  /** The loop over the sorted spans: each replaces the first occurrence of its text when
      its replacement fits in `maxLength`, and is skipped otherwise. */
  function ReplaceSpans(text: String, ms: seq<String>, sep: String, maxLength: int): String
    requires |Strip(sep)| > 0
    requires forall k | 0 <= k < |ms| :: IsInnermostArray(ms[k])
    decreases |ms|
  {
    if |ms| == 0 then text
    else
      assert IsInnermostArray(ms[0]);
      var r := Collapsed(ms[0], sep);
      var next := if |r| <= maxLength then ReplaceFirst(text, ms[0], r) else text;
      ReplaceSpans(next, ms[1..], sep, maxLength)
  }

  /** The collapsing pass over a serialized text. `str.split` raises ValueError on an
      empty separator, which happens when `line_separator` is all whitespace and the text
      holds at least one span. */
  function CollapseArrays(text: String, sep: String, maxLength: int): (r: Result<String, CollapseError>)
    ensures r.Failure? <==> |FindSpans(text)| > 0 && |Strip(sep)| == 0
    ensures |FindSpans(text)| == 0 ==> r == Success(text)
  {
    var ms := SortLongestFirst(FindSpans(text));
    if |ms| == 0 then Success(text)
    else if |Strip(sep)| == 0 then Failure(EmptySeparator)
    else
      assert forall k | 0 <= k < |ms| :: IsInnermostArray(ms[k]) by {
        forall k | 0 <= k < |ms|
          ensures IsInnermostArray(ms[k])
        {
          assert ms[k] in multiset(FindSpans(text));
        }
      }
      Success(ReplaceSpans(text, ms, sep, maxLength))
  }

  lemma {:induction false} ReplaceSpansKeepsNonSpace(text: String, ms: seq<String>, sep: String, maxLength: int)
    requires |Strip(sep)| > 0
    requires forall k | 0 <= k < |ms| :: IsInnermostArray(ms[k])
    ensures RemoveSpace(ReplaceSpans(text, ms, sep, maxLength)) == RemoveSpace(text)
    decreases |ms|
  {
    if |ms| > 0 {
      assert IsInnermostArray(ms[0]);
      var r := Collapsed(ms[0], sep);
      CollapsedKeepsNonSpace(ms[0], sep);
      if |r| <= maxLength {
        ReplaceFirstKeepsNonSpace(text, ms[0], r);
      }
      var next := if |r| <= maxLength then ReplaceFirst(text, ms[0], r) else text;
      ReplaceSpansKeepsNonSpace(next, ms[1..], sep, maxLength);
    }
  }

  /** Collapsing arrays only changes whitespace. */
  lemma CollapseArraysKeepsNonSpace(text: String, sep: String, maxLength: int)
    requires CollapseArrays(text, sep, maxLength).Success?
    ensures RemoveSpace(CollapseArrays(text, sep, maxLength).value) == RemoveSpace(text)
  {
    var ms := SortLongestFirst(FindSpans(text));
    if |ms| > 0 {
      forall k | 0 <= k < |ms|
        ensures IsInnermostArray(ms[k])
      {
        assert ms[k] in multiset(FindSpans(text));
      }
      ReplaceSpansKeepsNonSpace(text, ms, sep, maxLength);
    }
  }

  /** Spans whose collapsed form would be longer than the limit leave the text alone. */
  lemma {:induction false} SpansOverLimitKept(text: String, ms: seq<String>, sep: String, maxLength: int)
    requires |Strip(sep)| > 0
    requires forall k | 0 <= k < |ms| :: IsInnermostArray(ms[k]) && |Collapsed(ms[k], sep)| > maxLength
    ensures ReplaceSpans(text, ms, sep, maxLength) == text
    decreases |ms|
  {
    if |ms| > 0 {
      assert IsInnermostArray(ms[0]) && |Collapsed(ms[0], sep)| > maxLength;
      SpansOverLimitKept(text, ms[1..], sep, maxLength);
    }
  }

  /** With a limit below two characters no array fits, and the text comes out unchanged. */
  lemma NothingFits(text: String, sep: String, maxLength: int)
    requires maxLength < 2 && CollapseArrays(text, sep, maxLength).Success?
    ensures CollapseArrays(text, sep, maxLength).value == text
  {
    var ms := SortLongestFirst(FindSpans(text));
    if |ms| > 0 {
      forall k | 0 <= k < |ms|
        ensures IsInnermostArray(ms[k])
      {
        assert ms[k] in multiset(FindSpans(text));
      }
      SpansOverLimitKept(text, ms, sep, maxLength);
    }
  }

  /** A text with a single innermost array gets that array collapsed in place when the
      result fits in the limit, and is returned unchanged when it does not. */
  lemma SingleSpan(text: String, sep: String, maxLength: int)
    requires |FindSpans(text)| == 1 && |Strip(sep)| > 0
    ensures var m := FindSpans(text)[0];
            CollapseArrays(text, sep, maxLength) == Success(
              if |Collapsed(m, sep)| <= maxLength then ReplaceFirst(text, m, Collapsed(m, sep)) else text)
  {
    var m := FindSpans(text)[0];
    assert FindSpans(text) == [m];
    assert SortLongestFirst([m]) == [m];
    assert IsInnermostArray(m);
    var next := if |Collapsed(m, sep)| <= maxLength then ReplaceFirst(text, m, Collapsed(m, sep)) else text;
    assert ReplaceSpans(text, [m], sep, maxLength) == ReplaceSpans(next, [], sep, maxLength);
  }
}
