/** The handful of Python `str` operations the plugin's text transformations are
    built from: whitespace classification, `strip`, `split`, `join`, `ljust` and
    `replace(old, new, 1)`, each with a contract saying what it means. */
module Text {
  import opened Wrappers

  type String = seq<char>

  /** Python's `str.isspace()`; CPython's `\s` in a `str` pattern matches the same set. */
  predicate IsSpace(c: char) {
    || c == ' ' || c == '\t' || c == '\n' || c == '\r'
    || c == '\U{0B}' || c == '\U{0C}'
    || ('\U{1C}' <= c <= '\U{1F}')
    || c == '\U{85}' || c == '\U{A0}' || c == '\U{1680}'
    || ('\U{2000}' <= c <= '\U{200A}')
    || c == '\U{2028}' || c == '\U{2029}' || c == '\U{202F}' || c == '\U{205F}' || c == '\U{3000}'
  }

  predicate AllSpace(s: String) {
    forall i | 0 <= i < |s| :: IsSpace(s[i])
  }

  /** Longest whitespace prefix: what `re.search(r'^\s*', s).group(0)` returns. */
  function LeadingSpace(s: String): (r: String)
    ensures r <= s && AllSpace(r)
    ensures |r| < |s| ==> !IsSpace(s[|r|])
  {
    if |s| == 0 || !IsSpace(s[0]) then [] else [s[0]] + LeadingSpace(s[1..])
  }

  /** `s.rstrip()`: drop the longest whitespace suffix. */
  function RStrip(s: String): (r: String)
    ensures r <= s && AllSpace(s[|r|..])
    ensures |r| > 0 ==> !IsSpace(r[|r| - 1])
  {
    if |s| == 0 || !IsSpace(s[|s| - 1]) then s else RStrip(s[..|s| - 1])
  }

  /** `s.strip()`: the infix of `s` left after dropping whitespace at both ends. */
  function Strip(s: String): (r: String)
    ensures |LeadingSpace(s)| + |r| <= |s|
    ensures r == s[|LeadingSpace(s)|..|LeadingSpace(s)| + |r|]
    ensures AllSpace(s[|LeadingSpace(s)| + |r|..])
    ensures |r| > 0 ==> !IsSpace(r[0]) && !IsSpace(r[|r| - 1])
  {
    RStrip(s[|LeadingSpace(s)|..])
  }

  /** The non-whitespace characters of `s`, in order. */
  function RemoveSpace(s: String): (r: String)
    ensures |r| <= |s|
    ensures forall i | 0 <= i < |r| :: !IsSpace(r[i])
  {
    if |s| == 0 then []
    else if IsSpace(s[0]) then RemoveSpace(s[1..])
    else [s[0]] + RemoveSpace(s[1..])
  }

  lemma {:induction false} RemoveSpaceAppend(a: String, b: String)
    ensures RemoveSpace(a + b) == RemoveSpace(a) + RemoveSpace(b)
    decreases |a|
  {
    if |a| == 0 {
      assert a + b == b;
    } else {
      AppendTail(a, b);
      RemoveSpaceAppend(a[1..], b);
    }
  }

  lemma {:induction false} RemoveSpaceAllSpace(s: String)
    requires AllSpace(s)
    ensures RemoveSpace(s) == []
    decreases |s|
  {
    if |s| > 0 {
      RemoveSpaceAllSpace(s[1..]);
    }
  }

  /** Stripping only ever removes whitespace. */
  lemma RemoveSpaceStrip(s: String)
    ensures RemoveSpace(Strip(s)) == RemoveSpace(s)
  {
    var l := |LeadingSpace(s)|;
    var r := Strip(s);
    assert s == s[..l] + (r + s[l + |r|..]);
    RemoveSpaceAppend(s[..l], r + s[l + |r|..]);
    RemoveSpaceAppend(r, s[l + |r|..]);
    RemoveSpaceAllSpace(s[..l]);
    RemoveSpaceAllSpace(s[l + |r|..]);
  }

  lemma RemoveSpaceRStrip(s: String)
    ensures RemoveSpace(RStrip(s)) == RemoveSpace(s)
  {
    var r := RStrip(s);
    assert s == r + s[|r|..];
    RemoveSpaceAppend(r, s[|r|..]);
    RemoveSpaceAllSpace(s[|r|..]);
  }

  /** A whitespace run followed by a non-whitespace character is the leading whitespace. */
  lemma {:induction false} LeadingSpaceUnique(t: String, q: nat)
    requires q < |t| && AllSpace(t[..q]) && !IsSpace(t[q])
    ensures LeadingSpace(t) == t[..q]
    decreases q
  {
    if q > 0 {
      assert t[1..][..q - 1] == t[1..q];
      LeadingSpaceUnique(t[1..], q - 1);
    }
  }

  /** Stripping trailing whitespace from `p + w` gives back `p` when `p` ends in non-whitespace. */
  lemma {:induction false} RStripSpaceTail(p: String, w: String)
    requires AllSpace(w)
    requires |p| > 0 ==> !IsSpace(p[|p| - 1])
    ensures RStrip(p + w) == p
    decreases |w|
  {
    if |w| == 0 {
      assert p + w == p;
    } else {
      assert (p + w)[..|p + w| - 1] == p + w[..|w| - 1];
      RStripSpaceTail(p, w[..|w| - 1]);
    }
  }

  /** `pat` occurs in `s` starting at index `i`. */
  predicate OccursAt(s: String, pat: String, i: nat) {
    i + |pat| <= |s| && s[i..i + |pat|] == pat
  }

  predicate Contains(s: String, pat: String) {
    exists i: nat | i <= |s| :: OccursAt(s, pat, i)
  }

  /** Index of the leftmost occurrence of `pat` in `s` at or after `from`. */
  function FindFrom(s: String, pat: String, from: nat): (r: Option<nat>)
    requires from <= |s|
    ensures r.Some? ==> from <= r.value && OccursAt(s, pat, r.value)
    ensures r.Some? ==> forall k: nat | from <= k < r.value :: !OccursAt(s, pat, k)
    ensures r.None? ==> forall k: nat | from <= k <= |s| :: !OccursAt(s, pat, k)
    decreases |s| - from
  {
    if |s| - from < |pat| then None
    else if s[from..from + |pat|] == pat then Some(from)
    else FindFrom(s, pat, from + 1)
  }

  /** `from` is the leftmost occurrence of `pat` in `s`. */
  predicate FirstOccurrence(s: String, pat: String, i: nat) {
    OccursAt(s, pat, i) && forall k: nat | k < i :: !OccursAt(s, pat, k)
  }

  lemma NoOccurrenceBeforeFirst(s: String, pat: String, i: nat, k: nat)
    requires forall j: nat | j < i :: !OccursAt(s, pat, j)
    requires |pat| > 0 && i <= |s| && k + |pat| <= i
    ensures !OccursAt(s[..i], pat, k)
  {
    assert s[..i][k..k + |pat|] == s[k..k + |pat|];
    assert !OccursAt(s, pat, k);
  }

  /** An occurrence inside a slice is an occurrence in the whole text. */
  lemma ContainsInfix(x: String, l: nat, n: nat, pat: String)
    requires l + n <= |x| && Contains(x[l..l + n], pat)
    ensures Contains(x, pat)
  {
    var y := x[l..l + n];
    var i: nat :| i <= n && OccursAt(y, pat, i);
    assert x[l + i..l + i + |pat|] == pat by {
      forall j | 0 <= j < |pat| ensures x[l + i + j] == pat[j] {
        assert y[i..i + |pat|][j] == pat[j];
      }
    }
    assert OccursAt(x, pat, l + i);
  }

  /** `sep.join(xs)`. */
  function Join(xs: seq<String>, sep: String): (r: String)
    ensures |xs| == 1 ==> r == xs[0]
    decreases |xs|
  {
    if |xs| == 0 then []
    else if |xs| == 1 then xs[0]
    else xs[0] + sep + Join(xs[1..], sep)
  }

  /** `s.split(sep)` for a non-empty separator (Python raises ValueError for an empty one).
      Joining the pieces back gives `s`, and no piece contains the separator. The first
      cut is at the leftmost occurrence, and there is no cut exactly when `s` does not
      contain the separator. */
  function Split(s: String, sep: String): (r: seq<String>)
    requires |sep| > 0
    ensures |r| >= 1
    ensures Join(r, sep) == s
    ensures forall k | 0 <= k < |r| :: !Contains(r[k], sep)
    ensures |r| == 1 <==> !Contains(s, sep)
    ensures |r| > 1 ==> FirstOccurrence(s, sep, |r[0]|)
    decreases |s|
  {
    match FindFrom(s, sep, 0)
    case None =>
      assert !Contains(s, sep);
      [s]
    case Some(i) =>
      var rest := Split(s[i + |sep|..], sep);
      CutAtFirst(s, sep, i);
      [s[..i]] + rest
  }

  /** Cutting `s` at the leftmost occurrence of `sep`: the part before is free of it,
      and the two parts around it rebuild `s`. */
  lemma CutAtFirst(s: String, sep: String, i: nat)
    requires |sep| > 0 && FirstOccurrence(s, sep, i)
    ensures Contains(s, sep) && !Contains(s[..i], sep)
    ensures s == s[..i] + sep + s[i + |sep|..]
  {
    forall k: nat | k <= |s[..i]|
      ensures !OccursAt(s[..i], sep, k)
    {
      if k + |sep| <= i {
        NoOccurrenceBeforeFirst(s, sep, i, k);
      }
    }
    assert s == s[..i] + s[i..i + |sep|] + s[i + |sep|..];
  }

  /** Each piece but the last ends where the separator first occurs in the pieces from
      it on, joined. */
  predicate CutsLeftmost(r: seq<String>, sep: String) {
    forall k | 0 <= k < |r| - 1 :: FirstOccurrence(Join(r[k..], sep), sep, |r[k]|)
  }

  lemma CutsLeftmostCons(x: String, rest: seq<String>, sep: String)
    requires |rest| >= 1 && CutsLeftmost(rest, sep)
    requires FirstOccurrence(Join([x] + rest, sep), sep, |x|)
    ensures CutsLeftmost([x] + rest, sep)
  {
    var r := [x] + rest;
    forall k | 0 <= k < |r| - 1
      ensures FirstOccurrence(Join(r[k..], sep), sep, |r[k]|)
    {
      if k == 0 {
        assert r[k..] == r;
      } else {
        assert r[k..] == rest[k - 1..];
      }
    }
  }

  /** Every cut of `Split` is at the leftmost occurrence of the separator in what is left
      of the text. */
  lemma {:induction false} SplitCutsLeftmost(s: String, sep: String)
    requires |sep| > 0
    ensures CutsLeftmost(Split(s, sep), sep)
    decreases |s|
  {
    match FindFrom(s, sep, 0)
    case None =>
    case Some(i) =>
      var rest := Split(s[i + |sep|..], sep);
      assert Split(s, sep) == [s[..i]] + rest;
      SplitCutsLeftmost(s[i + |sep|..], sep);
      if |rest| >= 1 {
        CutsLeftmostCons(s[..i], rest, sep);
      }
  }

  /** The leftmost occurrence of a one-character pattern is the first index holding it. */
  lemma FindChar(s: String, c: char, i: nat)
    requires i < |s| && s[i] == c
    requires forall k | 0 <= k < i :: s[k] != c
    ensures FindFrom(s, [c], 0) == Some(i)
  {
    SliceOne(s, i);
    forall k: nat | k < i
      ensures !OccursAt(s, [c], k)
    {
      SliceOne(s, k);
    }
    FindFirst(s, [c], i);
  }

  /** `FindFrom` from the start finds the leftmost occurrence. */
  lemma FindFirst(s: String, pat: String, i: nat)
    requires FirstOccurrence(s, pat, i)
    ensures FindFrom(s, pat, 0) == Some(i)
  {
  }

  /** A text without the separator character splits into itself alone. */
  lemma SplitWithoutChar(s: String, c: char)
    requires c !in s
    ensures Split(s, [c]) == [s]
  {
    forall k: nat | k <= |s|
      ensures !OccursAt(s, [c], k)
    {
      if k + 1 <= |s| {
        assert s[k..k + 1] == [s[k]];
      }
    }
  }

  lemma CharContains(x: String, c: char)
    requires c in x
    ensures Contains(x, [c])
  {
    var i :| 0 <= i < |x| && x[i] == c;
    assert x[i..i + 1] == [c];
    assert OccursAt(x, [c], i);
  }

  /** Splitting on a single character undoes joining on it, when no piece holds that character. */
  lemma {:induction false} SplitJoinChar(xs: seq<String>, c: char)
    requires |xs| >= 1
    requires forall k | 0 <= k < |xs| :: c !in xs[k]
    ensures Split(Join(xs, [c]), [c]) == xs
    decreases |xs|
  {
    var s := Join(xs, [c]);
    if |xs| == 1 {
      forall k: nat | k <= |s|
        ensures !OccursAt(s, [c], k)
      {
        if k + 1 <= |s| {
          assert s[k..k + 1] == [s[k]];
          assert s[k] != c;
        }
      }
    } else {
      var x := xs[0];
      assert s == x + [c] + Join(xs[1..], [c]);
      assert OccursAt(s, [c], |x|);
      forall k: nat | k < |x|
        ensures !OccursAt(s, [c], k)
      {
        assert s[k..k + 1] == [x[k]];
        assert x[k] != c;
      }
      assert FindFrom(s, [c], 0) == Some(|x|);
      assert s[|x| + 1..] == Join(xs[1..], [c]);
      SplitJoinChar(xs[1..], c);
    }
  }

  /** `[x.strip() for x in xs]`. */
  function StripAll(xs: seq<String>): (r: seq<String>)
    ensures |r| == |xs| && forall k | 0 <= k < |xs| :: r[k] == Strip(xs[k])
    decreases |xs|
  {
    if |xs| == 0 then [] else [Strip(xs[0])] + StripAll(xs[1..])
  }

  function RemoveSpaceAll(xs: seq<String>): (r: seq<String>)
    ensures |r| == |xs| && forall k | 0 <= k < |xs| :: r[k] == RemoveSpace(xs[k])
    decreases |xs|
  {
    if |xs| == 0 then [] else [RemoveSpace(xs[0])] + RemoveSpaceAll(xs[1..])
  }

  /** Removing whitespace from a joined text removes it from each piece and from the separator. */
  lemma {:induction false} RemoveSpaceJoin(xs: seq<String>, sep: String)
    ensures RemoveSpace(Join(xs, sep)) == Join(RemoveSpaceAll(xs), RemoveSpace(sep))
    decreases |xs|
  {
    if |xs| >= 2 {
      RemoveSpaceJoin(xs[1..], sep);
      RemoveSpaceAppend(xs[0] + sep, Join(xs[1..], sep));
      RemoveSpaceAppend(xs[0], sep);
      assert RemoveSpaceAll(xs)[1..] == RemoveSpaceAll(xs[1..]);
    }
  }

  /** Stripped pieces have the non-whitespace characters of the pieces. */
  lemma RemoveSpaceStripAll(xs: seq<String>)
    ensures RemoveSpaceAll(StripAll(xs)) == RemoveSpaceAll(xs)
  {
    forall k | 0 <= k < |xs|
      ensures RemoveSpaceAll(StripAll(xs))[k] == RemoveSpaceAll(xs)[k]
    {
      RemoveSpaceStrip(xs[k]);
    }
  }

  /** A text that is already stripped is its own `strip()`. */
  lemma StripStripped(x: String)
    requires |x| > 0 ==> !IsSpace(x[0]) && !IsSpace(x[|x| - 1])
    ensures Strip(x) == x
  {
    if |x| > 0 {
      assert LeadingSpace(x) == [];
      assert RStrip(x) == x;
    }
  }

  /** Stripping whitespace padding off a stripped text gives the text back. */
  lemma StripPadded(a: String, x: String, b: String)
    requires AllSpace(a) && AllSpace(b)
    requires |x| > 0 ==> !IsSpace(x[0]) && !IsSpace(x[|x| - 1])
    ensures Strip(a + x + b) == x
  {
    var s := a + x + b;
    if |x| == 0 {
      assert AllSpace(s);
      AllSpaceLeading(s);
      assert Strip(s) == RStrip([]);
    } else {
      assert s[..|a|] == a;
      LeadingSpaceUnique(s, |a|);
      assert s[|a|..] == x + b;
      RStripSpaceTail(x, b);
    }
  }

  lemma AllSpaceLeading(s: String)
    requires AllSpace(s)
    ensures LeadingSpace(s) == s
    decreases |s|
  {
    if |s| > 0 {
      AllSpaceLeading(s[1..]);
    }
  }

  /** `n` space characters: Python's `' ' * n`. */
  function Spaces(n: nat): (r: String)
    ensures |r| == n && forall i | 0 <= i < n :: r[i] == ' '
  {
    if n == 0 then [] else [' '] + Spaces(n - 1)
  }

  /** `s.ljust(width)`: `s` right-padded with spaces to at least `width` characters. */
  function LJust(s: String, width: nat): (r: String)
    ensures |r| == if |s| >= width then |s| else width
    ensures s <= r && forall i | |s| <= i < |r| :: r[i] == ' '
  {
    if |s| >= width then s else s + Spaces(width - |s|)
  }

  /** `s.replace(target, repl, 1)`: the leftmost occurrence of `target` (if any) replaced by `repl`. */
  function ReplaceFirst(s: String, target: String, repl: String): (r: String)
    ensures |target| == 0 ==> r == repl + s
    ensures |target| > 0 && !Contains(s, target) ==> r == s
    ensures |target| > 0 && Contains(s, target) ==>
      exists i: nat | i <= |s| :: FirstOccurrence(s, target, i) && r == s[..i] + repl + s[i + |target|..]
  {
    if |target| == 0 then repl + s
    else
      match FindFrom(s, target, 0)
      case None => s
      case Some(i) =>
        assert FirstOccurrence(s, target, i);
        s[..i] + repl + s[i + |target|..]
  }

  /** Replacing text by text with the same non-whitespace characters keeps those of the whole. */
  lemma ReplaceFirstKeepsNonSpace(s: String, target: String, repl: String)
    requires |target| > 0
    requires RemoveSpace(repl) == RemoveSpace(target)
    ensures RemoveSpace(ReplaceFirst(s, target, repl)) == RemoveSpace(s)
  {
    match FindFrom(s, target, 0)
    case None =>
    case Some(i) =>
      assert s == s[..i] + target + s[i + |target|..];
      RemoveSpaceAppend(s[..i] + target, s[i + |target|..]);
      RemoveSpaceAppend(s[..i], target);
      RemoveSpaceAppend(s[..i] + repl, s[i + |target|..]);
      RemoveSpaceAppend(s[..i], repl);
  }

  // ---------------------------------------------------------------------------
  // Sequence facts, stated for any element type

  /** A sequence of two or more elements is its first, its middle and its last. */
  lemma Ends<T>(s: seq<T>)
    requires |s| >= 2
    ensures s == [s[0]] + s[1..|s| - 1] + [s[|s| - 1]]
  {
  }

  lemma ConsTail<T>(s: seq<T>)
    requires |s| > 0
    ensures [s[0]] + s[1..] == s
  {
  }

  lemma TailOfCons<T>(x: T, s: seq<T>)
    ensures ([x] + s)[1..] == s
  {
  }

  lemma AppendTail<T>(a: seq<T>, b: seq<T>)
    requires |a| > 0
    ensures (a + b)[0] == a[0] && (a + b)[1..] == a[1..] + b
  {
  }

  lemma ConsAppend<T>(a: seq<T>, b: seq<T>)
    requires |a| > 0
    ensures a + b == [a[0]] + (a[1..] + b)
  {
  }

  lemma EmptyPrefix<T>(a: seq<T>, b: seq<T>)
    requires |a| == 0
    ensures a + b == b
  {
  }

  lemma AppendAssoc<T>(a: seq<T>, b: seq<T>, c: seq<T>)
    ensures a + b + c == a + (b + c)
  {
  }

  lemma DropTail<T>(s: seq<T>, n: nat)
    requires 1 <= n <= |s|
    ensures s[1..][n - 1..] == s[n..]
  {
  }

  lemma AroundIndex<T>(s: seq<T>, i: nat)
    requires i < |s|
    ensures s == s[..i] + [s[i]] + s[i + 1..]
  {
  }

  lemma PrefixRest<T>(a: seq<T>, b: seq<T>)
    requires a <= b
    ensures b == a + b[|a|..]
  {
  }

  lemma PrefixSnoc<T>(s: seq<T>, i: nat)
    requires i < |s|
    ensures s[..i + 1] == s[..i] + [s[i]]
  {
  }

  lemma SplitAt<T>(s: seq<T>, i: nat)
    requires i <= |s|
    ensures s == s[..i] + s[i..]
  {
  }

  lemma DropPrefix<T>(a: seq<T>, b: seq<T>)
    ensures (a + b)[|a|..] == b
  {
  }

  lemma SliceOne<T>(s: seq<T>, k: nat)
    requires k < |s|
    ensures s[k..k + 1] == [s[k]]
  {
  }

  lemma TakePrefix<T>(a: seq<T>, b: seq<T>)
    ensures (a + b)[..|a|] == a
  {
  }

  lemma TakeInPrefix<T>(a: seq<T>, b: seq<T>, n: nat)
    requires n <= |a|
    ensures (a + b)[..n] == a[..n]
  {
  }

  lemma EmptyAppend<T>(s: seq<T>)
    ensures [] + s == s
  {
  }
}
