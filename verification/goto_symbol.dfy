/** `PrettyJsonGotoSymbolCommand` (PrettyJson.py): the symbol list shown in the quick
    panel (`generate_items`) and the choice of which occurrence to jump to (`goto`). */
module GotoSymbol {
  import opened Wrappers
  import opened Text
  import opened JsonValue

  /** The two parallel lists the command fills: `items` as displayed, and `goto_items`,
      the literal text searched for in the buffer. */
  datatype Symbols = Symbols(items: seq<String>, gotoItems: seq<String>)

  function Quote(s: String): String {
    "\"" + s + "\""
  }

  predicate EndsWith(s: String, suffix: String) {
    |suffix| <= |s| && s[|s| - |suffix|..] == suffix
  }

  /** A displayed entry and its search text belong together: the search text is a quoted
      name, and the displayed entry is a dotted path ending in that name. */
  ghost predicate Matches(item: String, gotoItem: String) {
    exists name: String | gotoItem == Quote(name) ::
      EndsWith(item, "." + name) || EndsWith(item, "." + name + "\"")
  }

  ghost predicate Paired(sy: Symbols) {
    && |sy.items| == |sy.gotoItems|
    && forall i | 0 <= i < |sy.items| :: Matches(sy.items[i], sy.gotoItems[i])
  }

  function Concat(a: Symbols, b: Symbols): Symbols {
    Symbols(a.items + b.items, a.gotoItems + b.gotoItems)
  }

  lemma ConcatPaired(a: Symbols, b: Symbols)
    requires Paired(a) && Paired(b)
    ensures Paired(Concat(a, b))
  {
    var c := Concat(a, b);
    forall i | 0 <= i < |c.items|
      ensures Matches(c.items[i], c.gotoItems[i])
    {
      if i >= |a.items| {
        assert c.items[i] == b.items[i - |a.items|] && c.gotoItems[i] == b.gotoItems[i - |a.items|];
      } else {
        assert c.items[i] == a.items[i] && c.gotoItems[i] == a.gotoItems[i];
      }
    }
  }

  /** `generate_items(j, root)`. Each object key adds `"root.key"` and `"key"` and is then
      descended into with `root.key` as the new root; each string directly inside a list
      adds `root.string` and `"string"`. Other list elements, and scalars, add nothing. */
  function GenerateItems(j: Json, root: String): (sy: Symbols)
    ensures Paired(sy)
    ensures !j.Object? && !j.Array? ==> sy == Symbols([], [])
    ensures j.Array? ==> ListsStrings(sy, root, DirectStrings(j.items))
    decreases j, Width(j) + 1
  {
    match j
    case Object(_) => FieldSymbols(j, root, 0)
    case Array(items) =>
      assert items[0..] == items;
      ListSymbols(j, root, 0)
    case _ => Symbols([], [])
  }

  /** The entries of one object key, in order: the key's own pair, then the value's
      entries, then those of the later keys. */
  function FieldSymbols(parent: Json, root: String, k: nat): (sy: Symbols)
    requires parent.Object? && k <= |parent.fields|
    ensures Paired(sy)
    ensures k == |parent.fields| ==> sy == Symbols([], [])
    ensures k < |parent.fields| ==>
      var key := parent.fields[k].0;
      && |sy.items| >= 1
      && sy.items[0] == Quote(root + "." + key) && sy.gotoItems[0] == Quote(key)
    decreases parent, |parent.fields| - k
  {
    if k == |parent.fields| then Symbols([], [])
    else
      var (key, value) := parent.fields[k];
      assert parent.fields[k] in parent.fields;
      var path := root + "." + key;
      var here := Symbols([Quote(path)], [Quote(key)]);
      assert Matches(Quote(path), Quote(key)) by {
        assert Quote(path)[|Quote(path)| - |"." + key + "\""|..] == "." + key + "\"";
      }
      var below := Concat(GenerateItems(value, path), FieldSymbols(parent, root, k + 1));
      ConcatPaired(GenerateItems(value, path), FieldSymbols(parent, root, k + 1));
      ConcatPaired(here, below);
      Concat(here, below)
  }

  /** After the key's own pair come the entries of its value, then those of the later
      keys. */
  lemma FieldSymbolsOrder(parent: Json, root: String, k: nat)
    requires parent.Object? && k < |parent.fields|
    ensures var sy := FieldSymbols(parent, root, k);
            var path := root + "." + parent.fields[k].0;
            var below := GenerateItems(parent.fields[k].1, path);
            var later := FieldSymbols(parent, root, k + 1);
            && sy.items == [Quote(path)] + below.items + later.items
            && sy.gotoItems == [Quote(parent.fields[k].0)] + below.gotoItems + later.gotoItems
  {
    var (key, value) := parent.fields[k];
    var path := root + "." + key;
    var here := Symbols([Quote(path)], [Quote(key)]);
    var below := GenerateItems(value, path);
    var later := FieldSymbols(parent, root, k + 1);
    assert FieldSymbols(parent, root, k) == Concat(here, Concat(below, later));
    ConcatThree(here, below, later);
  }

  /** The entries of three parts placed one after the other. */
  lemma ConcatThree(a: Symbols, b: Symbols, c: Symbols)
    ensures Concat(a, Concat(b, c)).items == a.items + b.items + c.items
    ensures Concat(a, Concat(b, c)).gotoItems == a.gotoItems + b.gotoItems + c.gotoItems
  {
  }

  /** The strings that are direct elements of `xs`, in order; nested lists and objects,
      and the other scalars, contribute nothing. */
  function DirectStrings(xs: seq<Json>): seq<String>
    decreases |xs|
  {
    if |xs| == 0 then []
    else (if xs[0].Str? then [xs[0].text] else []) + DirectStrings(xs[1..])
  }

  /** `sy` holds one pair `root.s` / `"s"` for each `s` of `strs`, in order, and nothing
      else. */
  predicate ListsStrings(sy: Symbols, root: String, strs: seq<String>) {
    && |sy.items| == |strs| && |sy.gotoItems| == |strs|
    && forall i | 0 <= i < |strs| :: sy.items[i] == root + "." + strs[i] && sy.gotoItems[i] == Quote(strs[i])
  }

  lemma ListsStringsCons(t: String, rest: Symbols, root: String, strs: seq<String>)
    requires ListsStrings(rest, root, strs)
    ensures ListsStrings(Concat(Symbols([root + "." + t], [Quote(t)]), rest), root, [t] + strs)
  {
  }

  lemma DirectStringsAt(xs: seq<Json>, k: nat)
    requires k < |xs|
    ensures DirectStrings(xs[k..]) == (if xs[k].Str? then [xs[k].text] else []) + DirectStrings(xs[k + 1..])
  {
    assert xs[k..][0] == xs[k] && xs[k..][1..] == xs[k + 1..];
  }

  /** The entries of a list from element `k` on: one pair `root.s` / `"s"` for each
      string `s` directly among those elements, in order, and nothing else. */
  function ListSymbols(parent: Json, root: String, k: nat): (sy: Symbols)
    requires parent.Array? && k <= |parent.items|
    ensures Paired(sy)
    ensures ListsStrings(sy, root, DirectStrings(parent.items[k..]))
    decreases |parent.items| - k
  {
    if k == |parent.items| then
      assert parent.items[k..] == [];
      Symbols([], [])
    else
      var rest := ListSymbols(parent, root, k + 1);
      DirectStringsAt(parent.items, k);
      match parent.items[k]
      case Str(t) =>
        var item := root + "." + t;
        assert Matches(item, Quote(t)) by {
          assert item[|item| - |"." + t|..] == "." + t;
        }
        ConcatPaired(Symbols([item], [Quote(t)]), rest);
        ListsStringsCons(t, rest, root, DirectStrings(parent.items[k + 1..]));
        Concat(Symbols([item], [Quote(t)]), rest)
      case _ =>
        assert DirectStrings(parent.items[k..]) == DirectStrings(parent.items[k + 1..]);
        rest
  }

  // ---------------------------------------------------------------------------
  // `goto(pos)`

  /** How many entries of `s` equal `x`. */
  function Count<T(==)>(s: seq<T>, x: T): nat
    decreases |s|
  {
    if |s| == 0 then 0 else (if s[0] == x then 1 else 0) + Count(s[1..], x)
  }

  lemma {:induction false} CountAppend<T>(a: seq<T>, b: seq<T>, x: T)
    ensures Count(a + b, x) == Count(a, x) + Count(b, x)
    decreases |a|
  {
    if |a| == 0 {
      EmptyPrefix(a, b);
    } else {
      AppendTail(a, b);
      CountAppend(a[1..], b, x);
    }
  }

  /** A prefix one entry longer counts that entry too. */
  lemma CountPrefixStep<T>(g: seq<T>, i: nat, x: T)
    requires i < |g|
    ensures Count(g[..i + 1], x) == Count(g[..i], x) + (if g[i] == x then 1 else 0)
  {
    assert g[..i + 1] == g[..i] + [g[i]];
    CountAppend(g[..i], [g[i]], x);
  }

  /** The prefixes of `g` past its first entry are that entry and the prefixes of `g[1..]`. */
  lemma CountPrefixTail<T>(g: seq<T>, i: nat, x: T)
    requires i < |g|
    ensures Count(g[..i + 1], x) == (if g[0] == x then 1 else 0) + Count(g[1..][..i], x)
  {
    assert g[..i + 1] == [g[0]] + g[1..][..i];
    TailOfCons(g[0], g[1..][..i]);
  }

  /** Index of the `k`-th (from 0) occurrence of `x` in `g`. */
  function NthOccurrence<T(==)>(g: seq<T>, x: T, k: nat): (r: Option<nat>)
    ensures r.Some? <==> k < Count(g, x)
    ensures r.Some? ==> r.value < |g| && g[r.value] == x && Count(g[..r.value], x) == k
    decreases |g|
  {
    if |g| == 0 then None
    else if g[0] == x then
      if k == 0 then Some(0)
      else match NthOccurrence(g[1..], x, k - 1)
        case None => None
        case Some(i) =>
          CountPrefixTail(g, i, x);
          Some(i + 1)
    else match NthOccurrence(g[1..], x, k)
      case None => None
      case Some(i) =>
        CountPrefixTail(g, i, x);
        Some(i + 1)
  }

  /** Python's `g[pos]`: negative positions count from the end, and anything outside
      `-len(g) <= pos < len(g)` raises `IndexError` (here `None`). */
  function PyIndex(g: seq<String>, pos: int): (r: Option<nat>)
    ensures r.Some? <==> -|g| <= pos < |g|
    ensures r.Some? ==> r.value < |g| && (pos >= 0 ==> r.value == pos) && (pos < 0 ==> r.value == |g| + pos)
  {
    if 0 <= pos < |g| then Some(pos)
    else if -|g| <= pos < 0 then Some(|g| + pos)
    else None
  }

  /** `goto(pos)` as written, up to the buffer search: the search text and `found`, the
      number of equal entries before position `pos`, counted by the `for ... break` loop.
      `None` is the `IndexError` of `goto_items[pos]`. */
  method GotoTarget(g: seq<String>, pos: int) returns (r: Option<(String, nat)>)
    ensures r.Some? <==> -|g| <= pos < |g|
    ensures r.Some? ==> r.value.0 == g[PyIndex(g, pos).value]
    ensures r.Some? ==> r.value.1 == Count(g[..if pos >= 0 then pos else 0], r.value.0)
  {
    var idx := PyIndex(g, pos);
    if idx.None? {
      return None;
    }
    var target := g[idx.value];
    var found := 0;
    var index := 0;
    while index < |g|
      invariant 0 <= index <= |g|
      invariant index <= if pos >= 0 then pos else 0
      invariant found == Count(g[..index], target)
    {
      if index >= pos {
        break;
      }
      CountPrefixStep(g, index, target);
      if g[index] == target {
        found := found + 1;
      }
      index := index + 1;
    }
    assert index == if pos >= 0 then pos else 0;
    return Some((target, found));
  }

  /** A selection made in the panel leads back to itself: for a position the panel
      offers, the `found`-th occurrence of the search text among the entries is that
      very position. */
  lemma {:induction false} RankFindsPosition<T>(g: seq<T>, pos: nat)
    requires pos < |g|
    ensures NthOccurrence(g, g[pos], Count(g[..pos], g[pos])) == Some(pos)
    decreases pos
  {
    var x := g[pos];
    if pos > 0 {
      var t := g[1..];
      assert t[pos - 1] == x;
      RankFindsPosition(t, pos - 1);
      CountPrefixTail(g, pos - 1, x);
    }
  }

  /** The number of occurrences of `x` in `g` bounds its ranks. */
  lemma RankBelowCount<T>(g: seq<T>, pos: nat)
    requires pos < |g|
    ensures Count(g[..pos], g[pos]) < Count(g, g[pos])
  {
    assert g == g[..pos] + g[pos..];
    CountAppend(g[..pos], g[pos..], g[pos]);
    assert g[pos..] == [g[pos]] + g[pos + 1..];
  }

  /** What the panel's cancel (`pos = -1`) does as written: with entries present it
      searches for the last entry and jumps to its first occurrence. */
  lemma CancelJumpsCounterexample()
    ensures var g: seq<String> := [Quote("a"), Quote("b")];
            && PyIndex(g, -1) == Some(1)
            && Count(g[..0], g[1]) == 0
            && NthOccurrence(g, g[1], 0) == Some(1)
  {
    var g: seq<String> := [Quote("a"), Quote("b")];
    assert g[0] != g[1] by {
      assert g[0][1] == 'a' && g[1][1] == 'b';
    }
    assert NthOccurrence(g[1..], g[1], 0) == Some(0);
  }

  /** `goto(pos)` with the cancel of the panel ignored: a negative position selects
      nothing; otherwise as `GotoTarget`. */
  method GotoChosen(g: seq<String>, pos: int) returns (r: Option<(String, nat)>)
    ensures r.Some? <==> 0 <= pos < |g|
    ensures r.Some? ==> r.value.0 == g[pos] && NthOccurrence(g, g[pos], r.value.1) == Some(pos)
  {
    if pos < 0 {
      return None;
    }
    r := GotoTarget(g, pos);
    if r.Some? {
      RankFindsPosition(g, pos);
    }
  }
}
