/** Regions of the editor buffer: which text a command works on
    (`get_selection_from_region`) and which character an error message points at
    (the offset logic of `highlight_error`). */
module Selection {
  import opened Wrappers
  import opened Text

  /** An editor region: `a` is where the selection started, `b` where the caret is;
      `a > b` for a selection made backwards. */
  datatype Region = Region(a: int, b: int) {
    function Begin(): int {
      if a <= b then a else b
    }

    /** `len(region)`: the number of characters it covers. */
    function Size(): nat {
      if a <= b then b - a else a - b
    }

    predicate Empty() {
      a == b
    }

    predicate Reversed() {
      a > b
    }
  }

  /** The result of `get_selection_from_region`: `(None, None)` or `(region, entire_file)`. */
  datatype Choice = Skip | Take(region: Region, entireFile: bool)

  /** `get_selection_from_region(region, regions_length, view)`. An empty region is skipped
      when `regionsLength > 1`; otherwise, with `use_entire_file_if_no_selection` on, it
      stands for the whole buffer `[0, viewSize)`. */
  function FromRegion(region: Region, regionsLength: int, viewSize: nat, useEntireFile: bool): (r: Choice)
    ensures r.Skip? <==> region.Empty() && regionsLength > 1
    ensures r.Take? ==> (r.entireFile <==> region.Empty() && useEntireFile)
    ensures r.Take? && r.entireFile ==> r.region == Region(0, viewSize)
    ensures r.Take? && !r.entireFile ==> r.region == region
  {
    if region.Empty() && regionsLength > 1 then Skip
    else if region.Empty() && useEntireFile then Take(Region(0, viewSize), true)
    else Take(region, false)
  }

  /** What every command passes, as written: `regions_length=len(region)`, the size of the
      region itself rather than the number of selections. No region is ever skipped. */
  function FromRegionAsCalled(region: Region, viewSize: nat, useEntireFile: bool): (r: Choice)
    ensures r.Take?
  {
    FromRegion(region, region.Size(), viewSize, useEntireFile)
  }

  /** The call with the number of selections, as `get_content` does for the query tool:
      an empty caret among several selections is skipped. */
  function FromSelections(regions: seq<Region>, k: nat, viewSize: nat, useEntireFile: bool): (r: Choice)
    requires k < |regions|
    ensures r.Skip? <==> regions[k].Empty() && |regions| > 1
  {
    FromRegion(regions[k], |regions|, viewSize, useEntireFile)
  }

  /** Two empty carets: as called, each stands for the whole buffer, so a command
      rewrites the whole buffer once per caret; counting the selections skips both. */
  lemma TwoCaretsCounterexample()
    ensures var carets := [Region(3, 3), Region(7, 7)];
            && FromRegionAsCalled(carets[0], 10, true) == Take(Region(0, 10), true)
            && FromRegionAsCalled(carets[1], 10, true) == Take(Region(0, 10), true)
            && FromSelections(carets, 0, 10, true) == Skip
            && FromSelections(carets, 1, 10, true) == Skip
  {
  }

  // ---------------------------------------------------------------------------
  // Parser messages: `re.compile(r'char (\d+)').search(message)`

  predicate IsDigit(c: char) {
    '0' <= c <= '9'
  }

  /** Length of the run of digits at the start of `s`. */
  function DigitRun(s: String): (n: nat)
    ensures n <= |s| && forall i | 0 <= i < n :: IsDigit(s[i])
    ensures n < |s| ==> !IsDigit(s[n])
    decreases |s|
  {
    if |s| == 0 || !IsDigit(s[0]) then 0 else 1 + DigitRun(s[1..])
  }

  /** `int(ds)` for a string of decimal digits. */
  function ParseDecimal(ds: String): nat
    requires forall i | 0 <= i < |ds| :: IsDigit(ds[i])
    decreases |ds|
  {
    if |ds| == 0 then 0
    else ParseDecimal(ds[..|ds| - 1]) * 10 + DigitValue(ds[|ds| - 1])
  }

  function DigitValue(c: char): nat
    requires IsDigit(c)
  {
    (c as int) - ('0' as int)
  }

  /** `str(n)`, the way the parser writes offsets into its messages. */
  function Decimal(n: nat): (ds: String)
    ensures |ds| > 0 && forall i | 0 <= i < |ds| :: IsDigit(ds[i])
    decreases n
  {
    var d := [(('0' as int) + n % 10) as char];
    if n < 10 then d else Decimal(n / 10) + d
  }

  /** Parsing the decimal rendering of a number gives the number back. */
  lemma {:induction false} ParseDecimalRoundTrip(n: nat)
    ensures ParseDecimal(Decimal(n)) == n
    decreases n
  {
    var ds := Decimal(n);
    if n >= 10 {
      ParseDecimalRoundTrip(n / 10);
      assert ds[..|ds| - 1] == Decimal(n / 10);
    }
  }

  /** `char ` followed by a digit starts at index `i`. */
  predicate OffsetAt(msg: String, i: nat) {
    i + 6 <= |msg| && msg[i..i + 5] == "char " && IsDigit(msg[i + 5])
  }

  /** No offset starts before index `j`. */
  predicate NoOffsetBefore(msg: String, j: nat) {
    forall k: nat | k < j :: !OffsetAt(msg, k)
  }

  /** The number after the leftmost `char ` that is followed by digits, scanning from `i`. */
  function OffsetFrom(msg: String, i: nat): (r: Option<nat>)
    requires i <= |msg|
    ensures r.None? <==> forall k: nat | i <= k <= |msg| :: !OffsetAt(msg, k)
    decreases |msg| - i
  {
    if i + 6 > |msg| then None
    else if OffsetAt(msg, i) then
      var digits := msg[i + 5..][..DigitRun(msg[i + 5..])];
      Some(ParseDecimal(digits))
    else OffsetFrom(msg, i + 1)
  }

  function CharOffset(msg: String): Option<nat> {
    OffsetFrom(msg, 0)
  }

  lemma {:induction false} OffsetFromFirst(msg: String, i: nat, j: nat)
    requires i <= j && OffsetAt(msg, j)
    requires NoOffsetBefore(msg, j)
    ensures OffsetFrom(msg, i) == Some(ParseDecimal(msg[j + 5..][..DigitRun(msg[j + 5..])]))
    decreases j - i
  {
    if i < j {
      OffsetFromFirst(msg, i + 1, j);
    }
  }

  /** The offset read back from a message `prefix + "char " + str(n) + rest` is `n`, when
      nothing earlier looks like an offset and `rest` does not continue the number. */
  lemma CharOffsetOfMessage(prefix: String, n: nat, rest: String)
    requires NoOffsetBefore(prefix + "char " + Decimal(n) + rest, |prefix|)
    requires |rest| > 0 ==> !IsDigit(rest[0])
    ensures CharOffset(prefix + "char " + Decimal(n) + rest) == Some(n)
  {
    var msg := prefix + "char " + Decimal(n) + rest;
    var j := |prefix|;
    var ds := Decimal(n);
    assert msg[j..j + 5] == "char ";
    assert msg[j + 5..] == ds + rest;
    assert (ds + rest)[..|ds|] == ds;
    assert DigitRun(ds + rest) == |ds| by {
      DigitRunPrefix(ds, rest);
    }
    OffsetFromFirst(msg, 0, j);
    ParseDecimalRoundTrip(n);
  }

  lemma {:induction false} DigitRunPrefix(ds: String, rest: String)
    requires forall i | 0 <= i < |ds| :: IsDigit(ds[i])
    requires |rest| > 0 ==> !IsDigit(rest[0])
    ensures DigitRun(ds + rest) == |ds|
    decreases |ds|
  {
    if |ds| == 0 {
      assert ds + rest == rest;
    } else {
      AppendTail(ds, rest);
      DigitRunPrefix(ds[1..], rest);
    }
  }

  /** `highlight_error`'s adjustment of the region it marks. With an offset `n` in the
      message, a forward region `(a, b)` becomes `(a+n, a+n+1)` and a backward one becomes
      `(b+n+1, b+n)`; without one the region is kept. */
  function HighlightRegion(region: Region, msg: String): (r: Region)
    ensures CharOffset(msg).None? ==> r == region
    ensures CharOffset(msg).Some? ==>
      && r.Size() == 1
      && r.Begin() == region.Begin() + CharOffset(msg).value
      && r.Reversed() == region.Reversed()
  {
    match CharOffset(msg)
    case None => region
    case Some(n) =>
      if region.a > region.b then
        var b := region.b + n;
        Region(b + 1, b)
      else
        var a := region.a + n;
        Region(a, a + 1)
  }
}
