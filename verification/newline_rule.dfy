/** The brace- and bracket-newline rules of `json_dumps`: two separate substitutions,
    `^((\s*)".*?":)\s*([{])` and `^((\s*)".*?":)\s*([\[])`, each replaced by
    `\1\n\2\3` in MULTILINE mode. Each moves its opener (`{` or `[`, the `Opener`
    parameter) that opens a key's value onto its own line, indented like the key.

    The regular expression is replaced by an explicit matcher. At a line start it
    runs a small automaton over the rest of the text:
    - `Lead` is inside the leading `(\s*)`, which may cross line breaks;
    - `Key` is inside the lazily extended `.*?`, which never crosses a `\n`;
    - `Quote` has just read a `"` that may close the key;
    - `Colon(crossed)` has read `":` and is inside the following `\s*`; `crossed`
      records a `\n` in that whitespace. When the whitespace ends in something other
      than the opener, the lazy `.*?` backtracks and resumes scanning the key, which
      is impossible if it would have to swallow that `\n`. */
module NewlineRule {
  import opened Wrappers
  import opened Text

  /** Which opener the rule moves: `{` for `brace_newline`, `[` for `bracket_newline`. */
  datatype Opener = Brace | Bracket {
    function Char(): char {
      if Brace? then '{' else '['
    }
  }

  datatype Phase = Lead | Key | Quote | Colon(crossed: bool)

  datatype Move = Accept | Reject | Go(next: Phase)

  function Step(p: Phase, c: char, o: Opener): Move {
    match p
    case Lead =>
      if c == '"' then Go(Key) else if IsSpace(c) then Go(Lead) else Reject
    case Key =>
      if c == '\n' then Reject else if c == '"' then Go(Quote) else Go(Key)
    case Quote =>
      if c == ':' then Go(Colon(false))
      else if c == '\n' then Reject
      else if c == '"' then Go(Quote)
      else Go(Key)
    case Colon(crossed) =>
      if c == o.Char() then Accept
      else if IsSpace(c) then Go(Colon(crossed || c == '\n'))
      else if crossed then Reject
      else if c == '"' then Go(Quote)
      else Go(Key)
  }

  function Shift(r: Option<nat>, n: nat): Option<nat> {
    if r.Some? then Some(r.value + n) else None
  }

  /** Index of the opener that ends a match of the pattern run from phase `p` over `s`. */
  function Find(s: String, p: Phase, o: Opener): (r: Option<nat>)
    ensures r.Some? ==> r.value < |s| && s[r.value] == o.Char()
    decreases |s|
  {
    if |s| == 0 then None
    else
      match Step(p, s[0], o)
      case Accept => Some(0)
      case Reject => None
      case Go(q) => Shift(Find(s[1..], q, o), 1)
  }

  /** Where the automaton stands after reading all of `s`. */
  datatype Outcome = Accepted(at: nat) | Rejected | Running(phase: Phase)

  function ShiftOutcome(r: Outcome, n: nat): Outcome {
    if r.Accepted? then Accepted(r.at + n) else r
  }

  function Run(s: String, p: Phase, o: Opener): Outcome
    decreases |s|
  {
    if |s| == 0 then Running(p)
    else
      match Step(p, s[0], o)
      case Accept => Accepted(0)
      case Reject => Rejected
      case Go(q) => ShiftOutcome(Run(s[1..], q, o), 1)
  }

  /** The text `\1\n\2\3` that replaces a match ending at index `w`:
      group 1 is the text up to the closing `":`, group 2 the leading whitespace. */
  function Replacement(s: String, w: nat, o: Opener): String
    requires w <= |s|
  {
    RStrip(s[..w]) + ['\n'] + LeadingSpace(s) + [o.Char()]
  }

  /** `pattern.sub(r'\1\n\2\3', s)` on the text `s`, where `atLineStart` says whether
      `^` holds at the start of `s`. A successful match resumes scanning right
      after the opener, where `^` cannot hold. */
  function Rewrite(s: String, atLineStart: bool, o: Opener): String
    decreases |s|
  {
    if |s| == 0 then []
    else if atLineStart && Find(s, Lead, o).Some? then
      var w := Find(s, Lead, o).value;
      Replacement(s, w, o) + Rewrite(s[w + 1..], false, o)
    else
      [s[0]] + Rewrite(s[1..], s[0] == '\n', o)
  }

  /** The rule applied to a whole serialized text. */
  function Apply(text: String, o: Opener): String {
    Rewrite(text, true, o)
  }

  // ---------------------------------------------------------------------------
  // Running the automaton over concatenations

  lemma {:induction false} FindAppend(a: String, b: String, p: Phase, o: Opener)
    ensures Find(a + b, p, o) == FindAfter(Run(a, p, o), b, |a|, o)
    decreases |a|
  {
    if |a| == 0 {
      EmptyPrefix(a, b);
    } else {
      ConsAppend(a, b);
      FindCons(a[0], a[1..] + b, p, o);
      match Step(p, a[0], o)
      case Accept =>
      case Reject =>
      case Go(q) =>
        FindAppend(a[1..], b, q, o);
        FindAfterShift(Run(a[1..], q, o), b, |a| - 1, o);
    }
  }

  /** Where a run over `a + b` stops, given the outcome `r` of the run over `a`
      (of length `n`). */
  function FindAfter(r: Outcome, b: String, n: nat, o: Opener): Option<nat> {
    match r
    case Accepted(i) => Some(i)
    case Rejected => None
    case Running(q) => Shift(Find(b, q, o), n)
  }

  lemma FindAfterShift(r: Outcome, b: String, n: nat, o: Opener)
    ensures FindAfter(ShiftOutcome(r, 1), b, n + 1, o) == Shift(FindAfter(r, b, n, o), 1)
  {
  }

  lemma {:induction false} RunAppend(a: String, b: String, p: Phase, o: Opener)
    ensures Run(a + b, p, o) ==
      match Run(a, p, o)
      case Running(q) => ShiftOutcome(Run(b, q, o), |a|)
      case other => other
    decreases |a|
  {
    if |a| == 0 {
      EmptyPrefix(a, b);
    } else {
      AppendTail(a, b);
      match Step(p, a[0], o)
      case Accept =>
      case Reject =>
      case Go(q) =>
        RunAppend(a[1..], b, q, o);
    }
  }

  /** Leading whitespace keeps the matcher in `Lead`. */
  lemma {:induction false} LeadSpaces(w: String, o: Opener)
    requires AllSpace(w)
    ensures Run(w, Lead, o) == Running(Lead)
    decreases |w|
  {
    if |w| > 0 {
      LeadSpaces(w[1..], o);
    }
  }

  /** Whitespace after `":` keeps the matcher in `Colon`, noting any line break. */
  lemma {:induction false} ColonSpaces(w: String, crossed: bool, o: Opener)
    requires AllSpace(w)
    ensures Run(w, Colon(crossed), o) == Running(Colon(crossed || '\n' in w))
    decreases |w|
  {
    if |w| > 0 {
      ColonSpaces(w[1..], crossed || w[0] == '\n', o);
      ConsTail(w);
      assert ('\n' in w) == (w[0] == '\n' || '\n' in w[1..]);
    }
  }

  /** A key with no quote and no line break keeps the matcher in `Key`. */
  lemma {:induction false} KeyChars(k: String, o: Opener)
    requires '"' !in k && '\n' !in k
    ensures Run(k, Key, o) == Running(Key)
    decreases |k|
  {
    if |k| > 0 {
      assert k[0] in k;
      assert forall c | c in k[1..] :: c in k;
      KeyChars(k[1..], o);
    }
  }

  /** Up to the opener it accepts, a successful run stands in `Colon`. */
  lemma {:induction false} FindStopsInColon(s: String, p: Phase, o: Opener)
    requires Find(s, p, o).Some?
    ensures Run(s[..Find(s, p, o).value], p, o).Running?
    ensures Run(s[..Find(s, p, o).value], p, o).phase.Colon?
    decreases |s|
  {
    var w := Find(s, p, o).value;
    match Step(p, s[0], o)
    case Accept =>
      assert s[..w] == [];
    case Go(q) =>
      FindStopsInColon(s[1..], q, o);
      assert s[..w] == [s[0]] + s[1..][..w - 1];
  }

  /** Dropping trailing whitespace from a prefix that ends in `Colon` still ends in `Colon`:
      the `\s*` after the colon is the only place whitespace keeps the matcher there. */
  lemma {:induction false} RStripStaysInColon(x: String, p: Phase, o: Opener)
    requires Run(x, p, o).Running? && Run(x, p, o).phase.Colon?
    ensures Run(RStrip(x), p, o).Running? && Run(RStrip(x), p, o).phase.Colon?
    decreases |x|
  {
    if |x| > 0 && IsSpace(x[|x| - 1]) {
      var y := x[..|x| - 1];
      assert x == y + [x[|x| - 1]];
      RunAppend(y, [x[|x| - 1]], p, o);
      RStripStaysInColon(y, p, o);
    }
  }

  /** A run from `Lead` that reaches `Colon` read whitespace, then the key's opening quote. */
  lemma LeadThenQuote(x: String, o: Opener)
    requires Run(x, Lead, o).Running? && Run(x, Lead, o).phase.Colon?
    ensures |LeadingSpace(x)| < |x| && x[|LeadingSpace(x)|] == '"'
  {
    var g := LeadingSpace(x);
    assert x == g + x[|g|..];
    LeadSpaces(g, o);
    RunAppend(g, x[|g|..], Lead, o);
  }

  /** Group 1 (`P`) of a match at the start of `s` starts with group 2 (`G`, the leading
      whitespace) and then the key's opening quote, and leaves the matcher inside the
      whitespace after `":`. */
  lemma GroupsAtStart(s: String, o: Opener)
    requires Find(s, Lead, o).Some?
    ensures var w := Find(s, Lead, o).value;
            var P := RStrip(s[..w]);
            var G := LeadingSpace(s);
            && P <= s[..w] && |G| < |P| && P[..|G|] == G && P[|G|] == '"'
            && Run(P, Lead, o).Running? && Run(P, Lead, o).phase.Colon?
  {
    var w := Find(s, Lead, o).value;
    var P := RStrip(s[..w]);
    FindStopsInColon(s, Lead, o);
    RStripStaysInColon(s[..w], Lead, o);
    LeadThenQuote(P, o);
    var g := LeadingSpace(P);
    assert s[..|g|] == g;
    LeadingSpaceUnique(s, |g|);
  }

  /** What a match at the start of `s` is made of: group 1 (`P`) is a prefix of the text
      before the opener, starts with group 2 (`G`, the leading whitespace) and then the
      key's opening quote, ends in the key's closing `":`, and is followed by nothing
      but whitespace up to the opener. */
  lemma MatchParts(s: String, o: Opener)
    requires Find(s, Lead, o).Some?
    ensures var w := Find(s, Lead, o).value;
            var P := RStrip(s[..w]);
            var G := LeadingSpace(s);
            && P <= s[..w] && |G| < |P| && P[..|G|] == G && P[|G|] == '"'
            && Run(P, Lead, o).Running? && Run(P, Lead, o).phase.Colon?
            && |P| >= 2 && P[|P| - 2..] == ['"', ':'] && AllSpace(s[|P|..w])
  {
    var w := Find(s, Lead, o).value;
    var P := RStrip(s[..w]);
    GroupsAtStart(s, o);
    EndsInQuoteColon(P, o);
    assert s[|P|..w] == s[..w][|P|..];
  }

  /** A run that is still going after its last character was going before it, and
      stepped on that character. */
  lemma RunLastStep(y: String, c: char, p: Phase, o: Opener)
    requires Run(y + [c], p, o).Running?
    ensures Run(y, p, o).Running?
    ensures Step(Run(y, p, o).phase, c, o) == Go(Run(y + [c], p, o).phase)
  {
    RunAppend(y, [c], p, o);
  }

  /** A run from `Lead` that stands in `Colon` after a non-space character has just read
      the closing `":` of the key. */
  lemma EndsInQuoteColon(x: String, o: Opener)
    requires Run(x, Lead, o).Running? && Run(x, Lead, o).phase.Colon?
    requires |x| > 0 && !IsSpace(x[|x| - 1])
    ensures |x| >= 2 && x[|x| - 2..] == ['"', ':']
  {
    var y := x[..|x| - 1];
    assert x == y + [x[|x| - 1]];
    RunLastStep(y, x[|x| - 1], Lead, o);
    assert Run(y, Lead, o) == Running(Quote) && x[|x| - 1] == ':';
    var z := y[..|y| - 1];
    assert y == z + [y[|y| - 1]];
    RunLastStep(z, y[|y| - 1], Lead, o);
  }

  /** Once the matcher stands in the whitespace after `":`, more whitespace and the opener complete the match. */
  lemma AcceptAfterSpace(P: String, gap: String, x: String, cr: bool, o: Opener)
    requires Run(P, Lead, o) == Running(Colon(cr)) && AllSpace(gap)
    ensures Find(P + gap + [o.Char()] + x, Lead, o) == Some(|P| + |gap|)
  {
    var tail := [o.Char()] + x;
    assert Find(tail, Colon(cr || '\n' in gap), o) == Some(0);
    ColonSpaces(gap, cr, o);
    FindAppend(gap, tail, Colon(cr), o);
    assert Find(gap + tail, Colon(cr), o) == Some(|gap|);
    assert P + gap + [o.Char()] + x == P + (gap + tail);
    FindAppend(P, gap + tail, Lead, o);
  }

  /** The replacement text is itself a match of the pattern, with the same groups. */
  lemma ReplacementMatches(s: String, x: String, o: Opener)
    requires Find(s, Lead, o).Some?
    ensures Rematches(Replacement(s, Find(s, Lead, o).value, o), x, o)
  {
    var P, G, cr := MatchGroups(s, o);
    ReplacementRematches(P, G, Replacement(s, Find(s, Lead, o).value, o), x, cr, o);
  }

  /** Run over `m` followed by any text, the pattern matches again up to the last
      character of `m`, and the groups of that match rebuild `m`. */
  ghost predicate Rematches(m: String, x: String, o: Opener) {
    && |m| > 0
    && Find(m + x, Lead, o) == Some(|m| - 1)
    && Replacement(m + x, |m| - 1, o) == m
  }

  /** `m` is the replacement built from group 1 `P` and group 2 `G` of a match that
      left the matcher in the whitespace after `":` (`cr` says whether it crossed a `\n`). */
  ghost predicate ReplacementOf(m: String, P: String, G: String, cr: bool, o: Opener) {
    && Run(P, Lead, o) == Running(Colon(cr))
    && AllSpace(G) && |G| < |P| && P[..|G|] == G && P[|G|] == '"'
    && !IsSpace(P[|P| - 1])
    && m == P + ['\n'] + G + [o.Char()]
  }

  /** The groups of a match at the start of `s`. */
  lemma MatchGroups(s: String, o: Opener) returns (P: String, G: String, cr: bool)
    requires Find(s, Lead, o).Some?
    ensures ReplacementOf(Replacement(s, Find(s, Lead, o).value, o), P, G, cr, o)
  {
    var w := Find(s, Lead, o).value;
    P := RStrip(s[..w]);
    G := LeadingSpace(s);
    GroupsAtStart(s, o);
    cr := Run(P, Lead, o).phase.crossed;
  }

  lemma ReplacementRematches(P: String, G: String, m: String, x: String, cr: bool, o: Opener)
    requires ReplacementOf(m, P, G, cr, o)
    ensures Rematches(m, x, o)
  {
    assert Find(m + x, Lead, o) == Some(|m| - 1) by {
      var gap := ['\n'] + G;
      SpaceGap(G);
      AppendAssoc(P, ['\n'], G);
      AcceptAfterSpace(P, gap, x, cr, o);
    }
    ReplacementOfReplacement(P, G, x, o);
  }

  lemma SpaceGap(G: String)
    requires AllSpace(G)
    ensures AllSpace(['\n'] + G)
  {
    var gap := ['\n'] + G;
    forall i | 0 <= i < |gap|
      ensures IsSpace(gap[i])
    {
      if i > 0 {
        assert gap[i] == G[i - 1];
      }
    }
  }

  /** Re-reading the groups of a replacement text gives the same groups. */
  lemma ReplacementOfReplacement(P: String, G: String, x: String, o: Opener)
    requires AllSpace(G) && |G| < |P| && P[..|G|] == G && P[|G|] == '"'
    requires !IsSpace(P[|P| - 1])
    ensures var m := P + ['\n'] + G + [o.Char()];
            Replacement(m + x, |m| - 1, o) == m
  {
    var gap := ['\n'] + G;
    var m := P + gap + [o.Char()];
    var after := [o.Char()] + x;
    SpaceGap(G);
    assert (m + x)[..|m| - 1] == P + gap by {
      AppendAssoc(P + gap, [o.Char()], x);
      TakePrefix(P + gap, after);
    }
    RStripSpaceTail(P, gap);
    assert (m + x)[..|G|] == G by {
      AppendAssoc(P + gap, [o.Char()], x);
      AppendAssoc(P, gap, after);
      TakeInPrefix(P, gap + after, |G|);
    }
    LeadingSpaceUnique(m + x, |G|);
    AppendAssoc(P, ['\n'], G);
  }

  /** Whether `^` may hold where the matcher stands in phase `p`: at a line start the
      earlier text can only have left it in `Lead` or in whitespace that crossed a `\n`. */
  predicate LineStartPhase(atLineStart: bool, p: Phase) {
    atLineStart ==> p == Lead || p == Colon(true)
  }

  /** A run that fails over the input also fails over the rewritten text. */
  lemma {:induction false} FailureSurvivesRewrite(s: String, b: bool, p: Phase, o: Opener)
    requires Find(s, p, o).None?
    requires LineStartPhase(b, p)
    ensures Find(Rewrite(s, b, o), p, o).None?
    decreases |s|
  {
    if |s| == 0 {
    } else if b && Find(s, Lead, o).Some? {
      assert p == Colon(true);
      MatchedLineFailsInColon(s, o);
    } else {
      var c := s[0];
      var y := Rewrite(s[1..], c == '\n', o);
      RewriteCopy(s, b, o);
      FindCons(c, y, p, o);
      FindCons(c, s[1..], p, o);
      ConsTail(s);
      match Step(p, c, o)
      case Reject =>
      case Go(q) =>
        FailureSurvivesRewrite(s[1..], c == '\n', q, o);
    }
  }

  /** The automaton reads one character, then the rest. */
  lemma FindCons(c: char, y: String, p: Phase, o: Opener)
    ensures Find([c] + y, p, o) ==
      match Step(p, c, o)
      case Accept => Some(0)
      case Reject => None
      case Go(q) => Shift(Find(y, q, o), 1)
  {
    TailOfCons(c, y);
  }

  /** The rewritten form of a matched line begins with its indentation and a `"`, which
      the whitespace after a colon cannot absorb. */
  lemma MatchedLineFailsInColon(s: String, o: Opener)
    requires Find(s, Lead, o).Some?
    ensures Find(Rewrite(s, true, o), Colon(true), o).None?
  {
    var G := LeadingSpace(s);
    var out := Rewrite(s, true, o);
    MatchedLineStart(s, o);
    SplitAt(out, |G|);
    QuoteAfterSpaceFails(G, out[|G|..], o);
  }

  /** A matched line's rewrite starts with the line's indentation and the key's quote. */
  lemma MatchedLineStart(s: String, o: Opener)
    requires Find(s, Lead, o).Some?
    ensures var G := LeadingSpace(s);
            var out := Rewrite(s, true, o);
            |G| < |out| && out[..|G|] == G && out[|G|] == '"'
  {
    var w := Find(s, Lead, o).value;
    GroupsAtStart(s, o);
    var R := Rewrite(s[w + 1..], false, o);
    assert Rewrite(s, true, o) == Replacement(s, w, o) + R;
    ReplacementStart(RStrip(s[..w]), LeadingSpace(s), o.Char(), R);
  }

  /** A replacement whose group 1 starts with group 2 and a quote starts with them too. */
  lemma ReplacementStart(P: String, G: String, c: char, R: String)
    requires |G| < |P| && P[..|G|] == G && P[|G|] == '"'
    ensures var out := P + ['\n'] + G + [c] + R;
            |G| < |out| && out[..|G|] == G && out[|G|] == '"'
  {
    TakeInPrefix(P + ['\n'] + G + [c], R, |G|);
    TakeInPrefix(P + ['\n'] + G, [c], |G|);
    TakeInPrefix(P + ['\n'], G, |G|);
    TakeInPrefix(P, ['\n'], |G|);
  }

  /** After a line break in the colon's whitespace, a `"` ends the attempt. */
  lemma QuoteAfterSpaceFails(G: String, X: String, o: Opener)
    requires AllSpace(G) && |X| > 0 && X[0] == '"'
    ensures Find(G + X, Colon(true), o).None?
  {
    FindAppend(G, X, Colon(true), o);
    ColonSpaces(G, true, o);
  }

  /** Applying the rule to its own output changes nothing: the `\s*` after the colon
      absorbs the inserted line break and indentation, and every other line start
      fails exactly as it did before. */
  lemma {:induction false} RewriteIdempotent(s: String, b: bool, o: Opener)
    ensures Rewrite(Rewrite(s, b, o), b, o) == Rewrite(s, b, o)
    decreases |s|
  {
    if |s| == 0 {
    } else if b && Find(s, Lead, o).Some? {
      var w := Find(s, Lead, o).value;
      RewriteIdempotent(s[w + 1..], false, o);
      IdempotentAtMatch(s, o);
    } else {
      RewriteIdempotent(s[1..], s[0] == '\n', o);
      IdempotentAtCopy(s, b, o);
    }
  }

  /** The step of `RewriteIdempotent` at a match: the replacement matches again with the
      same groups, and the rest is idempotent by induction. */
  lemma IdempotentAtMatch(s: String, o: Opener)
    requires Find(s, Lead, o).Some?
    requires var x := s[Find(s, Lead, o).value + 1..];
             Rewrite(Rewrite(x, false, o), false, o) == Rewrite(x, false, o)
    ensures Rewrite(Rewrite(s, true, o), true, o) == Rewrite(s, true, o)
  {
    var w := Find(s, Lead, o).value;
    var m := Replacement(s, w, o);
    var x := Rewrite(s[w + 1..], false, o);
    RewriteAtMatch(s, w, m, s[w + 1..], o);
    ReplacementRewrites(s, x, o);
  }

  /** A replacement followed by any text rewrites to itself followed by the rewritten text. */
  lemma ReplacementRewrites(s: String, x: String, o: Opener)
    requires Find(s, Lead, o).Some?
    ensures var m := Replacement(s, Find(s, Lead, o).value, o);
            Rewrite(m + x, true, o) == m + Rewrite(x, false, o)
  {
    var m := Replacement(s, Find(s, Lead, o).value, o);
    ReplacementMatches(s, x, o);
    var w := |m| - 1;
    assert (m + x)[w + 1..] == x;
    RewriteAtMatch(m + x, w, m, x, o);
  }

  /** The step of `RewriteIdempotent` where one character is copied: a line start that
      did not match before does not match after. */
  lemma IdempotentAtCopy(s: String, b: bool, o: Opener)
    requires |s| > 0 && !(b && Find(s, Lead, o).Some?)
    requires var y := s[1..];
             Rewrite(Rewrite(y, s[0] == '\n', o), s[0] == '\n', o) == Rewrite(y, s[0] == '\n', o)
    ensures Rewrite(Rewrite(s, b, o), b, o) == Rewrite(s, b, o)
  {
    var c := s[0];
    var y := Rewrite(s[1..], c == '\n', o);
    RewriteCopy(s, b, o);
    if b {
      FailureSurvivesRewrite(s, false, Lead, o);
    }
    RewriteCopy([c] + y, b, o);
    TailOfCons(c, y);
  }

  /** The rule is idempotent on whole texts. */
  lemma ApplyIdempotent(text: String, o: Opener)
    ensures Apply(Apply(text, o), o) == Apply(text, o)
  {
    RewriteIdempotent(text, true, o);
  }

  /** A replacement has the non-whitespace characters of the text it replaces. */
  lemma ReplacementKeepsNonSpace(s: String, w: nat, o: Opener)
    requires w < |s| && s[w] == o.Char()
    ensures RemoveSpace(Replacement(s, w, o)) == RemoveSpace(s[..w + 1])
  {
    var P := RStrip(s[..w]);
    var G := LeadingSpace(s);
    var opener := [o.Char()];
    assert RemoveSpace(Replacement(s, w, o)) == RemoveSpace(P) + RemoveSpace(opener) by {
      RemoveSpaceAppend(P + ['\n'] + G, opener);
      RemoveSpaceAppend(P + ['\n'], G);
      RemoveSpaceAppend(P, ['\n']);
      RemoveSpaceAllSpace(G);
      RemoveSpaceAllSpace(['\n']);
    }
    assert RemoveSpace(s[..w + 1]) == RemoveSpace(s[..w]) + RemoveSpace(opener) by {
      PrefixSnoc(s, w);
      RemoveSpaceAppend(s[..w], [s[w]]);
    }
    RemoveSpaceRStrip(s[..w]);
  }

  /** The rule only moves whitespace: the non-whitespace characters are kept, in order. */
  lemma {:induction false} RewriteKeepsNonSpace(s: String, b: bool, o: Opener)
    ensures RemoveSpace(Rewrite(s, b, o)) == RemoveSpace(s)
    decreases |s|
  {
    if |s| == 0 {
    } else if b && Find(s, Lead, o).Some? {
      var w := Find(s, Lead, o).value;
      var rest := Rewrite(s[w + 1..], false, o);
      RewriteKeepsNonSpace(s[w + 1..], false, o);
      ReplacementKeepsNonSpace(s, w, o);
      RemoveSpaceAppend(Replacement(s, w, o), rest);
      SplitAt(s, w + 1);
      RemoveSpaceAppend(s[..w + 1], s[w + 1..]);
    } else {
      RewriteKeepsNonSpace(s[1..], s[0] == '\n', o);
      ConsTail(s);
      RemoveSpaceAppend([s[0]], s[1..]);
      RemoveSpaceAppend([s[0]], Rewrite(s[1..], s[0] == '\n', o));
    }
  }

  lemma ApplyKeepsNonSpace(text: String, o: Opener)
    ensures RemoveSpace(Apply(text, o)) == RemoveSpace(text)
  {
    RewriteKeepsNonSpace(text, true, o);
  }

  /** The run over `<ind>"k":` ends in the whitespace after the colon. */
  lemma KeyLineRun(ind: String, k: String, o: Opener)
    requires AllSpace(ind)
    requires '"' !in k && '\n' !in k
    ensures Run(ind + ['"'] + k + ['"', ':'], Lead, o) == Running(Colon(false))
  {
    var quoted := ['"'] + k + ['"', ':'];
    assert ind + ['"'] + k + ['"', ':'] == ind + quoted;
    LeadSpaces(ind, o);
    RunAppend(ind, quoted, Lead, o);
    assert Run(quoted, Lead, o) == ShiftOutcome(Run(k + ['"', ':'], Key, o), 1) by {
      assert quoted[0] == '"' && quoted[1..] == k + ['"', ':'];
    }
    KeyChars(k, o);
    RunAppend(k, ['"', ':'], Key, o);
    assert Run(['"', ':'], Key, o) == Running(Colon(false)) by {
      assert ['"', ':'][1..] == [':'];
      assert Run([':'], Quote, o) == Running(Colon(false)) by {
        assert [':'][1..] == [];
      }
    }
  }

  /** A key line `<ind>"k":<ws>{` (a key without quotes or line breaks) becomes
      `<ind>"k":`, a line break, and `<ind>{`; the rest of the text is processed on. */
  lemma KeyLine(ind: String, k: String, ws: String, rest: String, o: Opener)
    requires AllSpace(ind) && AllSpace(ws)
    requires '"' !in k && '\n' !in k
    ensures var head := ind + ['"'] + k + ['"', ':'];
            Rewrite(head + ws + [o.Char()] + rest, true, o)
            == head + ['\n'] + ind + [o.Char()] + Rewrite(rest, false, o)
  {
    var head := ind + ['"'] + k + ['"', ':'];
    KeyLineFind(ind, k, ws, rest, o);
    KeyLineReplacement(ind, k, ws, rest, o);
    DropPrefix(head + ws + [o.Char()], rest);
    RewriteAtMatch(head + ws + [o.Char()] + rest, |head| + |ws|, head + ['\n'] + ind + [o.Char()], rest, o);
  }

  /** The match on a key line ends at its opener. */
  lemma KeyLineFind(ind: String, k: String, ws: String, rest: String, o: Opener)
    requires AllSpace(ind) && AllSpace(ws)
    requires '"' !in k && '\n' !in k
    ensures var head := ind + ['"'] + k + ['"', ':'];
            Find(head + ws + [o.Char()] + rest, Lead, o) == Some(|head| + |ws|)
  {
    KeyLineRun(ind, k, o);
    AcceptAfterSpace(ind + ['"'] + k + ['"', ':'], ws, rest, false, o);
  }

  /** At a line start where the pattern matches up to the opener at `w`, `Rewrite` emits
      the replacement and resumes after the opener. */
  lemma RewriteAtMatch(s: String, w: nat, rep: String, rest: String, o: Opener)
    requires Find(s, Lead, o) == Some(w) && w < |s|
    requires Replacement(s, w, o) == rep && s[w + 1..] == rest
    ensures Rewrite(s, true, o) == rep + Rewrite(rest, false, o)
  {
  }

  /** The replacement for a key line: the key part, a line break, the indentation and
      the opener. */
  lemma KeyLineReplacement(ind: String, k: String, ws: String, rest: String, o: Opener)
    requires AllSpace(ind) && AllSpace(ws)
    ensures var head := ind + ['"'] + k + ['"', ':'];
            var t := head + ws + [o.Char()] + rest;
            Replacement(t, |head| + |ws|, o) == head + ['\n'] + ind + [o.Char()]
  {
    var head := ind + ['"'] + k + ['"', ':'];
    var t := head + ws + [o.Char()] + rest;
    var w := |head| + |ws|;
    assert t[..w] == head + ws by {
      TakeInPrefix(head + ws + [o.Char()], rest, w);
      TakePrefix(head + ws, [o.Char()]);
    }
    RStripSpaceTail(head, ws);
    assert t[..|ind|] == ind by {
      TakeInPrefix(head + ws + [o.Char()], rest, |ind|);
      TakeInPrefix(head + ws, [o.Char()], |ind|);
      TakeInPrefix(head, ws, |ind|);
      TakeInPrefix(ind + ['"'] + k, ['"', ':'], |ind|);
      TakeInPrefix(ind + ['"'], k, |ind|);
      TakePrefix(ind, ['"']);
    }
    assert t[|ind|] == '"';
    LeadingSpaceUnique(t, |ind|);
  }

  /** Inside a line, away from its start, text is copied as it is. */
  lemma {:induction false} CopyInsideLine(line: String, t: String, o: Opener)
    requires '\n' !in line
    ensures Rewrite(line + t, false, o) == line + Rewrite(t, false, o)
    decreases |line|
  {
    if |line| > 0 {
      assert line[0] in line;
      assert forall c | c in line[1..] :: c in line;
      assert (line + t)[0] == line[0] && line[0] != '\n';
      AppendTail(line, t);
      CopyInsideLine(line[1..], t, o);
      ConsTail(line);
    } else {
      assert line + t == t;
    }
  }

  /** A line whose first non-blank character is not `"` (a value, a closing bracket,
      an array element) is kept exactly as it is, with its line break. */
  lemma PlainLineKept(line: String, rest: String, o: Opener)
    requires '\n' !in line
    requires |LeadingSpace(line)| < |line| && line[|LeadingSpace(line)|] != '"'
    ensures Rewrite(line + ['\n'] + rest, true, o) == line + ['\n'] + Rewrite(rest, true, o)
  {
    var t := ['\n'] + rest;
    PlainLineFirst(line, t, o);
    assert forall c | c in line[1..] :: c in line;
    CopyThroughLineEnd(line[1..], rest, o);
    ConsAppend(line, ['\n'] + Rewrite(rest, true, o));
    assert line + t == line + ['\n'] + rest;
  }

  /** The first character of a plain line is copied. */
  lemma PlainLineFirst(line: String, t: String, o: Opener)
    requires |LeadingSpace(line)| < |line| && line[|LeadingSpace(line)|] != '"'
    ensures Rewrite(line + t, true, o) == [line[0]] + Rewrite(line[1..] + t, line[0] == '\n', o)
  {
    PlainLineNoMatch(line, t, o);
    RewriteCopy(line + t, true, o);
    AppendTail(line, t);
  }

  /** Outside a match, `Rewrite` copies one character. */
  lemma RewriteCopy(s: String, atLineStart: bool, o: Opener)
    requires |s| > 0 && (atLineStart ==> Find(s, Lead, o).None?)
    ensures Rewrite(s, atLineStart, o) == [s[0]] + Rewrite(s[1..], s[0] == '\n', o)
  {
  }

  /** The automaton rejects a line whose first non-blank character is not `"`. */
  lemma PlainLineNoMatch(line: String, tail: String, o: Opener)
    requires |LeadingSpace(line)| < |line| && line[|LeadingSpace(line)|] != '"'
    ensures Find(line + tail, Lead, o).None?
  {
    var g := LeadingSpace(line);
    var after := line[|g|..] + tail;
    assert line + tail == g + after;
    LeadSpaces(g, o);
    FindAppend(g, after, Lead, o);
    assert Step(Lead, after[0], o) == Reject;
  }

  /** The rest of a line is copied unchanged, and its line break starts a new line. */
  lemma CopyThroughLineEnd(line: String, rest: String, o: Opener)
    requires '\n' !in line
    ensures Rewrite(line + (['\n'] + rest), false, o) == line + (['\n'] + Rewrite(rest, true, o))
  {
    var t := ['\n'] + rest;
    CopyInsideLine(line, t, o);
    RewriteCopy(t, false, o);
    assert t[1..] == rest;
  }
}
