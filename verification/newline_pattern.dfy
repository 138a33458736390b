/** The newline rules' pattern `^((\s*)".*?":)\s*([{])` (and its `[` twin) read
    declaratively, and the proof that the matcher of `NewlineRule` finds exactly the
    match the regular expression engine reports: the shortest one. */
module NewlinePattern {
  import opened Wrappers
  import opened Text
  import opened NewlineRule

  /** `t` is `g + "\"" + k + "\":" + ws + [opener]` with `g == t[..i]` and `ws` all
      whitespace, and the key `k == t[i + 1..j]` free of line breaks (`.` does not match
      `\n`). The key may hold quotes and colons. */
  predicate IsMatch(t: String, i: nat, j: nat, o: Opener) {
    && i + 1 <= j && j + 2 < |t|
    && AllSpace(t[..i]) && t[i] == '"'
    && '\n' !in t[i + 1..j]
    && t[j] == '"' && t[j + 1] == ':'
    && AllSpace(t[j + 2..|t| - 1]) && t[|t| - 1] == o.Char()
  }

  /** `t` is one whole match of the pattern, for some split into its parts. */
  ghost predicate IsMatchText(t: String, o: Opener) {
    exists i: nat, j: nat :: IsMatch(t, i, j, o)
  }

  /** Some match of the pattern at the start of `s` ends with the opener at index `w`. */
  ghost predicate MatchEndsAt(s: String, w: nat, o: Opener) {
    w < |s| && IsMatchText(s[..w + 1], o)
  }

  // ---------------------------------------------------------------------------
  // What is left to read from each phase of the matcher

  /** `\s*` and the opener. */
  predicate SpaceShape(t: String, o: Opener) {
    |t| > 0 && t[|t| - 1] == o.Char() && AllSpace(t[..|t| - 1])
  }

  /** The rest of the key (`k[..j]`), `":`, whitespace and the opener. */
  predicate KeyEnd(t: String, j: nat, o: Opener) {
    j + 2 < |t| && '\n' !in t[..j] && t[j] == '"' && t[j + 1] == ':' && SpaceShape(t[j + 2..], o)
  }

  ghost predicate KeyShape(t: String, o: Opener) {
    exists j: nat :: KeyEnd(t, j, o)
  }

  /** Leading whitespace `t[..i]`, the opening quote, and a key shape. */
  ghost predicate LeadEnd(t: String, i: nat, o: Opener) {
    i < |t| && AllSpace(t[..i]) && t[i] == '"' && KeyShape(t[i + 1..], o)
  }

  ghost predicate LeadShape(t: String, o: Opener) {
    exists i: nat :: LeadEnd(t, i, o)
  }

  /** The texts that take the matcher from phase `p` to acceptance at their last
      character, by some way of reading them. */
  ghost predicate Shape(p: Phase, t: String, o: Opener) {
    match p
    case Lead => LeadShape(t, o)
    case Key => KeyShape(t, o)
    case Quote => (|t| > 0 && t[0] == ':' && SpaceShape(t[1..], o)) || KeyShape(t, o)
    case Colon(cr) => SpaceShape(t, o) || (!cr && KeyShape(t, o))
  }

  lemma OpenerChar(o: Opener)
    ensures !IsSpace(o.Char()) && o.Char() != '"' && o.Char() != ':' && o.Char() != '\n'
  {
  }

  // ---------------------------------------------------------------------------
  // One character more in front

  lemma SpaceCons(x: char, t: String, o: Opener)
    requires IsSpace(x) && SpaceShape(t, o)
    ensures SpaceShape([x] + t, o)
  {
    var u := [x] + t;
    assert u[..|u| - 1] == [x] + t[..|t| - 1];
  }

  /** A key character in front of a key shape. */
  lemma KeyCons(x: char, t: String, o: Opener)
    requires x != '\n' && KeyShape(t, o)
    ensures KeyShape([x] + t, o)
  {
    var j: nat :| KeyEnd(t, j, o);
    var u := [x] + t;
    assert u[..j + 1] == [x] + t[..j];
    assert u[j + 3..] == t[j + 2..];
    assert KeyEnd(u, j + 1, o);
  }

  /** A closing quote in front of `:`, whitespace and the opener. */
  lemma QuoteToKey(t: String, o: Opener)
    requires |t| > 0 && t[0] == ':' && SpaceShape(t[1..], o)
    ensures KeyShape(['"'] + t, o)
  {
    var u := ['"'] + t;
    assert u[2..] == t[1..];
    assert u[..0] == [];
    assert KeyEnd(u, 0, o);
  }

  /** A quote in front of what `Quote` accepts is a key shape. */
  lemma QuoteCons(t: String, o: Opener)
    requires Shape(Quote, t, o)
    ensures KeyShape(['"'] + t, o)
  {
    if |t| > 0 && t[0] == ':' && SpaceShape(t[1..], o) {
      QuoteToKey(t, o);
    } else {
      KeyCons('"', t, o);
    }
  }

  lemma LeadCons(x: char, t: String, o: Opener)
    requires IsSpace(x) && LeadShape(t, o)
    ensures LeadShape([x] + t, o)
  {
    var i: nat :| LeadEnd(t, i, o);
    var u := [x] + t;
    assert u[..i + 1] == [x] + t[..i];
    assert u[i + 2..] == t[i + 1..];
    assert LeadEnd(u, i + 1, o);
  }

  lemma QuoteLead(t: String, o: Opener)
    requires KeyShape(t, o)
    ensures LeadShape(['"'] + t, o)
  {
    var u := ['"'] + t;
    assert u[1..] == t;
    assert u[..0] == [];
    assert LeadEnd(u, 0, o);
  }

  /** Soundness of one step: whatever the matcher reads on its way to acceptance keeps
      the text in the shape of the phase it started from. */
  lemma ShapeStep(p: Phase, x: char, t: String, o: Opener)
    requires Step(p, x, o).Go? && Shape(Step(p, x, o).next, t, o)
    ensures Shape(p, [x] + t, o)
  {
    OpenerChar(o);
    match p
    case Lead =>
      if x == '"' {
        QuoteLead(t, o);
      } else {
        LeadCons(x, t, o);
      }
    case Key =>
      if x == '"' {
        QuoteCons(t, o);
      } else {
        KeyCons(x, t, o);
      }
    case Quote =>
      if x == ':' {
        if SpaceShape(t, o) {
          assert ([x] + t)[1..] == t;
        } else {
          KeyCons(x, t, o);
        }
      } else if x == '"' {
        QuoteCons(t, o);
      } else {
        KeyCons(x, t, o);
      }
    case Colon(cr) =>
      if IsSpace(x) {
        if SpaceShape(t, o) {
          SpaceCons(x, t, o);
        } else {
          KeyCons(x, t, o);
        }
      } else if x == '"' {
        QuoteCons(t, o);
      } else {
        KeyCons(x, t, o);
      }
  }

  lemma AcceptShape(p: Phase, x: char, o: Opener)
    requires Step(p, x, o).Accept?
    ensures Shape(p, [x], o)
  {
    assert [x][..0] == [];
  }

  // ---------------------------------------------------------------------------
  // One character less in front

  lemma KeyUncons(t: String, o: Opener)
    requires KeyShape(t, o)
    ensures t[0] != '\n'
    ensures t[0] == '"' ==> Shape(Quote, t[1..], o)
    ensures t[0] != '"' ==> KeyShape(t[1..], o)
  {
    var j: nat :| KeyEnd(t, j, o);
    var u := t[1..];
    if j == 0 {
      assert u[1..] == t[2..];
    } else {
      assert t[0] in t[..j];
      assert u[..j - 1] == t[1..j];
      assert forall c | c in t[1..j] :: c in t[..j];
      assert u[j + 1..] == t[j + 2..];
      assert KeyEnd(u, j - 1, o);
      if t[0] == '"' {
        assert Shape(Quote, u, o);
      }
    }
  }

  lemma SpaceUncons(t: String, o: Opener)
    requires SpaceShape(t, o) && |t| > 1
    ensures IsSpace(t[0]) && SpaceShape(t[1..], o)
  {
    assert t[0] == t[..|t| - 1][0];
    assert t[1..][..|t| - 2] == t[1..|t| - 1];
  }

  lemma LeadUncons(t: String, o: Opener)
    requires LeadShape(t, o)
    ensures IsSpace(t[0]) ==> LeadShape(t[1..], o)
    ensures !IsSpace(t[0]) ==> t[0] == '"' && KeyShape(t[1..], o)
  {
    var i: nat :| LeadEnd(t, i, o);
    if i > 0 {
      assert t[0] == t[..i][0];
      var u := t[1..];
      assert u[..i - 1] == t[1..i];
      assert u[i..] == t[i + 1..];
      assert LeadEnd(u, i - 1, o);
    }
  }

  /** Completeness of one step: a text in the shape of a phase is never rejected, and
      is either accepted at its first character or leaves the rest in the shape of the
      next phase. */
  lemma ShapeUnstep(p: Phase, t: String, o: Opener)
    requires Shape(p, t, o)
    ensures |t| > 0 && !Step(p, t[0], o).Reject?
    ensures Step(p, t[0], o).Go? ==> Shape(Step(p, t[0], o).next, t[1..], o)
  {
    OpenerChar(o);
    match p
    case Lead =>
      var i: nat :| LeadEnd(t, i, o);
      LeadUncons(t, o);
    case Key =>
      var j: nat :| KeyEnd(t, j, o);
      KeyUncons(t, o);
    case Quote =>
      if |t| > 0 && t[0] == ':' && SpaceShape(t[1..], o) {
      } else {
        var j: nat :| KeyEnd(t, j, o);
        KeyUncons(t, o);
      }
    case Colon(cr) =>
      if SpaceShape(t, o) {
        if |t| > 1 {
          SpaceUncons(t, o);
        }
      } else {
        var j: nat :| KeyEnd(t, j, o);
        KeyUncons(t, o);
      }
  }

  // ---------------------------------------------------------------------------
  // The matcher and the shapes

  /** What the matcher finds has the shape of the phase it started from. */
  lemma {:induction false} FindSound(s: String, p: Phase, o: Opener)
    requires Find(s, p, o).Some?
    ensures Shape(p, s[..Find(s, p, o).value + 1], o)
    decreases |s|
  {
    var v := Find(s, p, o).value;
    match Step(p, s[0], o)
    case Accept =>
      assert s[..1] == [s[0]];
      AcceptShape(p, s[0], o);
    case Go(q) =>
      FindSound(s[1..], q, o);
      assert s[..v + 1] == [s[0]] + s[1..][..v];
      ShapeStep(p, s[0], s[1..][..v], o);
  }

  /** A prefix of `s` in the shape of phase `p` makes the matcher stop no later than its
      last character. */
  lemma {:induction false} FindComplete(s: String, t: String, p: Phase, o: Opener)
    requires Shape(p, t, o) && t <= s
    ensures Find(s, p, o).Some? && Find(s, p, o).value < |t|
    decreases |t|
  {
    ShapeUnstep(p, t, o);
    assert s[0] == t[0];
    match Step(p, t[0], o)
    case Accept =>
    case Go(q) =>
      assert t[1..] <= s[1..];
      FindComplete(s[1..], t[1..], q, o);
  }

  /** The layered shape and the flat decomposition describe the same texts. */
  lemma LeadShapeIsMatch(t: String, o: Opener)
    ensures LeadShape(t, o) <==> IsMatchText(t, o)
  {
    if LeadShape(t, o) {
      var i: nat :| LeadEnd(t, i, o);
      var u := t[i + 1..];
      var j: nat :| KeyEnd(u, j, o);
      LeadToMatch(t, i, j, o);
    }
    if IsMatchText(t, o) {
      var i: nat, j: nat :| IsMatch(t, i, j, o);
      MatchToLead(t, i, j, o);
    }
  }

  lemma LeadToMatch(t: String, i: nat, j: nat, o: Opener)
    requires i < |t| && AllSpace(t[..i]) && t[i] == '"' && KeyEnd(t[i + 1..], j, o)
    ensures IsMatch(t, i, i + 1 + j, o)
  {
    var u := t[i + 1..];
    assert u[..j] == t[i + 1..i + 1 + j];
    var v := u[j + 2..];
    assert v == t[i + j + 3..];
    assert v[..|v| - 1] == t[i + j + 3..|t| - 1];
  }

  lemma MatchToLead(t: String, i: nat, j: nat, o: Opener)
    requires IsMatch(t, i, j, o)
    ensures LeadEnd(t, i, o)
  {
    var u := t[i + 1..];
    assert u[..j - i - 1] == t[i + 1..j];
    var v := u[j - i + 1..];
    assert v == t[j + 2..];
    assert v[..|v| - 1] == t[j + 2..|t| - 1];
    assert KeyEnd(u, j - i - 1, o);
  }

  // ---------------------------------------------------------------------------
  // The characterisation

  /** A match ending at `v` stops the matcher at `v` or earlier. */
  lemma MatchStopsFind(s: String, v: nat, o: Opener)
    requires MatchEndsAt(s, v, o)
    ensures Find(s, Lead, o).Some? && Find(s, Lead, o).value <= v
  {
    LeadShapeIsMatch(s[..v + 1], o);
    FindComplete(s, s[..v + 1], Lead, o);
  }

  /** Where the matcher stops, a match ends. */
  lemma FindEndsMatch(s: String, o: Opener)
    requires Find(s, Lead, o).Some?
    ensures MatchEndsAt(s, Find(s, Lead, o).value, o)
  {
    FindSound(s, Lead, o);
    LeadShapeIsMatch(s[..Find(s, Lead, o).value + 1], o);
  }

  /** The matcher stops at `w` exactly when a match of the pattern ends at `w` and no
      match ends earlier: the lazy `.*?` makes the engine report the shortest match. */
  lemma FindIsShortestMatch(s: String, w: nat, o: Opener)
    ensures Find(s, Lead, o) == Some(w) <==>
            MatchEndsAt(s, w, o) && forall v: nat | v < w :: !MatchEndsAt(s, v, o)
  {
    if Find(s, Lead, o) == Some(w) {
      FindEndsMatch(s, o);
      forall v: nat | v < w
        ensures !MatchEndsAt(s, v, o)
      {
        if MatchEndsAt(s, v, o) {
          MatchStopsFind(s, v, o);
        }
      }
    }
    if MatchEndsAt(s, w, o) && forall v: nat | v < w :: !MatchEndsAt(s, v, o) {
      MatchStopsFind(s, w, o);
      FindEndsMatch(s, o);
    }
  }

  /** The matcher finds nothing exactly when the pattern does not match at all. */
  lemma FindNoneIsNoMatch(s: String, o: Opener)
    ensures Find(s, Lead, o).None? <==> forall w: nat :: !MatchEndsAt(s, w, o)
  {
    if Find(s, Lead, o).Some? {
      var w := Find(s, Lead, o).value;
      FindIsShortestMatch(s, w, o);
    } else {
      forall w: nat
        ensures !MatchEndsAt(s, w, o)
      {
        if MatchEndsAt(s, w, o) {
          MatchStopsFind(s, w, o);
        }
      }
    }
  }
}
