/** `reindent` (PrettyJson.py): shifting every line but the first of a formatted block
    so that it lines up with the column where the selection began. */
module Reindent {
  import opened Wrappers
  import opened Text

  /** The truthy values of the `reindent_block` setting. `Other` is any truthy value
      besides `"start"` and `"minimal"`: neither branch assigns the indentation then. */
  datatype Mode = Start | Minimal | Other

  /** Python's `UnboundLocalError` for `indent_space`, raised on the second line. */
  datatype ReindentError = UnboundIndent

  const Newline: String := "\n"

  /** The indentation for later lines. `prefix` is the text from the start of the
      selection's first line up to the selection: `"start"` uses as many spaces as it has
      characters, `"minimal"` its leading whitespace (`^\s*`). */
  function IndentFor(prefix: String, mode: Mode): (r: Option<String>)
    ensures r.Some? <==> !mode.Other?
    ensures r.Some? ==> AllSpace(r.value)
    ensures mode.Start? ==> r == Some(Spaces(|prefix|))
    ensures mode.Minimal? ==> r.Some? && r.value <= prefix &&
                              (|r.value| < |prefix| ==> !IsSpace(prefix[|r.value|]))
  {
    match mode
    case Start => Some(Spaces(|prefix|))
    case Minimal => Some(LeadingSpace(prefix))
    case Other => None
  }

  /** Every line of `ls`, with `ind` in front. */
  function IndentAll(ls: seq<String>, ind: String): (r: seq<String>)
    ensures |r| == |ls| && forall k | 0 <= k < |ls| :: r[k] == ind + ls[k]
  {
    if |ls| == 0 then [] else [ind + ls[0]] + IndentAll(ls[1..], ind)
  }

  /** `reindent(text, selection)`: split at `'\n'`, prefix every line after the first, and
      join again. With a single line the loop never runs and the text comes back as it
      was, whatever the mode. */
  function ReindentText(text: String, prefix: String, mode: Mode): (r: Result<String, ReindentError>)
    ensures r.Failure? <==> mode.Other? && '\n' in text
    ensures '\n' !in text ==> r == Success(text)
  {
    var lines := Split(text, Newline);
    SplitSingleLine(text);
    if |lines| == 1 then Success(text)
    else match IndentFor(prefix, mode)
      case None => Failure(UnboundIndent)
      case Some(ind) => Success(Join([lines[0]] + IndentAll(lines[1..], ind), Newline))
  }

  /** Splitting at `'\n'` gives one piece exactly when the text has no `'\n'`. */
  lemma SplitSingleLine(text: String)
    ensures |Split(text, Newline)| == 1 <==> '\n' !in text
  {
    var lines := Split(text, Newline);
    if '\n' !in text {
      SplitWithoutChar(text, '\n');
    } else if |lines| == 1 {
      assert Join(lines, Newline) == lines[0] == text;
      CharContains(text, '\n');
      assert false;
    }
  }

  lemma LinesFree(lines: seq<String>)
    requires forall k | 0 <= k < |lines| :: !Contains(lines[k], Newline)
    ensures forall k | 0 <= k < |lines| :: '\n' !in lines[k]
  {
    forall k | 0 <= k < |lines|
      ensures '\n' !in lines[k]
    {
      if '\n' in lines[k] {
        CharContains(lines[k], '\n');
      }
    }
  }

  // ---------------------------------------------------------------------------
  // Properties

  /** The lines of the result: the first line as it was, then every later line of the
      input with the indentation in front, and no line added or lost. */
  lemma {:induction false} ReindentLines(text: String, prefix: String, mode: Mode)
    requires ReindentText(text, prefix, mode).Success? && !mode.Other?
    requires '\n' !in prefix
    ensures var lines := Split(text, Newline);
            var ind := IndentFor(prefix, mode).value;
            Split(ReindentText(text, prefix, mode).value, Newline) ==
              if |lines| == 1 then lines else [lines[0]] + IndentAll(lines[1..], ind)
  {
    var lines := Split(text, Newline);
    var ind := IndentFor(prefix, mode).value;
    if |lines| > 1 {
      var out := [lines[0]] + IndentAll(lines[1..], ind);
      LinesFree(lines);
      assert '\n' !in ind by {
        assert IndentFor(prefix, mode) == Some(ind);
        if mode.Minimal? {
          assert ind <= prefix;
        }
      }
      forall k | 0 <= k < |out|
        ensures '\n' !in out[k]
      {
        if k > 0 {
          assert out[k] == ind + lines[k];
        }
      }
      SplitJoinChar(out, '\n');
    }
  }

  /** Removing `|ind|` characters from the front of every line but the first. */
  function Unindent(text: String, n: nat): String {
    var lines := Split(text, Newline);
    Join([lines[0]] + DropAll(lines[1..], n), Newline)
  }

  function DropAll(ls: seq<String>, n: nat): (r: seq<String>)
    ensures |r| == |ls| && forall k | 0 <= k < |ls| :: r[k] == if |ls[k]| < n then [] else ls[k][n..]
  {
    if |ls| == 0 then [] else [if |ls[0]| < n then [] else ls[0][n..]] + DropAll(ls[1..], n)
  }

  /** Re-indenting is undone by cutting the indentation off again. */
  lemma UnindentReindent(text: String, prefix: String, mode: Mode)
    requires ReindentText(text, prefix, mode).Success? && !mode.Other?
    requires '\n' !in prefix
    ensures Unindent(ReindentText(text, prefix, mode).value, |IndentFor(prefix, mode).value|) == text
  {
    var lines := Split(text, Newline);
    var ind := IndentFor(prefix, mode).value;
    var parts := Split(ReindentText(text, prefix, mode).value, Newline);
    ReindentLines(text, prefix, mode);
    assert [parts[0]] + DropAll(parts[1..], |ind|) == lines by {
      if |lines| > 1 {
        TailOfCons(lines[0], IndentAll(lines[1..], ind));
        DropIndent(lines[1..], ind);
        ConsTail(lines);
      } else {
        assert DropAll(lines[1..], |ind|) == [];
        EmptyAppend<String>([]);
      }
    }
  }

  /** Cutting `|ind|` characters off lines that were given the prefix `ind` restores them. */
  lemma DropIndent(ls: seq<String>, ind: String)
    ensures DropAll(IndentAll(ls, ind), |ind|) == ls
  {
    var back := DropAll(IndentAll(ls, ind), |ind|);
    forall k | 0 <= k < |ls|
      ensures back[k] == ls[k]
    {
      DropPrefix(ind, ls[k]);
    }
  }

  /** Re-indenting adds whitespace only: the non-whitespace characters are those of
      the input, in order. */
  lemma ReindentKeepsNonSpace(text: String, prefix: String, mode: Mode)
    requires ReindentText(text, prefix, mode).Success?
    ensures RemoveSpace(ReindentText(text, prefix, mode).value) == RemoveSpace(text)
  {
    var lines := Split(text, Newline);
    if |lines| > 1 {
      var ind := IndentFor(prefix, mode).value;
      var out := [lines[0]] + IndentAll(lines[1..], ind);
      assert RemoveSpaceAll(out) == RemoveSpaceAll(lines) by {
        forall k | 0 <= k < |out|
          ensures RemoveSpace(out[k]) == RemoveSpace(lines[k])
        {
          if k > 0 {
            RemoveSpaceAppend(ind, lines[k]);
            RemoveSpaceAllSpace(ind);
            assert out[k] == ind + lines[k];
          }
        }
      }
      RemoveSpaceJoin(out, Newline);
      RemoveSpaceJoin(lines, Newline);
    }
  }
}
