/** The live `./jq` preview (`JqQueryPrettyJson` in PrettyJson.py): what the preview
    pane shows after each edit of the filter, and the two-entry history kept in the
    module globals `PREVIOUS_CONTENT` and `PREVIOUS_QUERY_LEN`. Running `jq` is outside
    the model: its standard output and standard error are parameters. */
module JqHistory {
  import opened Wrappers
  import opened Text

  /** `PREVIOUS_CONTENT`, the two-element list `[back, forward]`, and `PREVIOUS_QUERY_LEN`.
      Nothing that runs ever shortens the list (see `OnDone`). */
  datatype History = History(back: String, forward: String, queryLen: nat)

  /** The state when the plugin is loaded: `[str(), str()]` and `int()`. */
  const Initial := History("", "", 0)

  /** What one call of `send_query` leaves behind: the new history and the text the
      preview pane is given. */
  datatype Step = Step(history: History, shown: String)

  /** Output that counts as a result: non-empty and not `null`. */
  predicate IsResult(output: String) {
    output != "" && output != "null"
  }

  /** `send_query(query)`, given the selected text `raw` and the raw `stdout` and `stderr`
      of `jq`. An empty history entry is first filled with `raw`. A result is shown and
      shifts the history forward (longer query) or back (shorter query); without a result
      the errors are shown when `jq_errors` is on and there are any, and otherwise the
      history entry for the direction of the edit. */
  function SendQuery(h: History, query: String, raw: String, stdout: String, stderr: String,
                     showErrors: bool): (r: Step)
    ensures IsResult(Strip(stdout)) ==>
      r.shown == Strip(stdout) && r.history.queryLen == |query|
    ensures !IsResult(Strip(stdout)) ==> r.history.queryLen == h.queryLen
    ensures var filledBack := if h.back == "" then raw else h.back;
            var filledForward := if h.forward == "" then raw else h.forward;
            r.shown in {Strip(stdout), Strip(stderr), filledBack, filledForward}
    ensures var filledBack := if h.back == "" then raw else h.back;
            var filledForward := if h.forward == "" then raw else h.forward;
            && (IsResult(Strip(stdout)) && |query| > h.queryLen ==>
                  r.history == History(filledForward, Strip(stdout), |query|))
            && (IsResult(Strip(stdout)) && |query| < h.queryLen ==>
                  r.history == History(Strip(stdout), filledBack, |query|))
            && (IsResult(Strip(stdout)) && |query| == h.queryLen ==>
                  r.history == History(filledBack, filledForward, |query|))
            && (!IsResult(Strip(stdout)) ==> r.history == History(filledBack, filledForward, h.queryLen))
            && (!IsResult(Strip(stdout)) && showErrors && Strip(stderr) != "" ==> r.shown == Strip(stderr))
            && (!IsResult(Strip(stdout)) && !(showErrors && Strip(stderr) != "") ==>
                  r.shown == if h.queryLen <= |query| then filledForward else filledBack)
    ensures raw != "" ==> r.history.back != "" && r.history.forward != ""
  {
    var back := if h.back == "" then raw else h.back;
    var forward := if h.forward == "" then raw else h.forward;
    var output := Strip(stdout);
    var errors := Strip(stderr);
    if IsResult(output) then
      var next :=
        if |query| > h.queryLen then History(forward, output, |query|)
        else if |query| < h.queryLen then History(output, back, |query|)
        else History(back, forward, |query|);
      Step(next, output)
    else if showErrors && errors != "" then
      Step(History(back, forward, h.queryLen), errors)
    else
      Step(History(back, forward, h.queryLen), if h.queryLen <= |query| then forward else back)
  }

  /** Python's `TypeError` for a call with more arguments than the method declares. */
  datatype DoneError = TypeError

  /** `done` as the input panel calls it. The panel hands the entered text to its `on_done`
      callback, but the method is declared `done(self)`, so the call raises `TypeError`
      before the body runs. The result is the history after the call and the error raised:
      the history is left exactly as it was. */
  function OnDone(h: History, text: String): (r: (History, Option<DoneError>))
    ensures r.1 == Some(TypeError)
    ensures r.0 == h
  {
    (h, Some(TypeError))
  }

  /** `done(self, text)` resetting the two entries to `[str(), str()]`, so that the next
      panel starts from its own selected text. */
  function DoneReset(h: History, text: String): (r: History)
    ensures r.back == "" && r.forward == "" && r.queryLen == h.queryLen
  {
    History("", "", h.queryLen)
  }

  // ---------------------------------------------------------------------------
  // Properties

  /** After a filter has been confirmed, the next panel still holds the previous panel's
      entries: its first filter without a result shows one of them, whatever text is
      selected now. */
  lemma StaleEntriesAfterDone(h: History, text: String, query: String, raw: String,
                              stdout: String, stderr: String, showErrors: bool)
    requires h.back != "" && h.forward != ""
    requires !IsResult(Strip(stdout)) && !(showErrors && Strip(stderr) != "")
    ensures SendQuery(OnDone(h, text).0, query, raw, stdout, stderr, showErrors)
            == Step(h, if h.queryLen <= |query| then h.forward else h.back)
  {
  }

  /** A concrete run: the first panel works on `{}` and the filter `.a` gives `1`; Enter
      closes it. The second panel works on `[]`, and its filter `x` gives only an error
      (with `jq_errors` off). As written the preview shows `{}`, the first panel's text;
      with the reset it shows `[]`. */
  lemma StalePreviewCounterexample()
    ensures var first := SendQuery(Initial, ".a", "{}", "1", "", false);
            && SendQuery(OnDone(first.history, ".a").0, "x", "[]", "", "err", false).shown == "{}"
            && SendQuery(DoneReset(first.history, ".a"), "x", "[]", "", "err", false).shown == "[]"
  {
    assert Strip("") == "";
    assert Strip("1") == "1" by {
      assert !IsSpace('1');
    }
    var first := SendQuery(Initial, ".a", "{}", "1", "", false);
    assert first.history == History("{}", "1", 2);
    assert SendQuery(first.history, "x", "[]", "", "err", false).shown == "{}";
    assert SendQuery(History("", "", 2), "x", "[]", "", "err", false).shown == "[]";
  }

  /** With the reset, the first query of the next panel behaves as the very first query
      after loading: the selected text fills both entries. */
  lemma DoneResetStartsAfresh(h: History, text: String, query: String, raw: String,
                              stdout: String, stderr: String, showErrors: bool)
    ensures var r := SendQuery(DoneReset(h, text), query, raw, stdout, stderr, showErrors);
            && (!IsResult(Strip(stdout)) ==> r.history == History(raw, raw, h.queryLen))
            && (!IsResult(Strip(stdout)) && !(showErrors && Strip(stderr) != "") ==> r.shown == raw)
  {
  }

  /** Backing out of a longer filter: after a filter that grew and produced `out1`, a
      shorter filter without a result shows what the preview showed before `out1`. */
  lemma ShorterFailingQueryShowsPrevious(back: String, forward: String, qlen: nat,
                                         q1: String, out1: String, q2: String,
                                         raw: String, stderr1: String, stdout2: String,
                                         stderr2: String, showErrors: bool)
    requires back != "" && forward != ""
    requires |q1| > qlen && IsResult(Strip(out1))
    requires |q2| < |q1| && !IsResult(Strip(stdout2)) && !(showErrors && Strip(stderr2) != "")
    ensures var first := SendQuery(History(back, forward, qlen), q1, raw, out1, stderr1, showErrors);
            && first.shown == Strip(out1)
            && SendQuery(first.history, q2, raw, stdout2, stderr2, showErrors).shown == forward
  {
    var first := SendQuery(History(back, forward, qlen), q1, raw, out1, stderr1, showErrors);
    assert first.history == History(forward, Strip(out1), |q1|);
    assert Strip(out1) != "";
  }

  /** A filter of unchanged length that produces a result shows it and leaves both
      entries alone. */
  lemma SameLengthKeepsEntries(back: String, forward: String, qlen: nat, query: String,
                               raw: String, stdout: String, stderr: String, showErrors: bool)
    requires back != "" && forward != ""
    requires |query| == qlen && IsResult(Strip(stdout))
    ensures SendQuery(History(back, forward, qlen), query, raw, stdout, stderr, showErrors)
            == Step(History(back, forward, qlen), Strip(stdout))
  {
  }
}
