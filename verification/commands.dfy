/** What the text commands of PrettyJson.py do with one selection once the editor and
    the JSON library are abstracted away: the serializer arguments each command asks
    for, and the text that replaces the selection. */
module Commands {
  import opened Wrappers
  import opened Text
  import Layout
  import Reindent

  /** `PrettyJsonBaseCommand.force_sorting`: the class attribute, which no command ever
      assigns. `PrettyJsonAndSortCommand` sets an attribute of the same name on its
      instance instead. */
  const ClassForceSorting := false

  /** The serializer arguments of `PrettyJsonCommand`. */
  function PrettyArgs(st: Layout.Settings): (a: Layout.DumpArgs)
    ensures a.sortKeys == st.sortKeys && a.indent == Some(st.indent)
  {
    Layout.ArgsFor(st, ClassForceSorting, false)
  }

  /** The serializer arguments of `PrettyJsonAndSortCommand`, as written: `json_dumps`
      reads the class attribute, so the command asks for exactly what the plain pretty
      command asks for, and sorts only when `sort_keys` is already on. */
  function SortArgsAsWritten(st: Layout.Settings): (a: Layout.DumpArgs)
    ensures a == PrettyArgs(st)
    ensures a.sortKeys == st.sortKeys
  {
    Layout.ArgsFor(st, ClassForceSorting, false)
  }

  /** The serializer arguments of `PrettyJsonAndSortCommand` with the flag it sets
      actually read: keys are sorted whatever `sort_keys` says, and nothing else differs
      from the plain pretty command. */
  function SortArgs(st: Layout.Settings): (a: Layout.DumpArgs)
    ensures a.sortKeys
    ensures a == PrettyArgs(st).(sortKeys := true)
  {
    Layout.ArgsFor(st, true, false)
  }

  /** With the default settings the sort command does not sort. */
  lemma SortCommandDoesNotSort()
    ensures !SortArgsAsWritten(Layout.Defaults).sortKeys
    ensures SortArgs(Layout.Defaults).sortKeys
  {
  }

  datatype PrettyError =
    | LayoutFailed(layout: Layout.LayoutError)
    | ReindentFailed(reindent: Reindent.ReindentError)

  /** The text that replaces one selection in `PrettyJsonCommand.run`, given the
      serializer's output: the re-layout of `json_dumps`, then `reindent` when the
      selection is not the whole file and `reindent_block` is truthy (`mode` is `None`
      when it is falsy). `prefix` is the text between the start of the selection's first
      line and the selection. */
  function PrettyReplacement(serialized: String, st: Layout.Settings, entireFile: bool,
                             mode: Option<Reindent.Mode>, prefix: String): (r: Result<String, PrettyError>)
    ensures Layout.PostProcess(serialized, st).Failure? ==> r.Failure? && r.error.LayoutFailed?
    ensures r.Failure? && r.error.ReindentFailed? <==>
      && !entireFile && mode == Some(Reindent.Other)
      && Layout.PostProcess(serialized, st).Success? && '\n' in Layout.PostProcess(serialized, st).value
    ensures (entireFile || mode.None?) ==>
      r == match Layout.PostProcess(serialized, st)
           case Success(t) => Success(t)
           case Failure(e) => Failure(LayoutFailed(e))
  {
    match Layout.PostProcess(serialized, st)
    case Failure(e) => Failure(LayoutFailed(e))
    case Success(laidOut) =>
      if entireFile || mode.None? then Success(laidOut)
      else match Reindent.ReindentText(laidOut, prefix, mode.value)
        case Failure(e) => Failure(ReindentFailed(e))
        case Success(t) => Success(t)
  }

  /** The replacement text differs from the serializer's output in whitespace only. */
  lemma PrettyReplacementKeepsNonSpace(serialized: String, st: Layout.Settings, entireFile: bool,
                                       mode: Option<Reindent.Mode>, prefix: String)
    requires PrettyReplacement(serialized, st, entireFile, mode, prefix).Success?
    ensures RemoveSpace(PrettyReplacement(serialized, st, entireFile, mode, prefix).value) == RemoveSpace(serialized)
  {
    var laidOut := Layout.PostProcess(serialized, st).value;
    Layout.PostProcessKeepsNonSpace(serialized, st);
    if !entireFile && mode.Some? {
      Reindent.ReindentKeepsNonSpace(laidOut, prefix, mode.value);
    }
  }
}
