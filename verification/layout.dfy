/** `json_dumps` (PrettyJson.py): the settings it reads, the arguments it hands to the
    serializer, and the post-processing of the serialized text. The serializer itself
    is a parameter; its output is the input of the layout rules. */
module Layout {
  import opened Wrappers
  import opened Text
  import ArrayCollapse
  import NewlineRule

  /** The settings `json_dumps` reads, as one immutable value. */
  datatype Settings = Settings(
    indent: nat,
    sortKeys: bool,
    ensureAscii: bool,
    lineSeparator: String,
    valueSeparator: String,
    keepArraysSingleLine: bool,
    maxArraysLineLength: int,
    bracketNewline: bool,
    braceNewline: bool)

  /** The defaults `json_dumps` falls back to when a setting is absent. */
  const Defaults := Settings(
    indent := 2,
    sortKeys := false,
    ensureAscii := false,
    lineSeparator := ",",
    valueSeparator := ": ",
    keepArraysSingleLine := false,
    maxArraysLineLength := 120,
    bracketNewline := true,
    braceNewline := true)

  /** The keyword arguments `json.dumps` receives. `indent` is `None` when minified. */
  datatype DumpArgs = DumpArgs(
    indent: Option<nat>,
    ensureAscii: bool,
    sortKeys: bool,
    itemSeparator: String,
    keyValueSeparator: String)

  /** The serializer arguments for the given settings. `forceSorting` is the value of the
      class attribute `PrettyJsonBaseCommand.force_sorting` at the time of the call. */
  function ArgsFor(st: Settings, forceSorting: bool, minified: bool): (a: DumpArgs)
    ensures minified ==> RemoveSpace(a.itemSeparator) == RemoveSpace(st.lineSeparator)
  {
    RemoveSpaceStrip(st.lineSeparator);
    DumpArgs(
      indent := if minified then None else Some(st.indent),
      ensureAscii := st.ensureAscii,
      sortKeys := st.sortKeys || forceSorting,
      itemSeparator := if minified then Strip(st.lineSeparator) else st.lineSeparator,
      keyValueSeparator := if minified then Strip(st.valueSeparator) else st.valueSeparator)
  }

  datatype LayoutError = EmptySeparator

  /** The re-layout of a non-minified serialized text: array collapsing when
      `keep_arrays_single_line` is set, otherwise the bracket-newline rule when
      `bracket_newline` is set; then the brace-newline rule when `brace_newline` is set. */
  function PostProcess(serialized: String, st: Settings): (r: Result<String, LayoutError>)
    ensures r.Failure? <==>
      st.keepArraysSingleLine && |ArrayCollapse.FindSpans(serialized)| > 0 && |Strip(st.lineSeparator)| == 0
  {
    var arranged :=
      if st.keepArraysSingleLine then
        match ArrayCollapse.CollapseArrays(serialized, st.lineSeparator, st.maxArraysLineLength)
        case Success(t) => Success(t)
        case Failure(_) => Failure(EmptySeparator)
      else if st.bracketNewline then Success(NewlineRule.Apply(serialized, NewlineRule.Bracket))
      else Success(serialized);
    if arranged.Failure? then Failure(arranged.error)
    else if st.braceNewline then Success(NewlineRule.Apply(arranged.value, NewlineRule.Brace))
    else arranged
  }

  /** `json_dumps(obj, minified)`, with the serializer `json.dumps` given as `serialize`. */
  function JsonDumps<T>(obj: T, st: Settings, forceSorting: bool, minified: bool,
                        serialize: (T, DumpArgs) -> String): Result<String, LayoutError>
  {
    var out := serialize(obj, ArgsFor(st, forceSorting, minified));
    if minified then Success(out) else PostProcess(out, st)
  }

  // ---------------------------------------------------------------------------
  // Properties

  /** The layout options (`keep_arrays_single_line`, `max_arrays_line_length`,
      `bracket_newline`, `brace_newline`) never reach the serializer: settings that differ
      only in them ask for the same arguments. */
  lemma ArgsIgnoreLayout(st: Settings, st2: Settings, forceSorting: bool, minified: bool)
    requires st2 == st.(keepArraysSingleLine := st2.keepArraysSingleLine,
                        maxArraysLineLength := st2.maxArraysLineLength,
                        bracketNewline := st2.bracketNewline,
                        braceNewline := st2.braceNewline)
    ensures ArgsFor(st, forceSorting, minified) == ArgsFor(st2, forceSorting, minified)
  {
  }

  /** Minified output never fails and depends only on the sorting flags, `ensure_ascii`
      and the separators without their surrounding whitespace: not on `indent`, not on
      any layout option, and not on how the separators are padded. */
  lemma MinifiedIgnoresLayout<T>(obj: T, st: Settings, st2: Settings, forceSorting: bool,
                                 serialize: (T, DumpArgs) -> String)
    requires st.sortKeys == st2.sortKeys && st.ensureAscii == st2.ensureAscii
    requires Strip(st.lineSeparator) == Strip(st2.lineSeparator)
    requires Strip(st.valueSeparator) == Strip(st2.valueSeparator)
    ensures JsonDumps(obj, st, forceSorting, true, serialize).Success?
    ensures JsonDumps(obj, st, forceSorting, true, serialize) == JsonDumps(obj, st2, forceSorting, true, serialize)
  {
  }

  /** The re-layout only moves whitespace: the non-whitespace characters of the
      serialized text come out unchanged and in order. */
  lemma PostProcessKeepsNonSpace(serialized: String, st: Settings)
    requires PostProcess(serialized, st).Success?
    ensures RemoveSpace(PostProcess(serialized, st).value) == RemoveSpace(serialized)
  {
    var mid :=
      if st.keepArraysSingleLine then ArrayCollapse.CollapseArrays(serialized, st.lineSeparator, st.maxArraysLineLength).value
      else if st.bracketNewline then NewlineRule.Apply(serialized, NewlineRule.Bracket)
      else serialized;
    if st.keepArraysSingleLine {
      ArrayCollapse.CollapseArraysKeepsNonSpace(serialized, st.lineSeparator, st.maxArraysLineLength);
    } else if st.bracketNewline {
      NewlineRule.ApplyKeepsNonSpace(serialized, NewlineRule.Bracket);
    }
    if st.braceNewline {
      NewlineRule.ApplyKeepsNonSpace(mid, NewlineRule.Brace);
    }
  }

  /** With array collapsing on, `bracket_newline` has no effect. */
  lemma BracketIgnoredWhenCollapsing(serialized: String, st: Settings)
    requires st.keepArraysSingleLine
    ensures PostProcess(serialized, st) == PostProcess(serialized, st.(bracketNewline := !st.bracketNewline))
  {
  }

  /** The brace rule runs last, on whatever the other options made of the text, and a
      failure of array collapsing is passed on unchanged. */
  lemma BraceRuleRunsLast(serialized: String, st: Settings)
    ensures PostProcess(serialized, st.(braceNewline := true)) ==
      match PostProcess(serialized, st.(braceNewline := false))
      case Success(t) => Success(NewlineRule.Apply(t, NewlineRule.Brace))
      case Failure(e) => Failure(e)
  {
  }

  /** With every layout option off, the serialized text is kept as it is. */
  lemma NoOptionNoChange(serialized: String, st: Settings)
    requires !st.keepArraysSingleLine && !st.bracketNewline && !st.braceNewline
    ensures PostProcess(serialized, st) == Success(serialized)
  {
  }

  /** With only the brace rule on, laying out the output again changes nothing. */
  lemma BraceOnlyIdempotent(serialized: String, st: Settings)
    requires !st.keepArraysSingleLine && !st.bracketNewline
    ensures PostProcess(PostProcess(serialized, st).value, st) == PostProcess(serialized, st)
  {
    if st.braceNewline {
      NewlineRule.ApplyIdempotent(serialized, NewlineRule.Brace);
    }
  }

  /** With only the bracket rule on, laying out the output again changes nothing. */
  lemma BracketOnlyIdempotent(serialized: String, st: Settings)
    requires !st.keepArraysSingleLine && !st.braceNewline
    ensures PostProcess(PostProcess(serialized, st).value, st) == PostProcess(serialized, st)
  {
    if st.bracketNewline {
      NewlineRule.ApplyIdempotent(serialized, NewlineRule.Bracket);
    }
  }
}
