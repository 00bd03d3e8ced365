/** The body of `run` in yambler/src/main.rs once the files are read: build the
    registry, replace every input document with one trail shared by all of them,
    and frame the emitted documents under the "DO NOT EDIT" header. Reading and
    writing the files, parsing and emitting YAML are outside the model: the
    parsed documents come in as values and the emitter is a function parameter. */
module Yambler {
  import opened YamlValue
  import opened Snippets
  import opened Substitution

  // ---------------------------------------------------------------------------
  // Replacing every document
  // ---------------------------------------------------------------------------

  /** The outcome of every input document rewritten on its own from an empty
      trail, in order. */
  function Outcomes(inputs: seq<Yaml>, snips: Registry): seq<Result<Yaml>> {
    seq(|inputs|, i requires 0 <= i < |inputs| => Resolve([], inputs[i], snips))
  }

  /** All documents rewritten; the first error stops the run. */
  function ResolveAll(inputs: seq<Yaml>, snips: Registry): Result<seq<Yaml>> {
    Collected(Outcomes(inputs, snips))
  }

  /** Every template document replaced in order, with one trail created before
      the first document and shared by all of them; the first error stops the
      run (yambler/src/main.rs:33-34). A document that
      succeeds hands the trail back empty, so every document starts from an empty
      trail, as `ResolveAll` says. */
  method ReplaceDocuments(inputs: seq<Yaml>, snips: Registry) returns (res: Result<seq<Yaml>>)
    ensures res == ResolveAll(inputs, snips)
  {
    ghost var rs := Outcomes(inputs, snips);
    var trail: seq<string> := [];
    var outputs: seq<Yaml> := [];
    var i := 0;
    while i < |inputs|
      invariant 0 <= i <= |inputs|
      invariant trail == []
      invariant Collected(rs[..i]) == Ok(outputs)
    {
      var r;
      r, trail := Replace(trail, inputs[i], snips);
      assert rs[..i + 1][..i] == rs[..i];
      if r.Err? {
        CollectedStopsAtError(rs, i + 1);
        return Err(r.error);
      }
      outputs := outputs + [r.value];
      i := i + 1;
    }
    assert rs[..i] == rs;
    res := Ok(outputs);
  }

  // ---------------------------------------------------------------------------
  // Framing the output text
  // ---------------------------------------------------------------------------

  /** The separator the emitter writes in front of every document. */
  const DocumentStart: string := "---\n"

  function Header(fileName: string): string {
    "---\n# DO NOT EDIT\n# Created from template \"" + fileName + "\".\n"
  }

  /** The input's file name, or "??" when the path has none. */
  function TemplateName(fileName: Option<string>): string {
    if fileName.Some? then fileName.value else "??"
  }

  /** The emitted documents one after the other. */
  function Join(dumps: seq<string>): string {
    if dumps == [] then "" else Join(dumps[..|dumps| - 1]) + dumps[|dumps| - 1]
  }

  /** The text of an output file: the header, then the documents, the first of
      them without its own separator since the header already opens with one. */
  function Framed(fileName: Option<string>, dumps: seq<string>): string
    requires forall i :: 0 <= i < |dumps| ==> DocumentStart <= dumps[i]
  {
    if dumps == [] then Header(TemplateName(fileName))
    else Header(TemplateName(fileName)) + dumps[0][|DocumentStart|..] + Join(dumps[1..])
  }

  lemma {:induction false} JoinFirst(dumps: seq<string>)
    requires dumps != []
    ensures Join(dumps) == dumps[0] + Join(dumps[1..])
    decreases |dumps|
  {
    if |dumps| > 1 {
      var front, last, rest := dumps[..|dumps| - 1], dumps[|dumps| - 1], dumps[1..];
      JoinFirst(front);
      assert front[1..] == rest[..|rest| - 1] && rest[|rest| - 1] == last;
      assert Join(rest) == Join(front[1..]) + last;
      assert Join(dumps) == front[0] + Join(front[1..]) + last;
      assert front[0] + Join(front[1..]) + last == dumps[0] + (Join(front[1..]) + last);
    } else {
      assert dumps[1..] == [] && dumps[..0] == [];
      assert Join(dumps) == "" + dumps[0] == dumps[0] + "";
    }
  }

  /** Lines 36-45 of `run`: the header, every dump appended behind it, and the four
      characters right after the header deleted when there is at least one
      document. The text is the same as `Framed`: exactly one `---` opens the
      first document. */
  method Frame(fileName: Option<string>, dumps: seq<string>) returns (out: string)
    requires forall i :: 0 <= i < |dumps| ==> DocumentStart <= dumps[i]
    ensures out == Framed(fileName, dumps)
  {
    ghost var header := Header(TemplateName(fileName));
    out := Header(TemplateName(fileName));
    var headerLen := |out|;
    for i := 0 to |dumps|
      invariant out == header + Join(dumps[..i])
    {
      assert dumps[..i + 1][..i] == dumps[..i];
      out := out + dumps[i];
    }
    assert dumps[..|dumps|] == dumps;
    if |dumps| > 0 {
      JoinFirst(dumps);
      DropAfter(header, dumps[0], Join(dumps[1..]));
      out := out[..headerLen] + out[headerLen + 4..];
    }
  }

  /** Deleting the separator that opens the first dump, right after the header. */
  lemma DropAfter(header: string, first: string, rest: string)
    requires DocumentStart <= first
    ensures var text := header + (first + rest);
            text[..|header|] + text[|header| + 4..] == header + first[4..] + rest
  {
    var text := header + (first + rest);
    assert text[..|header|] == header;
    assert text[|header| + 4..] == first[4..] + rest;
  }

  // ---------------------------------------------------------------------------
  // The whole run
  // ---------------------------------------------------------------------------

  /** The output text of a run over parsed documents: the registry from the
      snippet files, then every input document replaced, then the framed dumps.
      `emit` stands for `YamlEmitter::dump` of one document. */
  function Output(inputs: seq<Yaml>, snipFiles: seq<seq<Yaml>>, fileName: Option<string>,
                  emit: Yaml -> string): Result<string>
    requires forall y :: DocumentStart <= emit(y)
  {
    match BuildRegistry(snipFiles)
    case Err(e) => Err(e)
    case Ok(snips) =>
      match ResolveAll(inputs, snips)
      case Err(e) => Err(e)
      case Ok(outputs) => Ok(Framed(fileName, seq(|outputs|, i requires 0 <= i < |outputs| => emit(outputs[i]))))
  }

  method Run(inputs: seq<Yaml>, snipFiles: seq<seq<Yaml>>, fileName: Option<string>,
             emit: Yaml -> string) returns (res: Result<string>)
    requires forall y :: DocumentStart <= emit(y)
    ensures res == Output(inputs, snipFiles, fileName, emit)
  {
    var snips := BuildRegistry(snipFiles);
    if snips.Err? {
      return Err(snips.error);
    }
    var outputs := ReplaceDocuments(inputs, snips.value);
    if outputs.Err? {
      return Err(outputs.error);
    }
    var dumps := seq(|outputs.value|, i requires 0 <= i < |outputs.value| => emit(outputs.value[i]));
    var text := Frame(fileName, dumps);
    res := Ok(text);
  }
}
