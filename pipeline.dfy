/**
 * The per-file loop of the program: each input is validated, decoded and,
 * when every step succeeds, handed to the writer under its output name.
 * A file that cannot be read or parsed, has an invalid structure, or holds
 * an entry that does not decode is skipped with no output at all, and the
 * loop goes on with the next file.
 */
module Pipeline {
  import opened Wrappers
  import opened Secrets
  import Base64
  import Paths

  /** Why a file produced no output. */
  datatype Skip = Unreadable | InvalidStructure | InvalidData

  /** A file to be written: its name and the decoded document. */
  datatype OutputFile = OutputFile(path: string, doc: Secret)

  datatype Outcome = Skipped(reason: Skip) | Written(output: OutputFile)

  /**
   * An input file as the loader hands it over: its name and the parsed
   * document, or `None` when reading or parsing failed.
   */
  datatype Input = Input(name: string, parsed: Option<Secret>)

  /** What happens to one parsed document. */
  function Process(file: string, secret: Secret): (r: Outcome)
    ensures r.Written? <==> HasValidStructure(secret) && DecodedData(secret.data.value).Some?
    ensures r.Written? ==> r.output.doc == secret.(data := DecodedData(secret.data.value))
    ensures r == Skipped(InvalidStructure) <==>
      secret.apiVersion == "" || secret.kind == "" || secret.data.None?
    ensures r == Skipped(InvalidData) <==>
      HasValidStructure(secret) &&
      exists k :: k in secret.data.value &&
        (!secret.data.value[k].StrV? || Base64.Decode(secret.data.value[k].s).None?)
    ensures r.Written? ==>
      && r.output.path == Paths.OutputName(file)
      && r.output.path != file
      && r.output.doc.apiVersion == secret.apiVersion
      && r.output.doc.kind == secret.kind
      && r.output.doc.metadata == secret.metadata
      && secret.data.Some? && r.output.doc.data.Some?
      && r.output.doc.data.value.Keys == secret.data.value.Keys
      && (forall k :: k in r.output.doc.data.value ==> IsTyped(r.output.doc.data.value[k]))
  {
    if !HasValidStructure(secret) then Skipped(InvalidStructure)
    else
      match DecodedData(secret.data.value)
      case None => Skipped(InvalidData)
      case Some(decoded) =>
        Written(OutputFile(Paths.OutputName(file), secret.(data := Some(decoded))))
  }

  /** What happens to one input file. */
  function ProcessInput(input: Input): Outcome
  {
    match input.parsed
    case None => Skipped(Unreadable)
    case Some(secret) => Process(input.name, secret)
  }

  /** The files written for `inputs`, in input order. */
  function Outputs(inputs: seq<Input>): (r: seq<OutputFile>)
    ensures |r| <= |inputs|
    decreases |inputs|
  {
    if |inputs| == 0 then []
    else
      var last := inputs[|inputs| - 1];
      match ProcessInput(last)
      case Skipped(_) => Outputs(inputs[..|inputs| - 1])
      case Written(out) => Outputs(inputs[..|inputs| - 1]) + [out]
  }

  /** For inputs parsed in advance, the outputs of a concatenation are the concatenated outputs. */
  lemma {:induction false} OutputsAppend(a: seq<Input>, b: seq<Input>)
    ensures Outputs(a + b) == Outputs(a) + Outputs(b)
    decreases |b|
  {
    if |b| == 0 {
      assert a + b == a;
    } else {
      var init := b[..|b| - 1];
      assert (a + b)[..|a + b| - 1] == a + init;
      OutputsAppend(a, init);
    }
  }

  /**
   * Skip and continue: a file that is skipped, for whatever reason, takes
   * nothing away from the outputs of the files before and after it.
   */
  lemma SkipAndContinue(before: seq<Input>, skipped: Input, after: seq<Input>)
    requires ProcessInput(skipped).Skipped?
    ensures Outputs(before + [skipped] + after) == Outputs(before) + Outputs(after)
  {
    OutputsAppend(before + [skipped], after);
    OutputsAppend(before, [skipped]);
    assert [skipped][..0] == [];
  }

  /** A file is written exactly when it is processed successfully, and only then. */
  lemma {:induction false} OutputsExactly(inputs: seq<Input>)
    ensures forall i :: 0 <= i < |inputs| && ProcessInput(inputs[i]).Written? ==>
      ProcessInput(inputs[i]).output in Outputs(inputs)
    ensures forall o :: o in Outputs(inputs) ==>
      exists i :: 0 <= i < |inputs| && ProcessInput(inputs[i]) == Written(o)
    decreases |inputs|
  {
    if |inputs| > 0 {
      var init := inputs[..|inputs| - 1];
      OutputsExactly(init);
      forall i | 0 <= i < |init| ensures init[i] == inputs[i] { }
    }
  }

  /** A document whose `data` map is present but empty passes and is written unchanged. */
  lemma EmptyDataAccepted(file: string, secret: Secret)
    requires secret.apiVersion != "" && secret.kind != "" && secret.data == Some(map[])
    ensures Process(file, secret) == Written(OutputFile(Paths.OutputName(file), secret))
  {
    assert DecodedData(map[]) == Some(map[]);
  }

  /**
   * Fail fast: one entry that is not a string or not valid base64 keeps
   * the whole document from being written, whatever the other entries hold.
   */
  lemma NoPartialOutput(file: string, secret: Secret, key: string)
    requires secret.data.Some? && key in secret.data.value
    requires DecodeEntry(secret.data.value[key]).None?
    ensures Outputs([Input(file, Some(secret))]) == []
  {
    assert [Input(file, Some(secret))][..0] == [];
  }

  /** Processing one document, as the body of the program's file loop does. */
  method ProcessDocument(file: string, secret: Secret) returns (r: Outcome)
    ensures r == Process(file, secret)
  {
    if secret.apiVersion == "" || secret.kind == "" || secret.data.None? {
      return Skipped(InvalidStructure);
    }
    var valid, decoded := DecodeData(secret.data.value);
    if !valid {
      return Skipped(InvalidData);
    }
    var outputFile := Paths.OutputName(file);
    r := Written(OutputFile(outputFile, secret.(data := Some(decoded))));
  }

  /** The file loop: every input in turn, skipping the ones that fail. */
  method ProcessFiles(inputs: seq<Input>) returns (written: seq<OutputFile>)
    ensures written == Outputs(inputs)
  {
    written := [];
    for i := 0 to |inputs|
      invariant written == Outputs(inputs[..i])
    {
      assert inputs[..i + 1] == inputs[..i] + [inputs[i]];
      OutputsAppend(inputs[..i], [inputs[i]]);
      var input := inputs[i];
      if input.parsed.None? {
        continue;
      }
      var outcome := ProcessDocument(input.name, input.parsed.value);
      if outcome.Skipped? {
        continue;
      }
      written := written + [outcome.output];
    }
    assert inputs[..|inputs|] == inputs;
  }
}
