/**
 * The top level of the converter: which branch the input argument
 * selects, and for each input file whether its output is skipped, written,
 * overwritten, or not produced because no event was stored. The file
 * system is reduced to the set of existing output paths and the frames of
 * each input file. The decision rules are stated for any naming of the
 * outputs, `naming`; the converter itself names them by
 * `PathNames.OutputPath`, as `Run`, `HandleInput` and `RunList` do.
 */
module Driver {
  import opened PathNames
  import opened Pulses
  import opened Events
  import opened Reader

  datatype Decision = SkipExisting | Write | Overwrite | NoOutput

  /** One input file's handling. `withReco` tells whether the `reco` group goes into the output. */
  datatype Step = Step(input: string, output: string, decision: Decision, withReco: bool)

  predicate Written(s: Step) {
    s.decision == Write || s.decision == Overwrite
  }

  /** The decision after reading, the same in both branches. */
  function AfterRead(present: bool, overwrite: bool, stored: nat): Decision {
    if stored > 0 && !present then Write
    else if stored > 0 && present && overwrite then Overwrite
    else NoOutput
  }

  /** `reco` is dropped when the stored reco energies sum to 0. */
  function KeepsReco(recs: seq<Record>): bool {
    Sum(RecoColumns(recs)[RecoEnergy]) != 0.0
  }

  /** One input of the list branch: an existing output is skipped, without reading, unless `overwrite`. */
  function ListStep(input: string, naming: string -> string, contents: string -> seq<Frame>, pulseType: string,
                    overwrite: bool, existing: set<string>): Step
  {
    var out := naming(input);
    var present := out in existing;
    if present && !overwrite then Step(input, out, SkipExisting, false)
    else
      var recs := Kept(contents(input), pulseType);
      Step(input, out, AfterRead(present, overwrite, |recs|), KeepsReco(recs))
  }

  /** The single-file branch: an existing output is skipped whatever `overwrite` says. */
  function SingleStep(input: string, naming: string -> string, contents: string -> seq<Frame>, pulseType: string,
                      overwrite: bool, existing: set<string>): Step
  {
    var out := naming(input);
    var present := out in existing;
    if present then Step(input, out, SkipExisting, false)
    else
      var recs := Kept(contents(input), pulseType);
      Step(input, out, AfterRead(present, overwrite, |recs|), KeepsReco(recs))
  }

  /** The existing outputs after a step: a written output now exists. */
  function After(existing: set<string>, s: Step): set<string> {
    if Written(s) then existing + {s.output} else existing
  }

  /**
   * The list branch decides as follows. Its output is skipped iff it
   * exists and `overwrite` is off. It is written iff it does not exist and
   * an event was stored. It is overwritten iff it exists, `overwrite` is on
   * and an event was stored. Otherwise nothing is produced, exactly when
   * no event was stored. `reco` is kept iff its energies do not sum to 0.
   */
  lemma ListStepCases(input: string, naming: string -> string, contents: string -> seq<Frame>, pulseType: string,
                      overwrite: bool, existing: set<string>)
    ensures var s := ListStep(input, naming, contents, pulseType, overwrite, existing);
      var present := naming(input) in existing;
      var stored := |Kept(contents(input), pulseType)|;
      && s.input == input && s.output == naming(input)
      && (s.decision == SkipExisting <==> present && !overwrite)
      && (s.decision == Write <==> !present && stored > 0)
      && (s.decision == Overwrite <==> present && overwrite && stored > 0)
      && (s.decision == NoOutput <==> (!present || overwrite) && stored == 0)
      && (Written(s) ==> (s.withReco <==> KeepsReco(Kept(contents(input), pulseType))))
  {
  }

  /**
   * The single-file branch skips an existing output whatever `overwrite`
   * says, so it never overwrites, and it decides exactly as the list
   * branch does with `overwrite` off.
   */
  lemma SingleStepIgnoresOverwrite(input: string, naming: string -> string, contents: string -> seq<Frame>, pulseType: string,
                                   overwrite: bool, existing: set<string>)
    ensures var s := SingleStep(input, naming, contents, pulseType, overwrite, existing);
      && (s.decision == SkipExisting <==> naming(input) in existing)
      && s.decision != Overwrite
      && s == ListStep(input, naming, contents, pulseType, false, existing)
  {
  }

  /** An input none of whose frames has a reconstruction is written without `reco`. */
  lemma NoRecoWrittenWithoutReco(input: string, naming: string -> string, contents: string -> seq<Frame>, pulseType: string,
                                 overwrite: bool, existing: set<string>)
    requires forall j :: 0 <= j < |contents(input)| ==> contents(input)[j].reco.None?
    ensures !ListStep(input, naming, contents, pulseType, overwrite, existing).withReco
    ensures !SingleStep(input, naming, contents, pulseType, overwrite, existing).withReco
  {
    NoRecoZeroEnergy(contents(input), pulseType);
  }

  /** The list branch: the inputs in order, each step seeing the outputs written before it. */
  function ListRun(inputs: seq<string>, naming: string -> string, contents: string -> seq<Frame>, pulseType: string,
                   overwrite: bool, existing: set<string>): (seq<Step>, set<string>)
    decreases |inputs|
  {
    if inputs == [] then ([], existing)
    else
      var s := ListStep(inputs[0], naming, contents, pulseType, overwrite, existing);
      var rest := ListRun(inputs[1..], naming, contents, pulseType, overwrite, After(existing, s));
      ([s] + rest.0, rest.1)
  }

  /** The outputs of the written steps. */
  function WrittenOutputs(steps: seq<Step>): set<string> {
    if steps == [] then {}
    else (if Written(steps[0]) then {steps[0].output} else {}) + WrittenOutputs(steps[1..])
  }

  /** One step per input, in order, each for the output its input names. */
  lemma {:induction false} ListRunSteps(inputs: seq<string>, naming: string -> string, contents: string -> seq<Frame>, pulseType: string,
                                        overwrite: bool, existing: set<string>)
    ensures var steps := ListRun(inputs, naming, contents, pulseType, overwrite, existing).0;
      && |steps| == |inputs|
      && forall i :: 0 <= i < |steps| ==> steps[i].input == inputs[i] && steps[i].output == naming(inputs[i])
    decreases |inputs|
  {
    if inputs != [] {
      var s := ListStep(inputs[0], naming, contents, pulseType, overwrite, existing);
      ListStepCases(inputs[0], naming, contents, pulseType, overwrite, existing);
      ListRunSteps(inputs[1..], naming, contents, pulseType, overwrite, After(existing, s));
      var steps := ListRun(inputs, naming, contents, pulseType, overwrite, existing).0;
      var rest := ListRun(inputs[1..], naming, contents, pulseType, overwrite, After(existing, s)).0;
      assert steps == [s] + rest;
      forall i | 0 < i < |steps|
        ensures steps[i].input == inputs[i] && steps[i].output == naming(inputs[i])
      {
        assert steps[i] == rest[i - 1] && inputs[1..][i - 1] == inputs[i];
      }
    }
  }

  /** Outputs only get added: the final set is the initial one plus the outputs of the written steps. */
  lemma {:induction false} ListRunFinal(inputs: seq<string>, naming: string -> string, contents: string -> seq<Frame>, pulseType: string,
                                        overwrite: bool, existing: set<string>)
    ensures var (steps, final) := ListRun(inputs, naming, contents, pulseType, overwrite, existing);
      final == existing + WrittenOutputs(steps)
    decreases |inputs|
  {
    if inputs != [] {
      var s := ListStep(inputs[0], naming, contents, pulseType, overwrite, existing);
      ListRunFinal(inputs[1..], naming, contents, pulseType, overwrite, After(existing, s));
      var steps := ListRun(inputs, naming, contents, pulseType, overwrite, existing).0;
      var rest := ListRun(inputs[1..], naming, contents, pulseType, overwrite, After(existing, s)).0;
      assert steps == [s] + rest;
      assert steps[1..] == rest;
    }
  }

  /**
   * With `overwrite` off, an output that exists is never written again:
   * an input whose output existed at the start is skipped, and once an
   * input's output is written, every later input with the same output is
   * skipped.
   */
  lemma {:induction false} NoRewriteWithoutOverwrite(inputs: seq<string>, naming: string -> string, contents: string -> seq<Frame>,
                                                     pulseType: string, existing: set<string>)
    ensures var steps := ListRun(inputs, naming, contents, pulseType, false, existing).0;
      && |steps| == |inputs|
      && (forall j :: 0 <= j < |steps| && naming(inputs[j]) in existing ==> steps[j].decision == SkipExisting)
      && (forall i, j :: 0 <= i < j < |steps| && Written(steps[i]) && steps[i].output == steps[j].output ==>
            steps[j].decision == SkipExisting)
    decreases |inputs|
  {
    if inputs != [] {
      var s := ListStep(inputs[0], naming, contents, pulseType, false, existing);
      var ex := After(existing, s);
      ListStepCases(inputs[0], naming, contents, pulseType, false, existing);
      NoRewriteWithoutOverwrite(inputs[1..], naming, contents, pulseType, ex);
      ListRunSteps(inputs, naming, contents, pulseType, false, existing);
      var steps := ListRun(inputs, naming, contents, pulseType, false, existing).0;
      var rest := ListRun(inputs[1..], naming, contents, pulseType, false, ex).0;
      assert steps == [s] + rest;
      forall j | 0 <= j < |steps| && naming(inputs[j]) in existing
        ensures steps[j].decision == SkipExisting
      {
        if j > 0 {
          assert inputs[1..][j - 1] == inputs[j] && steps[j] == rest[j - 1];
        }
      }
      forall i, j | 0 <= i < j < |steps| && Written(steps[i]) && steps[i].output == steps[j].output
        ensures steps[j].decision == SkipExisting
      {
        assert steps[j] == rest[j - 1] && inputs[1..][j - 1] == inputs[j];
        if i > 0 {
          assert steps[i] == rest[i - 1];
        }
      }
    }
  }

  /** After a list run, every input's output exists unless no event of it was stored. */
  predicate Covered(inputs: seq<string>, naming: string -> string, contents: string -> seq<Frame>, pulseType: string, existing: set<string>) {
    forall i :: 0 <= i < |inputs| ==>
      naming(inputs[i]) in existing || |Kept(contents(inputs[i]), pulseType)| == 0
  }

  lemma {:induction false} ListRunCovers(inputs: seq<string>, naming: string -> string, contents: string -> seq<Frame>, pulseType: string,
                                         overwrite: bool, existing: set<string>)
    ensures Covered(inputs, naming, contents, pulseType, ListRun(inputs, naming, contents, pulseType, overwrite, existing).1)
    ensures existing <= ListRun(inputs, naming, contents, pulseType, overwrite, existing).1
    decreases |inputs|
  {
    if inputs != [] {
      var s := ListStep(inputs[0], naming, contents, pulseType, overwrite, existing);
      ListStepCases(inputs[0], naming, contents, pulseType, overwrite, existing);
      ListRunCovers(inputs[1..], naming, contents, pulseType, overwrite, After(existing, s));
      var final := ListRun(inputs, naming, contents, pulseType, overwrite, existing).1;
      forall i | 0 <= i < |inputs|
        ensures naming(inputs[i]) in final || |Kept(contents(inputs[i]), pulseType)| == 0
      {
        if i > 0 {
          assert inputs[1..][i - 1] == inputs[i];
        }
      }
    }
  }

  /** Over outputs that already cover the inputs, a run without `overwrite` writes nothing. */
  lemma {:induction false} CoveredRunWritesNothing(inputs: seq<string>, naming: string -> string, contents: string -> seq<Frame>,
                                                   pulseType: string, existing: set<string>)
    requires Covered(inputs, naming, contents, pulseType, existing)
    ensures var (steps, final) := ListRun(inputs, naming, contents, pulseType, false, existing);
      && final == existing
      && forall i :: 0 <= i < |steps| ==> !Written(steps[i])
    decreases |inputs|
  {
    if inputs != [] {
      var s := ListStep(inputs[0], naming, contents, pulseType, false, existing);
      ListStepCases(inputs[0], naming, contents, pulseType, false, existing);
      assert !Written(s);
      assert Covered(inputs[1..], naming, contents, pulseType, existing) by {
        forall i | 0 <= i < |inputs[1..]|
          ensures naming(inputs[1..][i]) in existing || |Kept(contents(inputs[1..][i]), pulseType)| == 0
        {
          assert inputs[1..][i] == inputs[i + 1];
        }
      }
      CoveredRunWritesNothing(inputs[1..], naming, contents, pulseType, existing);
    }
  }

  /**
   * Running the list branch a second time without `overwrite`, over the
   * outputs the first run left, writes nothing and leaves them as they are.
   */
  lemma ListRunIdempotent(inputs: seq<string>, naming: string -> string, contents: string -> seq<Frame>, pulseType: string,
                          overwrite: bool, existing: set<string>)
    ensures var first := ListRun(inputs, naming, contents, pulseType, overwrite, existing).1;
      var (steps, final) := ListRun(inputs, naming, contents, pulseType, false, first);
      && final == first
      && forall i :: 0 <= i < |steps| ==> !Written(steps[i])
  {
    ListRunCovers(inputs, naming, contents, pulseType, overwrite, existing);
    CoveredRunWritesNothing(inputs, naming, contents, pulseType,
                            ListRun(inputs, naming, contents, pulseType, overwrite, existing).1);
  }

  /** The default input pattern, used when no input is given. */
  const DefaultPattern: string := "/mnt/scratch/priesbr1/Simulation_Files/NuMu_140000_000???_level2_sim?.zst"

  /** A string argument with a `*` or `?` is expanded as a pattern. */
  predicate IsPattern(arg: string) {
    '*' in arg || '?' in arg
  }

  datatype Branch = ListBranch(inputs: seq<string>) | SingleBranch(input: string)

  /** `glob` stands for the sorted expansion of a pattern. */
  function SelectBranch(arg: Option<string>, glob: string -> seq<string>): Branch {
    if arg.None? then ListBranch(glob(DefaultPattern))
    else if IsPattern(arg.value) then ListBranch(glob(arg.value))
    else SingleBranch(arg.value)
  }

  /** The whole run over the existing outputs. */
  function Run(arg: Option<string>, glob: string -> seq<string>, contents: string -> seq<Frame>,
               pulseType: string, overwrite: bool, existing: set<string>): (seq<Step>, set<string>)
  {
    match SelectBranch(arg, glob)
    case ListBranch(inputs) => ListRun(inputs, OutputPath, contents, pulseType, overwrite, existing)
    case SingleBranch(input) =>
      var s := SingleStep(input, OutputPath, contents, pulseType, overwrite, existing);
      ([s], After(existing, s))
  }

  /**
   * Only a given argument without `*` and `?` is handled as a single file,
   * and a single file is never overwritten; a pattern, or no argument, is
   * handled as the list of its matches, possibly empty.
   */
  lemma RunBranches(arg: Option<string>, glob: string -> seq<string>, contents: string -> seq<Frame>,
                    pulseType: string, overwrite: bool, existing: set<string>)
    ensures SelectBranch(arg, glob).SingleBranch? <==> arg.Some? && !IsPattern(arg.value)
    ensures arg.Some? && !IsPattern(arg.value) ==>
              var (steps, _) := Run(arg, glob, contents, pulseType, overwrite, existing);
              |steps| == 1 && steps[0].decision != Overwrite
    ensures arg.Some? && IsPattern(arg.value) ==>
              Run(arg, glob, contents, pulseType, overwrite, existing) ==
              ListRun(glob(arg.value), OutputPath, contents, pulseType, overwrite, existing)
    ensures arg.None? ==>
              Run(arg, glob, contents, pulseType, overwrite, existing) ==
              ListRun(glob(DefaultPattern), OutputPath, contents, pulseType, overwrite, existing)
  {
    if arg.Some? && !IsPattern(arg.value) {
      SingleStepIgnoresOverwrite(arg.value, OutputPath, contents, pulseType, overwrite, existing);
      var s := SingleStep(arg.value, OutputPath, contents, pulseType, overwrite, existing);
      assert Run(arg, glob, contents, pulseType, overwrite, existing) == ([s], After(existing, s));
    } else if arg.Some? {
      assert SelectBranch(arg, glob) == ListBranch(glob(arg.value));
    }
  }

  /** The frames of one input file, as `read_files([input_file])` reads them. */
  lemma AllFramesOne(frames: seq<Frame>)
    ensures AllFrames([frames]) == frames
  {
    assert [frames][..0] == [];
  }

  /** What the list branch uses of `read_files([input_file])`: the number of stored events and the reco energies. */
  lemma ReadOneFile(frames: seq<Frame>, pulseType: string,
                    dom: seq<seq<int>>, time: seq<seq<real>>, charge: seq<seq<real>>,
                    labels: map<LabelKey, seq<real>>, reco: map<RecoKey, seq<real>>, weights: seq<real>)
    requires Accumulated(Kept(AllFrames([frames]), pulseType), weights, labels, reco, dom, time, charge)
    ensures |weights| == |Kept(frames, pulseType)|
    ensures RecoEnergy in reco && (Sum(reco[RecoEnergy]) != 0.0 <==> KeepsReco(Kept(frames, pulseType)))
  {
    AllFramesOne(frames);
  }

  lemma ConcatAssoc<T>(a: seq<T>, b: seq<T>, c: seq<T>)
    ensures (a + b) + c == a + (b + c)
  {
  }

  /** The list run from input `k` on: the step for input `k`, then the rest over the outputs after it. */
  lemma ListRunFrom(inputs: seq<string>, k: int, naming: string -> string, contents: string -> seq<Frame>, pulseType: string,
                    overwrite: bool, existing: set<string>)
    requires 0 <= k < |inputs|
    ensures var s := ListStep(inputs[k], naming, contents, pulseType, overwrite, existing);
      var rest := ListRun(inputs[k + 1..], naming, contents, pulseType, overwrite, After(existing, s));
      ListRun(inputs[k..], naming, contents, pulseType, overwrite, existing) == ([s] + rest.0, rest.1)
  {
    assert inputs[k..][0] == inputs[k];
    assert inputs[k..][1..] == inputs[k + 1..];
  }

  /**
   * The body of the list branch's loop for one input: its output is
   * checked, the input is read unless skipped, and the decision is made on
   * the number of stored events and the sum of the reco energies.
   */
  method HandleInput(input: string, contents: string -> seq<Frame>, pulseType: string,
                     overwrite: bool, existing: set<string>) returns (step: Step)
    ensures step == ListStep(input, OutputPath, contents, pulseType, overwrite, existing)
  {
    var output := OutputPath(input);
    if output in existing && !overwrite {
      step := Step(input, output, SkipExisting, false);
    } else {
      var dom, time, charge, labels, reco, weights := ReadFiles([contents(input)], pulseType);
      ReadOneFile(contents(input), pulseType, dom, time, charge, labels, reco, weights);
      var withReco := Sum(reco[RecoEnergy]) != 0.0;
      step := Step(input, output, AfterRead(output in existing, overwrite, |weights|), withReco);
    }
  }

  /**
   * The loop of the list branch over its inputs, in order, each input
   * seeing the outputs written before it.
   */
  method RunList(inputs: seq<string>, contents: string -> seq<Frame>, pulseType: string,
                 overwrite: bool, existing: set<string>)
      returns (steps: seq<Step>, final: set<string>)
    ensures (steps, final) == ListRun(inputs, OutputPath, contents, pulseType, overwrite, existing)
  {
    steps := [];
    final := existing;
    var k := 0;
    ghost var run := ListRun(inputs, OutputPath, contents, pulseType, overwrite, existing);
    assert inputs[0..] == inputs;
    while k < |inputs|
      invariant 0 <= k <= |inputs|
      invariant run.0 == steps + ListRun(inputs[k..], OutputPath, contents, pulseType, overwrite, final).0
      invariant run.1 == ListRun(inputs[k..], OutputPath, contents, pulseType, overwrite, final).1
    {
      var step := HandleInput(inputs[k], contents, pulseType, overwrite, final);
      ListRunFrom(inputs, k, OutputPath, contents, pulseType, overwrite, final);
      ghost var rest := ListRun(inputs[k + 1..], OutputPath, contents, pulseType, overwrite, After(final, step));
      assert ListRun(inputs[k..], OutputPath, contents, pulseType, overwrite, final) == ([step] + rest.0, rest.1);
      ConcatAssoc(steps, [step], rest.0);
      steps := steps + [step];
      final := After(final, step);
      k := k + 1;
    }
    assert inputs[k..] == [];
    assert steps + [] == steps;
  }
}
