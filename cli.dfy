/**
 The body of `main()`: activate and order the extensions, split the image
 argument into base image and command, pull if asked (best effort), build,
 and run only when the build succeeded.

 The container engine is not modelled: what it answers (whether the pull
 raised, the build's exit code, the run's exit code) is an input, and the
 calls `main` makes on it are recorded, in order, in the outcome.
 */
module Cli {
  import opened Strings
  import opened Activation
  import opened Ordering

  /** The key under which the `--pull` flag is stored in the option map. */
  const PullFlag: string := "pull"

  /** A call on the container engine; a pull records whether it raised. */
  datatype EngineCall =
    | Pull(image: string, raised: bool)
    | Build(extensions: seq<string>, base: string)
    | Run(extensions: seq<string>, base: string, command: string)

  /** What the engine answers to those calls in one invocation. */
  datatype EngineAnswers = EngineAnswers(pullRaises: bool, buildCode: int, runCode: int)

  /** The exit code `main` returns and the engine calls it made. */
  datatype Outcome = Outcome(exitCode: int, calls: seq<EngineCall>)

  /** `args.image[0]`: the base image, with the command words after it. */
  function BaseImage(image: seq<string>): (r: string)
    requires |image| > 0
    ensures [r] + image[1..] == image
  {
    image[0]
  }

  /** `' '.join(args.image[1:])`: empty for a single image argument, and
      otherwise starting with the first word after the image. */
  function Command(image: seq<string>): (r: string)
    requires |image| > 0
    ensures |image| == 1 ==> r == ""
    ensures |image| > 1 ==> StartsWith(r, image[1])
  {
    Join(image[1..], " ")
  }

  /** The base image and the words of the command give back the image
      argument list when there is a command and no argument contains a
      space. */
  lemma ImageArgumentsRecoverable(image: seq<string>)
    requires |image| >= 2
    requires forall i :: 0 <= i < |image| ==> ' ' !in image[i]
    ensures [BaseImage(image)] + SplitOn(Command(image), ' ') == image
  {
    var rest := image[1..];
    assert forall i :: 0 <= i < |rest| ==> ' ' !in rest[i] by {
      forall i | 0 <= i < |rest| ensures ' ' !in rest[i] {
        assert rest[i] == image[i + 1];
      }
    }
    SplitJoinRoundTrip(rest, ' ');
    assert [image[0]] + rest == image;
  }

  /** Joining loses the boundaries of arguments that contain a space. */
  lemma CommandForgetsArgumentBoundaries()
    ensures Command(["img", "a b"]) == Command(["img", "a", "b"])
  {
    assert ["img", "a", "b"][1..] == ["a", "b"];
    assert Join(["a", "b"], " ") == "a" + " " + Join(["b"], " ");
  }

  /** The extensions in the order they are handed to the image generator:
      as many as are active, never more than were discovered. */
  function Extensions(plugins: seq<string>, options: Options): (r: seq<string>)
    ensures |r| == |Activate(plugins, options)| <= |plugins|
  {
    UserLast(Activate(plugins, options))
  }

  /** What one invocation of `main` does, given the engine's answers. */
  function Pipeline(plugins: seq<string>, options: Options, image: seq<string>,
                    engine: EngineAnswers): (o: Outcome)
    requires |image| > 0
    ensures engine.buildCode != 0 ==> o.exitCode == engine.buildCode
    ensures engine.buildCode == 0 ==> o.exitCode == engine.runCode
    ensures engine.buildCode != 0 <==> forall c :: c in o.calls ==> !c.Run?
  {
    var exts := Extensions(plugins, options);
    var base := BaseImage(image);
    var pulled := if Enabled(options, PullFlag) then [Pull(base, engine.pullRaises)] else [];
    var built := pulled + [Build(exts, base)];
    if engine.buildCode != 0 then
      Outcome(engine.buildCode, built)
    else
      var run := Run(exts, base, Command(image));
      assert run in built + [run];
      Outcome(engine.runCode, built + [run])
  }

  /** The build is always attempted, exactly once, right after the pull (if
      any), with the base image and the ordered active extensions; when it
      succeeds the run follows as the last call, with the same image and
      extensions and the joined command. */
  lemma PipelineCalls(plugins: seq<string>, options: Options, image: seq<string>,
                      engine: EngineAnswers)
    requires |image| > 0
    ensures var o := Pipeline(plugins, options, image, engine);
            var exts := Extensions(plugins, options);
            var n := if Enabled(options, PullFlag) then 1 else 0;
            && |o.calls| == n + (if engine.buildCode == 0 then 2 else 1)
            && (n == 1 ==> o.calls[0] == Pull(image[0], engine.pullRaises))
            && o.calls[n] == Build(exts, image[0])
            && (forall i :: 0 <= i < |o.calls| && o.calls[i].Build? ==> i == n)
            && (engine.buildCode == 0 ==>
                  o.calls[n + 1] == Run(exts, image[0], Command(image)))
  {
  }

  /** A pull that raises is caught and ignored: only the pull's own entry
      differs, while the exit code and every later call are the same as when
      it succeeds. */
  lemma PullFailureIgnored(plugins: seq<string>, options: Options, image: seq<string>,
                           engine: EngineAnswers)
    requires |image| > 0
    ensures var failed := Pipeline(plugins, options, image, engine.(pullRaises := true));
            var pulled := Pipeline(plugins, options, image, engine.(pullRaises := false));
            var n := if Enabled(options, PullFlag) then 1 else 0;
            && failed.exitCode == pulled.exitCode
            && |failed.calls| == |pulled.calls| > n
            && failed.calls[n..] == pulled.calls[n..]
            && (n == 1 ==> failed.calls[0].raised && !pulled.calls[0].raised)
  {
  }

  /** `main` exits with 0 exactly when both the build and the run did. */
  lemma PipelineSucceeds(plugins: seq<string>, options: Options, image: seq<string>,
                         engine: EngineAnswers)
    requires |image| > 0
    ensures Pipeline(plugins, options, image, engine).exitCode == 0
        <==> engine.buildCode == 0 && engine.runCode == 0
  {
  }

  /** The extensions handed to the build are exactly the enabled discovered
      ones, each as often as it was activated. */
  lemma ExtensionsAreActive(plugins: seq<string>, options: Options)
    ensures multiset(Extensions(plugins, options)) == multiset(Activate(plugins, options))
    ensures forall x :: x in Extensions(plugins, options) <==> x in plugins && Enabled(options, x)
  {
    var act := Activate(plugins, options);
    UserLastPermutes(act);
    forall x ensures x in Extensions(plugins, options) <==> x in act {
      assert x in multiset(Extensions(plugins, options)) <==> x in multiset(act);
    }
  }

  /** Every identity-setup extension is handed to the build after every other
      one, and each group keeps its discovery order. */
  lemma ExtensionsOrdered(plugins: seq<string>, options: Options)
    ensures Partitioned(Extensions(plugins, options))
    ensures Select(Extensions(plugins, options), false) == Select(Activate(plugins, options), false)
    ensures Select(Extensions(plugins, options), true) == Select(Activate(plugins, options), true)
  {
    UserLastPartitioned(Activate(plugins, options));
    UserLastStable(Activate(plugins, options));
  }

  /** `main()` from activation to the run's exit code, with the early return
      on a failed build. */
  method Invoke(plugins: seq<string>, options: Options, image: seq<string>,
                engine: EngineAnswers) returns (exitCode: int, calls: seq<EngineCall>)
    requires |image| > 0
    ensures Outcome(exitCode, calls) == Pipeline(plugins, options, image, engine)
  {
    var active := Activate(plugins, options);
    var a := new string[|active|](i requires 0 <= i < |active| => active[i]);
    assert a[..] == active;
    SortUserLast(a);
    var exts := a[..];

    var base := image[0];
    calls := [];
    if Enabled(options, PullFlag) {
      calls := calls + [Pull(base, engine.pullRaises)];
      if engine.pullRaises {
        // the APIError is caught; nothing else is done about it
      }
    }
    calls := calls + [Build(exts, base)];
    exitCode := engine.buildCode;
    if exitCode != 0 {
      return;
    }
    calls := calls + [Run(exts, base, Join(image[1..], " "))];
    exitCode := engine.runCode;
  }
}
