/**
 Properties of whole invocations of the workflow, and of invocations in
 sequence: what check mode may touch, idempotence of init, init followed by
 check, and the exact effect of the `.gitignore` prompt.
 */
module RushProperties {
  import opened FileSystem
  import opened Input
  import opened Rush

  /** Check mode never writes and never prompts; it succeeds exactly when
      both `Cargo.toml` and the marker exist, and fails with status 1 otherwise. */
  lemma CheckModeOnlyReads(fs: Fs, io: Inputs)
    ensures Main(false, fs, io).fs == fs
    ensures !Main(false, fs, io).prompted
    ensures Main(false, fs, io).status == ExitSuccess <==> CargoToml in fs && Marker in fs
    ensures Main(false, fs, io).status != ExitSuccess ==> Main(false, fs, io).status == ExitFailure
  {
  }

  /** In a project directory, init leaves a marker behind exactly when it
      does not end with status 1. */
  lemma InitLeavesMarkerUnlessFatal(fs: Fs, io: Inputs)
    requires CargoToml in fs
    ensures Marker in Main(true, fs, io).fs <==> Main(true, fs, io).status != ExitFailure
  {
  }

  /** After an init that did not fail, check mode on the resulting directory
      succeeds, whatever the environment does the second time. */
  lemma InitThenCheckSucceeds(fs: Fs, io: Inputs, io': Inputs)
    requires Main(true, fs, io).status != ExitFailure
    ensures Main(false, Main(true, fs, io).fs, io').status == ExitSuccess
  {
    InitLeavesMarkerUnlessFatal(fs, io);
  }

  /** Init when the marker already exists changes no file, shows no prompt
      and succeeds. */
  lemma InitWithMarkerIsNoop(fs: Fs, io: Inputs)
    requires CargoToml in fs && Marker in fs
    ensures Main(true, fs, io).fs == fs
    ensures Main(true, fs, io).status == ExitSuccess
    ensures !Main(true, fs, io).prompted
  {
  }

  /** Running init a second time after one that did not fail leaves the
      directory exactly as the first run left it. */
  lemma InitTwiceIsInitOnce(fs: Fs, io: Inputs, io': Inputs)
    requires Main(true, fs, io).status != ExitFailure
    ensures Main(true, Main(true, fs, io).fs, io').fs == Main(true, fs, io).fs
    ensures Main(true, Main(true, fs, io).fs, io').status == ExitSuccess
    ensures !Main(true, Main(true, fs, io).fs, io').prompted
  {
    InitLeavesMarkerUnlessFatal(fs, io);
  }

  /** A fresh init whose create and populate both work leaves the marker
      holding exactly the `[rush.info]` section naming the package. */
  lemma FreshInitMarkerContents(fs: Fs, io: Inputs)
    requires CargoToml in fs && Marker !in fs
    requires io.create.CreateSucceeds? && io.populate.AppendSucceeds?
    ensures Marker in Main(true, fs, io).fs
    ensures Main(true, fs, io).fs[Marker] == "[rush.info]\nname = \"cargo-rush\"\n"
  {
  }

  /** A failed create ends the run with status 1, no marker, `.gitignore`
      untouched and no prompt. */
  lemma CreateFailureIsFatal(fs: Fs, io: Inputs)
    requires CargoToml in fs && Marker !in fs && io.create.CreateFails?
    ensures Main(true, fs, io).status == ExitFailure
    ensures Main(true, fs, io).fs == fs
    ensures Marker !in Main(true, fs, io).fs
    ensures !Main(true, fs, io).prompted
  {
  }

  /** A failure to populate the marker is not fatal: the marker exists and is
      empty, an error is reported, the `.gitignore` step still runs, and the
      status is 0 unless reading the answer panics. */
  lemma PopulateFailureIsNotFatal(fs: Fs, io: Inputs)
    requires CargoToml in fs && Marker !in fs && io.create.CreateSucceeds?
    requires !io.populate.AppendSucceeds?
    ensures Marker in Main(true, fs, io).fs && Main(true, fs, io).fs[Marker] == ""
    ensures exists i :: 0 <= i < |Main(true, fs, io).log| && Main(true, fs, io).log[i].severity == Error
    ensures Main(true, fs, io).prompted <==> GitIgnore in fs
    ensures io.answer.Line? ==> Main(true, fs, io).status == ExitSuccess
  {
    var r := Main(true, fs, io);
    assert r.log[2].severity == Error;
  }

  /** Without a `.gitignore`, init shows no prompt and creates none. */
  lemma NoGitignoreNoPrompt(init: bool, fs: Fs, io: Inputs)
    requires GitIgnore !in fs
    ensures !Main(init, fs, io).prompted
    ensures GitIgnore !in Main(init, fs, io).fs
  {
  }

  /** On a fresh init that reaches the prompt, consent and a working append
      leave the old `.gitignore` followed by exactly the entry block; any
      other answer, or a failed open or write, leaves it byte-identical. A
      read answer always ends the run with status 0. */
  lemma GitignoreAppendOrUntouched(fs: Fs, io: Inputs)
    requires CargoToml in fs && Marker !in fs && io.create.CreateSucceeds?
    requires GitIgnore in fs && io.answer.Line?
    ensures Main(true, fs, io).status == ExitSuccess
    ensures GitIgnore in Main(true, fs, io).fs
    ensures Classify(io.answer.text) == Accept && io.gitignore.AppendSucceeds? ==>
              Main(true, fs, io).fs[GitIgnore] == fs[GitIgnore] + "\n# Added by cargo-rush\n.cargorush.toml\n"
    ensures !(Classify(io.answer.text) == Accept && io.gitignore.AppendSucceeds?) ==>
              Main(true, fs, io).fs[GitIgnore] == fs[GitIgnore]
  {
  }

  /** An unrecognised answer has the same effect on the files, the status
      and the prompt as an explicit "n"; only the messages differ. */
  lemma InvalidAnswerActsAsDecline(fs: Fs, io: Inputs, text: string)
    requires Classify(text) == Invalid
    ensures var bad := Main(true, fs, io.(answer := Line(text)));
            var no := Main(true, fs, io.(answer := Line("n")));
            bad.fs == no.fs && bad.status == no.status && bad.prompted == no.prompted
  {
    OfferedAnswers();
    var bad := io.(answer := Line(text));
    var no := io.(answer := Line("n"));
    if CargoToml in fs && Marker !in fs && io.create.CreateSucceeds? {
      var p := PopulateCargorush(Create(fs, Marker, io.create).fs, io.populate);
      assert !Consents(p.fs, bad.answer) && !Consents(p.fs, no.answer);
      assert HandleGitignore(p.fs, bad.answer, io.gitignore).fs == p.fs;
      assert HandleGitignore(p.fs, no.answer, io.gitignore).fs == p.fs;
    }
  }

  /** `.gitignore` is never read for duplicates: re-initialising with
      consent after the marker was deleted appends the entry a second time. */
  lemma ReinitAfterRemovalDuplicatesEntry(fs: Fs, io: Inputs)
    requires CargoToml in fs && Marker !in fs && GitIgnore in fs
    requires io.create.CreateSucceeds? && io.gitignore.AppendSucceeds?
    requires io.answer.Line? && Classify(io.answer.text) == Accept
    ensures var once := Main(true, fs, io).fs;
            var twice := Main(true, once - {Marker}, io).fs;
            GitIgnore in twice &&
            twice[GitIgnore] == fs[GitIgnore] + IgnoreEntry + "\n" + IgnoreEntry + "\n"
  {
    var once := Main(true, fs, io).fs;
    GitignoreAppendOrUntouched(fs, io);
    var again := once - {Marker};
    assert CargoToml in again && GitIgnore in again;
    GitignoreAppendOrUntouched(again, io);
  }
}
