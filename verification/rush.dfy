/**
 The `cargo rush` workflow: a gate on `Cargo.toml`, then either the check
 of the `.cargorush.toml` marker or its initialisation, which creates and
 fills the marker and offers to list it in `.gitignore`. Every step is a
 pure function of the directory and the environment's answers it needs.
 The gate returns a `Gate` (pass, or fatal with its messages); populating
 the marker returns an `Effect` (the directory it leaves and the messages
 it shows); the steps that end the process return a `Run`, which adds the
 exit status and whether the prompt was shown.
 */
module Rush {
  import opened FileSystem
  import opened Input

  /** The crate's package name, `env!("CARGO_PKG_NAME")`. */
  const PackageName: string := "cargo-rush"

  /** The line `populate_cargorush` writes into a fresh marker. */
  const MarkerSection: string := "[rush.info]\nname = \"" + PackageName + "\""

  /** The line `handle_gitignore` writes into `.gitignore` on consent. */
  const IgnoreEntry: string := "\n# Added by cargo-rush\n.cargorush.toml"

  const ExitSuccess: int := 0
  const ExitFailure: int := 1
  /** The status of a Rust process whose main thread panics, under the
      default `panic = "unwind"` strategy. */
  const ExitPanic: int := 101

  datatype Severity = Error | Warning | Success | Info

  /** What a message shown to the user is about; its wording is left out. */
  datatype Notice =
    | CargoTomlMissing | ProjectRootHint
    | NotInitialized | InitHint
    | AlreadyActive | SkippingInit
    | Initialized | GitignoreRecommended | CreateFailed
    | MarkerOpenFailed | MarkerWriteFailed
    | NoGitignore | GitignoreUpdated | GitignoreOpenFailed | GitignoreWriteFailed
    | SkippingGitignore | ManualHint | InvalidInput

  datatype Message = Message(severity: Severity, notice: Notice)

  /** Everything the environment decides during one invocation. */
  datatype Inputs = Inputs(
    create: CreateIo,      // creating `.cargorush.toml`
    populate: AppendIo,    // appending the section to it
    answer: ReadLine,      // the line read at the prompt
    gitignore: AppendIo    // appending the entry to `.gitignore`
  )

  /** What an invocation leaves behind: the directory, the exit status,
      whether the `.gitignore` prompt was printed, and the messages shown. */
  datatype Run = Run(fs: Fs, status: int, prompted: bool, log: seq<Message>)

  /** A step after which the process carries on. */
  datatype Effect = Effect(fs: Fs, log: seq<Message>)

  datatype Gate = Pass | Fatal(log: seq<Message>)

  /** `check_cargo_toml`: the directory must hold `Cargo.toml`; otherwise a
      warning is shown and the process ends with status 1. */
  function CheckCargoToml(fs: Fs): (g: Gate)
    ensures g.Pass? <==> CargoToml in fs
    ensures g.Fatal? ==> |g.log| > 0 && g.log[0].severity == Warning
  {
    if CargoToml !in fs then
      Fatal([Message(Warning, CargoTomlMissing), Message(Info, ProjectRootHint)])
    else
      Pass
  }

  /** `check_cargorush_file`, the whole of check mode once the gate has
      passed: it only reads, and ends with status 0 exactly when the marker
      exists, status 1 otherwise. */
  function CheckCargorushFile(fs: Fs): (r: Run)
    ensures r.fs == fs && !r.prompted
    ensures r.status == ExitSuccess <==> Marker in fs
    ensures r.status == ExitSuccess || r.status == ExitFailure
    ensures r.status == ExitFailure ==> Message(Warning, NotInitialized) in r.log
  {
    if Marker !in fs then
      Run(fs, ExitFailure, false, [Message(Warning, NotInitialized), Message(Info, InitHint)])
    else
      Run(fs, ExitSuccess, false, [])
  }

  /** `populate_cargorush`: best effort. On success the marker gains the
      section line; on a failure an error is shown and nothing changes, and
      in both cases the process carries on. */
  function PopulateCargorush(fs: Fs, io: AppendIo): (e: Effect)
    ensures Marker in fs && io.AppendSucceeds? ==>
              Marker in e.fs && e.fs[Marker] == fs[Marker] + MarkerSection + "\n" && e.log == []
    ensures !(Marker in fs && io.AppendSucceeds?) ==>
              e.fs == fs && |e.log| == 1 && e.log[0].severity == Error
    ensures e.fs.Keys == fs.Keys
    ensures SameFile(fs, e.fs, CargoToml) && SameFile(fs, e.fs, GitIgnore)
  {
    var out := AppendLine(fs, Marker, MarkerSection, io);
    match out.result
    case Appended => Effect(out.fs, [])
    case OpenError => Effect(out.fs, [Message(Error, MarkerOpenFailed)])
    case WriteError => Effect(out.fs, [Message(Error, MarkerWriteFailed)])
  }

  /** The `.gitignore` step reaches the append: the file exists, a line was
      read, and it normalises to the empty default or "y". */
  predicate Consents(fs: Fs, answer: ReadLine) {
    GitIgnore in fs && answer.Line? && Classify(answer.text) == Accept
  }

  /** `handle_gitignore`, the last step of a fresh initialisation. A missing
      `.gitignore` is reported and never created, and no prompt is shown.
      Otherwise the prompt is shown; a failed read panics; consent followed
      by a successful append adds the entry after the old contents; every
      other answer or failure leaves the file byte-identical. The process
      then ends with status 0. */
  function HandleGitignore(fs: Fs, answer: ReadLine, io: AppendIo): (r: Run)
    ensures r.prompted <==> GitIgnore in fs
    ensures r.status == ExitPanic <==> GitIgnore in fs && answer.ReadError?
    ensures r.status == ExitSuccess || r.status == ExitPanic
    ensures Consents(fs, answer) && io.AppendSucceeds? ==>
              GitIgnore in r.fs && r.fs[GitIgnore] == fs[GitIgnore] + IgnoreEntry + "\n"
    ensures !(Consents(fs, answer) && io.AppendSucceeds?) ==> r.fs == fs
    ensures r.fs.Keys == fs.Keys
    ensures SameFile(fs, r.fs, CargoToml) && SameFile(fs, r.fs, Marker)
  {
    if GitIgnore !in fs then
      Run(fs, ExitSuccess, false, [Message(Warning, NoGitignore)])
    else
      match answer
      case ReadError => Run(fs, ExitPanic, true, [])
      case Line(text) =>
        match Classify(text)
        case Accept =>
          var out := AppendLine(fs, GitIgnore, IgnoreEntry, io);
          var report := match out.result
            case Appended => Message(Success, GitignoreUpdated)
            case OpenError => Message(Error, GitignoreOpenFailed)
            case WriteError => Message(Error, GitignoreWriteFailed);
          Run(out.fs, ExitSuccess, true, [report])
        case Decline =>
          Run(fs, ExitSuccess, true, [Message(Warning, SkippingGitignore), Message(Info, ManualHint)])
        case Invalid =>
          Run(fs, ExitSuccess, true, [Message(Error, InvalidInput), Message(Info, SkippingGitignore)])
  }

  /** `handle_init`, the whole of init mode once the gate has passed. An
      existing marker makes it a no-op ending with status 0. A failed create
      ends with status 1 and nothing written. Otherwise the marker exists
      afterwards, holding the section exactly when populating it worked, and
      the `.gitignore` step decides the rest. */
  function HandleInit(fs: Fs, io: Inputs): (r: Run)
    ensures Marker in fs ==> r.fs == fs && r.status == ExitSuccess && !r.prompted
    ensures Marker !in fs && io.create.CreateFails? ==>
              r.fs == fs && r.status == ExitFailure && !r.prompted
    ensures Marker !in fs && io.create.CreateSucceeds? ==>
              && Marker in r.fs
              && r.fs[Marker] == (if io.populate.AppendSucceeds? then MarkerSection + "\n" else "")
              && r.prompted == (GitIgnore in fs)
              && r.status == (if GitIgnore in fs && io.answer.ReadError? then ExitPanic else ExitSuccess)
    ensures SameFile(fs, r.fs, CargoToml)
    ensures GitIgnore in r.fs <==> GitIgnore in fs
  {
    if Marker in fs then
      Run(fs, ExitSuccess, false, [Message(Warning, AlreadyActive), Message(Info, SkippingInit)])
    else
      var created := Create(fs, Marker, io.create);
      if !created.ok then
        Run(fs, ExitFailure, false, [Message(Error, CreateFailed)])
      else
        var populated := PopulateCargorush(created.fs, io.populate);
        var g := HandleGitignore(populated.fs, io.answer, io.gitignore);
        var intro := [Message(Success, Initialized), Message(Info, GitignoreRecommended)];
        Run(g.fs, g.status, g.prompted, intro + populated.log + g.log)
  }

  /** The `rush` branch of `main` as written: the gate, then init or check
      mode. With `init` false this is the `else` branch; clap's
      `arg_required_else_help` prints help and exits with status 2 before
      it whenever `--init` is absent, so no command line reaches it. */
  function Main(init: bool, fs: Fs, io: Inputs): (r: Run)
    ensures CargoToml !in fs ==> r.fs == fs && r.status == ExitFailure && !r.prompted
    ensures SameFile(fs, r.fs, CargoToml)
  {
    match CheckCargoToml(fs)
    case Fatal(log) => Run(fs, ExitFailure, false, log)
    case Pass => if init then HandleInit(fs, io) else CheckCargorushFile(fs)
  }
}
