# cargo-rush initialise/check workflow, in Dafny

`cargo rush` is a Cargo subcommand that marks a Rust project as using the
tool by creating a `.cargorush.toml` file next to `Cargo.toml`, and offers
to list that file in `.gitignore`. This project models the decision logic
of `src/main.rs` as pure functions and proves what each path does to the
project directory and to the exit status.

- `filesystem.dfy` (module `FileSystem`) is the abstract project directory.
  It is a map from the three files the tool looks at (`Cargo.toml`,
  `.cargorush.toml`, `.gitignore`) to their text; a missing file has no key.
  It also models `File::create` and an append-mode open followed by
  `writeln!`. Whether each of these calls succeeds is an input.
- `input.dfy` (module `Input`) is the prompt answer. It models
  `trim().to_lowercase()` and the decision table: empty or `y` accepts,
  `n` declines, anything else is invalid. Trimming uses Rust's whitespace
  set, the Unicode White_Space property.
- `rush.dfy` (module `Rush`) holds the workflow steps: `check_cargo_toml`,
  `check_cargorush_file`, `handle_init`, `populate_cargorush`,
  `handle_gitignore`, and the `rush` branch of `main`. `CheckCargoToml`
  takes the directory and returns a `Gate`: pass, or fatal with its
  messages. `PopulateCargorush` takes the directory and the outcome of the
  append (`AppendIo`) and returns an `Effect`: the directory afterwards
  and the messages shown. The steps that end the process return a `Run`.
  `CheckCargorushFile` takes only the directory. `HandleGitignore` takes
  the directory, the line read (`ReadLine`) and the outcome of the append.
  `HandleInit` and `Main` take the directory and every answer of the
  environment (`Inputs`); `Main` also takes the `--init` flag. A `Run`
  holds the directory afterwards, the exit status, whether the prompt was
  printed, and the messages shown. A message is kept as a
  severity and what it is about; its wording is not kept.
- `properties.dfy` (module `RushProperties`) holds lemmas about whole
  invocations and pairs of invocations.

Exit statuses: `std::process::exit(1)` gives 1. Returning from `main` gives 0.
If the stdin read fails, the `expect` panics and the process exits with status
101, the status of a Rust process whose main thread panics (with the default panic strategy, `panic = "unwind"`). At end of input,
`read_line` returns an empty line. The model passes that as `Line("")`, which
counts as consent.

Neither the "already active" path nor a successful check prints the
marker's location: `check_cargorush_file` (src/main.rs:96-102) prints
nothing when the marker exists, and `handle_init` (src/main.rs:108-111)
prints two fixed messages.

## Model

| member | source | states |
|---|---|---|
| FileSystem.Create | src/main.rs:114 | creating the marker either leaves it present and empty or, on failure, changes nothing; no other file is touched |
| FileSystem.AppendLine | src/main.rs:158-163 | an append-mode open cannot open a missing file; the append succeeds exactly when the file exists and the I/O works, and then the old text is followed by the line and a newline; every failure leaves the directory as it was |
| Input.WhitespaceCodePoints | src/main.rs:154 | the whitespace that trimming removes is exactly the 25 code points Unicode lists under White_Space, the set `char::is_whitespace` uses |
| Input.TrimStart | src/main.rs:154 | the result is a suffix of the input, everything cut off is whitespace, and it does not start with whitespace |
| Input.TrimEnd | src/main.rs:154 | the result is a prefix of the input, everything cut off is whitespace, and it does not end with whitespace |
| Input.Trim | src/main.rs:154 | the result is the slice of the line between whitespace-only padding, and it neither starts nor ends with whitespace |
| Input.TrimIgnoresPadding | src/main.rs:154 | adding whitespace before or after a line does not change its trimmed form |
| Input.LowercaseIsLetter | src/main.rs:154 | a string lower-cases to a single ASCII letter exactly when it is that letter or its capital |
| Input.Lowercase | src/main.rs:154 | lower-casing keeps the length, turns each ASCII capital into its small letter, keeps every other character, and leaves no ASCII capital |
| Input.Normalize | src/main.rs:154 | the normalised answer is the trimmed line with each character folded to lower case (ASCII folding), so it has no whitespace at either end and no ASCII capital |
| Input.NormalizeIdempotent | src/main.rs:154 | normalising an already normalised answer changes nothing |
| Input.Classify | src/main.rs:156-180 | the answer is accepted exactly when the trimmed line is empty, `y` or `Y`, declined exactly when it is `n` or `N`, and invalid otherwise |
| Input.ClassifyIgnoresPadding | src/main.rs:151-156 | surrounding whitespace, such as the newline `read_line` keeps, never changes the decision |
| Input.OfferedAnswers | src/main.rs:156-172 | the answers the `[Y/n]` prompt offers are read as meant: `y` and `Y` accept, `n` and `N` decline |
| Rush.CheckCargoToml | src/main.rs:88-94 | the gate passes exactly when `Cargo.toml` exists; otherwise it is fatal and starts with a warning |
| Rush.CheckCargorushFile | src/main.rs:96-102 | check mode writes nothing and shows no prompt; it ends with 0 exactly when the marker exists and with 1 (after a not-initialised warning) otherwise |
| Rush.PopulateCargorush | src/main.rs:184-196 | if the marker exists and the append works, it gains the section line; otherwise nothing changes and exactly one error is reported; `Cargo.toml` and `.gitignore` are never touched |
| Rush.HandleGitignore | src/main.rs:128-182 | the prompt is shown exactly when `.gitignore` exists, and a missing one is never created; a failed read panics with 101; otherwise the status is 0; consent plus a working append adds exactly the entry block after the old text, and anything else leaves the file byte-identical |
| Rush.HandleInit | src/main.rs:105-126 | an existing marker makes init a no-op with status 0 and no prompt; a failed create ends with 1 and writes nothing; otherwise the marker exists, holding the section exactly when populating worked, the prompt appears exactly when `.gitignore` exists, and the status is 0 unless the read panics |
| Rush.Main | src/main.rs:42-50 | as lines 42-50 are written, without `Cargo.toml` both branches end with 1, write nothing and show no prompt; `Cargo.toml` is never changed (the check-mode branch is one no command line reaches, see "## Left out") |
| RushProperties.CheckModeOnlyReads | src/main.rs:45-50 | the `else` branch, as written, never writes or prompts; it succeeds exactly when `Cargo.toml` and the marker both exist, and fails with 1 otherwise |
| RushProperties.InitLeavesMarkerUnlessFatal | src/main.rs:105-126 | in a project directory, init leaves a marker behind exactly when its status is not 1 |
| RushProperties.InitThenCheckSucceeds | src/main.rs:45-50 | after an init that did not end with 1, the check-mode `else` branch, as written, on the resulting directory ends with 0 |
| RushProperties.InitWithMarkerIsNoop | src/main.rs:108-112 | init when the marker exists changes no file, shows no prompt and ends with 0 |
| RushProperties.InitTwiceIsInitOnce | src/main.rs:108-112 | a second init after one that did not end with 1 leaves the directory as the first left it, with status 0 and no prompt |
| RushProperties.FreshInitMarkerContents | src/main.rs:187-189 | a fresh init whose create and populate work leaves the marker holding exactly `[rush.info]`, a newline, `name = "cargo-rush"` and a newline |
| RushProperties.CreateFailureIsFatal | src/main.rs:119-122 | a failed create ends with 1, with no marker, `.gitignore` unchanged and no prompt |
| RushProperties.PopulateFailureIsNotFatal | src/main.rs:124-125 | a failed populate leaves the marker present and empty, reports an error, still runs the `.gitignore` step, and ends with 0 when a line was read |
| RushProperties.NoGitignoreNoPrompt | src/main.rs:131-134 | without `.gitignore`, neither mode shows the prompt or creates the file |
| RushProperties.GitignoreAppendOrUntouched | src/main.rs:156-171 | on a fresh init that reads an answer, consent plus a working append leaves the old `.gitignore` followed by exactly the blank line, comment and file name; any other answer or a failed open or write leaves it byte-identical; the status is 0 |
| RushProperties.InvalidAnswerActsAsDecline | src/main.rs:172-179 | an unrecognised answer has the same effect on files, status and prompt as `n` |
| RushProperties.ReinitAfterRemovalDuplicatesEntry | src/main.rs:158-163 | existing `.gitignore` lines are never checked for duplicates: two consenting fresh inits, with the marker deleted in between, append the entry block twice |

## Left out

- Argument parsing with clap and the `argv[1] == "rush"` guard (src/main.rs:7-26, 31-38). The `--init` flag is the boolean `init` passed to `Rush.Main`. The `rush` subcommand sets `arg_required_else_help` (src/main.rs:20), so `cargo rush` with no argument makes clap print help and end the process with status 2 before the `Cargo.toml` gate, whether or not `Cargo.toml` exists. `Main(false, …)` therefore models the `else` branch at src/main.rs:47-50 as written, which no command line reaches; the same holds for check mode in `RushProperties.CheckModeOnlyReads`, `RushProperties.InitThenCheckSucceeds` and `RushProperties.NoGitignoreNoPrompt`.
- The version banner, colours and message wording (src/main.rs:55-78): presentation. Each message is kept only as a severity and a notice kind.
- `simulate_loading` (src/main.rs:80-86): a sleep with no effect on files or status.
- Panics that depend on the process environment, not on the workflow: `std::env::current_dir().expect(...)` (src/main.rs:40), the `unwrap` on stdout flushes (src/main.rs:83, 148), and `print!`, `println!` and `eprintln!` panicking when writing to stdout or stderr fails (src/main.rs:56-77, 82, 85, and the prompt in `handle_gitignore` at src/main.rs:136-147, 181). Each would end the process with status 101. The model treats every write to the terminal as successful.
- The real filesystem: `Path::exists` also reports `false` when the check itself errors, and `true` for a directory of that name. The model reads existence as presence in the map.
- Input.Normalize: inherits the ASCII-only folding of `Input.Lowercase` below.
- Input.Lowercase: folds only `A`-`Z`, a simplification of Rust's Unicode `to_lowercase`; non-ASCII characters are kept unchanged. Trimming, by contrast, uses the full Unicode White_Space set.
- FileSystem.AppendLine: a failed write is modelled as writing nothing. `writeln!` goes through `write_all`, which can fail after writing part of the line, leaving a prefix of it in the file.
- Rush.PackageName: the crate's `Cargo.toml` is not part of this model. The value of `CARGO_PKG_NAME` is taken to be `cargo-rush`, the crate's name.
- Concurrent invocations racing to create the marker: the tool takes no lock, and the model has one invocation at a time.
