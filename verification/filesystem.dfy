/**
 An abstract view of the project directory the workflow runs in: only the
 three files it looks at, each either missing or holding some text. The
 outcome of every operating-system call that can fail is an input supplied
 by the environment, so that each file operation is a pure function.
 */
module FileSystem {

  /** The files of the project root that the workflow reads or writes. */
  datatype Name = CargoToml | Marker | GitIgnore

  /** A directory: a present file maps to its contents, a missing file has no key. */
  type Fs = map<Name, string>

  /** What the environment lets `File::create` do. */
  datatype CreateIo = CreateSucceeds | CreateFails

  /** What the environment lets opening in append mode, then writing, do. */
  datatype AppendIo = AppendSucceeds | OpenFails | WriteFails

  /** How an append attempt ended, as the caller sees it. */
  datatype AppendResult = Appended | OpenError | WriteError

  datatype CreateOutput = CreateOutput(fs: Fs, ok: bool)

  datatype AppendOutput = AppendOutput(fs: Fs, result: AppendResult)

  /** File `n` exists in `fs'` exactly when it exists in `fs`, and then holds
      the same text. */
  predicate SameFile(fs: Fs, fs': Fs, n: Name) {
    && (n in fs <==> n in fs')
    && (n in fs ==> fs[n] == fs'[n])
  }

  /** `File::create`: on success the file exists and is empty (an existing
      one is truncated); on failure nothing changes. No other file is touched. */
  function Create(fs: Fs, name: Name, io: CreateIo): (out: CreateOutput)
    ensures out.ok <==> io.CreateSucceeds?
    ensures out.ok ==> name in out.fs && out.fs[name] == ""
    ensures !out.ok ==> out.fs == fs
    ensures out.fs.Keys == fs.Keys || out.fs.Keys == fs.Keys + {name}
    ensures forall n :: n != name ==> SameFile(fs, out.fs, n)
  {
    match io
    case CreateSucceeds => CreateOutput(fs[name := ""], true)
    case CreateFails => CreateOutput(fs, false)
  }

  /** `OpenOptions::new().append(true).open(name)` followed by `writeln!(file, line)`.
      Append mode without `create` cannot open a missing file. On success the
      old contents are kept and followed by the line and a newline; on any
      failure the directory is left as it was. */
  function AppendLine(fs: Fs, name: Name, line: string, io: AppendIo): (out: AppendOutput)
    ensures out.result == Appended <==> name in fs && io.AppendSucceeds?
    ensures name !in fs ==> out.result == OpenError
    ensures name in fs && io.OpenFails? ==> out.result == OpenError
    ensures name in fs && io.WriteFails? ==> out.result == WriteError
    ensures out.result == Appended ==> name in out.fs && out.fs[name] == fs[name] + line + "\n"
    ensures out.result != Appended ==> out.fs == fs
    ensures out.fs.Keys == fs.Keys
    ensures forall n :: n != name ==> SameFile(fs, out.fs, n)
  {
    if name !in fs then AppendOutput(fs, OpenError)
    else
      match io
      case AppendSucceeds => AppendOutput(fs[name := fs[name] + line + "\n"], Appended)
      case OpenFails => AppendOutput(fs, OpenError)
      case WriteFails => AppendOutput(fs, WriteError)
  }
}
