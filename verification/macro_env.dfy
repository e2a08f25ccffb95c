/** The run-time behaviour of the `macro_env!` arms (src/main.rs:13-53 and
    src/lib.rs:14-44): each arm picks resolvers, and `All` / the bare literal chain them
    in the order `.env` file, process environment, standard input. */
module MacroEnv {
  import opened Outcomes
  import opened DotEnv
  import opened Sources

  /** What a run of the program can observe: the `.env` file, the process environment
      and the line typed at the prompt. */
  datatype World = World(dotenv: EnvFile, environ: map<string, string>, stdin: Line)

  /** The arms of `macro_env!`; `LiteralArm` is the form `macro_env!("NAME")`. */
  datatype Arm =
    | FileArm(name: string)
    | SystemArm(name: string)
    | InputArm
    | AllArm(name: string)
    | LiteralArm(name: string)

  /** The file lookup ended in `Ok`. */
  predicate FileFound(name: string, w: World) {
    EnvReader(w.dotenv, name).Returns? && EnvReader(w.dotenv, name).value.Ok?
  }

  /** The file lookup returned an `Err` (rather than a value or a panic). */
  predicate FileFailed(name: string, w: World) {
    EnvReader(w.dotenv, name).Returns? && EnvReader(w.dotenv, name).value.Err?
  }

  /** Reading the prompt's answer with `read_line(..).unwrap()` and trimming it.
      (src/main.rs:20-25, src/lib.rs:21-23) */
  function Prompt(stdin: Line): (r: Run<string>)
    ensures r.Panics? <==> stdin.Unreadable?
    ensures r.Panics? ==> r.cause == UnwrapIoError(StdinFailed)
    ensures r.Returns? ==> Input(stdin) == Ok(r.value)
  {
    match Input(stdin)
    case Ok(v) => Returns(v)
    case Err(e) => Panics(UnwrapIoError(e))
  }

  /** The `All` chain: the file's value if the reader returned `Ok`, otherwise the
      environment's value if the variable is set, otherwise the trimmed input line.
      A panic of the file reader is not caught. (src/main.rs:27-52, src/lib.rs:24-43) */
  function ResolveAll(name: string, w: World): (r: Run<string>)
    ensures r.Returns? ==>
              || EnvReader(w.dotenv, name) == Returns(Ok(r.value))
              || (FileFailed(name, w) && name in w.environ && w.environ[name] == r.value)
              || (FileFailed(name, w) && name !in w.environ && Input(w.stdin) == Ok(r.value))
    ensures r.Panics? <==>
              || EnvReader(w.dotenv, name).Panics?
              || (FileFailed(name, w) && name !in w.environ && w.stdin.Unreadable?)
  {
    match EnvReader(w.dotenv, name)
    case Panics(cause) => Panics(cause)
    case Returns(Ok(v)) => Returns(v)
    case Returns(Err(_)) =>
      match SystemReader(w.environ, name)
      case Ok(v) => Returns(v)
      case Err(_) => Prompt(w.stdin)
  }

  /** `macro_env!` at run time. The single-source arms `unwrap` their resolver, so its
      error becomes a panic. (src/main.rs:14-52, src/lib.rs:15-43) */
  function Expand(arm: Arm, w: World): (r: Run<string>)
    ensures arm.FileArm? ==>
              forall e :: r == Panics(UnwrapFileError(e)) <==> EnvReader(w.dotenv, arm.name) == Returns(Err(e))
    ensures arm.FileArm? ==> (r.Returns? <==> FileFound(arm.name, w))
    ensures arm.FileArm? && r.Returns? ==> EnvReader(w.dotenv, arm.name) == Returns(Ok(r.value))
    ensures arm.FileArm? && EnvReader(w.dotenv, arm.name).Panics? ==>
              r == Panics(EnvReader(w.dotenv, arm.name).cause)
    ensures arm.SystemArm? ==> (r.Returns? <==> arm.name in w.environ)
    ensures arm.SystemArm? && r.Returns? ==> r.value == w.environ[arm.name]
    ensures arm.InputArm? ==> (r.Returns? <==> w.stdin.Read?)
    ensures arm.InputArm? && r.Returns? ==> Input(w.stdin) == Ok(r.value)
    ensures arm.AllArm? || arm.LiteralArm? ==> r == ResolveAll(arm.name, w)
  {
    match arm
    case FileArm(name) =>
      (match EnvReader(w.dotenv, name)
       case Panics(cause) => Panics(cause)
       case Returns(Ok(v)) => Returns(v)
       case Returns(Err(e)) => Panics(UnwrapFileError(e)))
    case SystemArm(name) =>
      (match SystemReader(w.environ, name)
       case Ok(v) => Returns(v)
       case Err(e) => Panics(UnwrapVarError(e)))
    case InputArm => Prompt(w.stdin)
    case AllArm(name) => ResolveAll(name, w)
    case LiteralArm(name) => ResolveAll(name, w)
  }

  /** `macro_env!("NAME")` and `macro_env!(All, "NAME")` behave the same. */
  lemma LiteralIsAll(name: string, w: World)
    ensures Expand(LiteralArm(name), w) == Expand(AllArm(name), w)
  {
  }

  /** A value in the file decides the outcome: the environment and standard input are
      not consulted. */
  lemma FileShortCircuits(name: string, w: World, environ: map<string, string>, stdin: Line)
    requires FileFound(name, w)
    ensures ResolveAll(name, w) == Returns(EnvReader(w.dotenv, name).value.value)
    ensures ResolveAll(name, w) == ResolveAll(name, w.(environ := environ, stdin := stdin))
  {
  }

  /** After a failed file lookup a set variable decides: standard input is not read. */
  lemma SystemBeforeInput(name: string, w: World, stdin: Line)
    requires FileFailed(name, w) && name in w.environ
    ensures ResolveAll(name, w) == Returns(w.environ[name])
    ensures ResolveAll(name, w) == ResolveAll(name, w.(stdin := stdin))
  {
  }

  /** Only when both the file and the environment fail is the user asked. */
  lemma InputLast(name: string, w: World)
    requires FileFailed(name, w) && name !in w.environ
    ensures ResolveAll(name, w) == Expand(InputArm, w)
  {
  }

  /** A first and only line `TOKEN=abc123` resolves `TOKEN` whatever else is set. */
  lemma TokenFromFile(environ: map<string, string>, stdin: Line)
    ensures ResolveAll("TOKEN", World(Opened([Read("TOKEN=abc123")]), environ, stdin)) == Returns("abc123")
  {
    var lines := [Read("TOKEN=abc123")];
    assert "TOKEN=abc123" == "TOKEN" + "=" + "abc123";
    assert "abc123"[0] != Quote;
    SingleAssignment("TOKEN", "abc123");
    assert EnvReader(Opened(lines), "TOKEN") == Returns(Ok("abc123"));
  }

  /** With an empty file and the variable unset, the typed line is the answer. */
  lemma FallThroughToInput(name: string, environ: map<string, string>, line: string)
    requires name !in environ
    ensures ResolveAll(name, World(Opened([]), environ, Read(line))) == Returns(Input(Read(line)).value)
  {
  }
}
