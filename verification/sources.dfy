/** The two other resolvers of src/lib.rs: `systemreader`, over the process environment
    given as a map, and `input`, over the one line read from standard input. */
module Sources {
  import opened Outcomes
  import opened Text

  /** `systemreader` / `std::env::var`: the stored value of a set variable, `NotPresent`
      for an unset one. (src/lib.rs:90-92, src/main.rs:18,31-32) */
  function SystemReader(environ: map<string, string>, name: string): (r: Result<string, VarError>)
    ensures r.Ok? <==> name in environ
    ensures r.Ok? ==> r.value == environ[name]
    ensures r.Err? ==> r.error == NotPresent
  {
    if name in environ then Ok(environ[name]) else Err(NotPresent)
  }

  /** `input`: the line read from standard input with surrounding whitespace, line
      terminator included, removed; a failed read is the error.
      (src/lib.rs:82-88, src/main.rs:21-24) */
  function Input(stdin: Line): (r: Result<string, IoError>)
    ensures r.Ok? <==> stdin.Read?
    ensures r.Ok? ==> IsTrimmed(r.value) && IsPaddingOf(stdin.text, r.value)
  {
    match stdin
    case Read(line) => Ok(Trim(line))
    case Unreadable => Err(StdinFailed)
  }

  /** Entering what `input` returned gives the same string back. */
  lemma InputStable(stdin: Line)
    requires stdin.Read?
    ensures Input(Read(Input(stdin).value)) == Input(stdin)
  {
    TrimIdempotent(stdin.text);
  }

  /** Typing "  hello " and a newline yields "hello". */
  lemma InputExample()
    ensures Input(Read("  hello \n")) == Ok("hello")
  {
    TrimExample();
  }

  /** `systemreader` looks at the requested variable only: two environments that agree
      on `name` (both unset, or both holding the same value) give the same result. */
  lemma SystemReaderReadsOnlyName(environ: map<string, string>, environ': map<string, string>, name: string)
    requires name in environ <==> name in environ'
    requires name in environ ==> environ[name] == environ'[name]
    ensures SystemReader(environ, name) == SystemReader(environ', name)
  {
  }
}
