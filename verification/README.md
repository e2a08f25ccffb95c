# macro_env in Dafny

A model of the Rust crate `macro_env`, which resolves one named configuration value from
three sources. The sources are a `.env` file in the working directory, the process
environment, and a line typed at a prompt. The `macro_env!` macro either asks one source
(`File`, `System`, `Input`) or chains all three (`All`, or a bare literal): file first, then
environment, then the prompt.

`src/main.rs` and `src/lib.rs` carry two copies of the same `.env` reader (`envreader` and
`dotenvreader`) and of the macro. The model writes each piece once. Its doc comments cite
both copies.

Modules:

- `Outcomes` (`outcomes.dfy`): `Option`, `Result`, one attempted line read (`Line`), the
  errors the readers return, and `Run<T>`. A `Run` either returns or panics, with the cause
  of the panic.
- `Text` (`text.dfy`): `str::trim` over `char::is_whitespace`, which is the Unicode
  White_Space set. Also `str::splitn(2, '=')`.
- `DotEnv` (`dotenv.dfy`): the `.env` reader. It covers the per-line check, the line loop, the
  empty-token check, the quote stripping and the panic when the file cannot be opened.
- `Sources` (`sources.dfy`): `systemreader` over a `map<string, string>`, and `input`, which
  trims the line read.
- `MacroEnv` (`macro_env.dfy`): the run-time behaviour of every macro arm, over a `World`.
  A `World` holds the file, the environment and the typed line.

Behaviour the model keeps as the code has it:

- The reader's loop returns `NotFound` at the first line it reads that is not
  `name=value` with a non-empty value. A `.env` that holds any other variable therefore
  never yields a value (`DotEnv.OtherVariableAborts`). When every read line assigns the
  name, the last one wins.
- A `.env` that cannot be opened (missing, or not readable) is not a "not found" result.
  `File::open(".env").unwrap()` panics, and the panic also ends the `All` chain.
- A value that is exactly `"` panics in `remove(0)`. The value `""` gives the empty string.
  So a successful lookup can return an empty string. The prompt can too, when the typed
  line is blank.
- A name that contains `=` is never found in the file, because the split happens at the
  first `=`.

## Model

| member | source | states |
|---|---|---|
| `Text.SplitOnce` | src/main.rs:63 | `splitn(2, '=')` gives one part exactly when the line has no `=`, and then that part is the line. Otherwise the first part has no `=` and the two parts joined by `=` give back the line. |
| `Text.SplitOnceJoin` | src/lib.rs:55 | Splitting `a=b` with `a` free of `=` gives exactly `[a, b]`, so the value part keeps any further `=`. |
| `DotEnv.MatchLine` | src/main.rs:63-65 | A line is accepted iff it is the name, then `=`, then a non-empty rest, and the name has no `=`. The accepted value is everything after the first `=`. |
| `DotEnv.StripQuotes` | src/main.rs:82-85 | Unquoting panics iff the token is a lone `"`. Otherwise the result is the token itself or the token with one surrounding pair of quotes removed. |
| `DotEnv.QuotedRoundTrip` | src/lib.rs:74-77 | Wrapping any string in one pair of quotes and unquoting gives the string back exactly. So `""a""` gives `"a"` and `""` gives the empty string. |
| `DotEnv.UnquotedUnchanged` | src/lib.rs:74 | A token that does not both start and end with `"` comes back unchanged. |
| `DotEnv.Scan` | src/main.rs:61-73 | The line loop aborts iff some read line does not assign the name. When it finishes, the token is the starting one or non-empty. It is non-empty when any line was read, and it is the starting token when no line was read. |
| `DotEnv.ReadEnvFile` | src/lib.rs:50-79 | The reader returns `RejectedLine` iff some read line does not assign the name. It returns `NoValue` iff no line was read. Its only panic is the lone quote. A successful lookup implies that every read line assigns the name. |
| `DotEnv.EnvReader` | src/main.rs:55-57 | The reader panics with "open failed" exactly when `.env` cannot be opened (absent, no read permission, ...). Once it is open, the line reads up to end-of-file decide. |
| `DotEnv.ScanLastRead` | src/main.rs:64-65 | When no line rejects, the loop ends with the value of the last line read, since each accepted line overwrites the token. |
| `DotEnv.LastAssignmentWins` | src/lib.rs:56-79 | When every read line assigns the name, the result is the unquoted value of the last line read, or the lone-quote panic. |
| `DotEnv.ScanSkipsUnreadable` | src/main.rs:62 | Inserting an unreadable line anywhere does not change how the loop ends. |
| `DotEnv.UnreadableLineIgnored` | src/lib.rs:54 | Inserting an unreadable line anywhere does not change the reader's result. |
| `DotEnv.SingleAssignment` | src/main.rs:61-87 | A file whose only line is `name=value` yields the unquoted value, including a value that contains `=`. |
| `DotEnv.QuotedAssignmentRoundTrip` | src/lib.rs:53-79 | A file whose only line is `name="v"` yields exactly `v`, for every `v`, the empty one included. |
| `DotEnv.NameWithEqualsNotFound` | src/main.rs:63-64 | A name containing `=` gives `RejectedLine` as soon as any line is read. |
| `DotEnv.OtherVariableAborts` | src/main.rs:66-70 | `TOKEN=abc123` followed by `OTHER=x` gives `NotFound` for `TOKEN`, because the second line aborts the lookup. |
| `Text.TrimStart` | src/lib.rs:86 | The result is a suffix of the input. Everything dropped is whitespace, and the result does not start with whitespace. |
| `Text.TrimEnd` | src/main.rs:24 | The result is a prefix of the input. Everything dropped is whitespace, and the result does not end with whitespace. |
| `Text.Trim` | src/main.rs:37 | The result has no whitespace at either end. The input is the result with whitespace added before and after. |
| `Text.TrimUnique` | src/lib.rs:86 | Trimming `lead + m + trail` gives exactly `m` whenever `lead` and `trail` are whitespace and `m` has none at its ends. |
| `Text.TrimIdempotent` | src/lib.rs:86 | Trimming twice is the same as trimming once. |
| `Text.TrimExample` | src/main.rs:24 | `"  hello \n"` trims to `"hello"`. |
| `Sources.SystemReader` | src/lib.rs:90-92 | The lookup succeeds iff the variable is set, and then it returns exactly the stored value. Otherwise the error is `NotPresent`. |
| `Sources.SystemReaderReadsOnlyName` | src/lib.rs:91 | The lookup depends only on the requested variable: two environments that agree on it give the same result. |
| `Sources.Input` | src/lib.rs:82-88 | `input` succeeds iff the line could be read. Its result has no edge whitespace and is the read line minus surrounding whitespace. |
| `Sources.InputStable` | src/lib.rs:86 | Feeding `input`'s result back in yields the same result. |
| `Sources.InputExample` | src/lib.rs:85-87 | Typing `  hello ` followed by a newline yields `hello`. |
| `MacroEnv.Prompt` | src/main.rs:20-25 | The `Input` arm panics iff the read fails. Otherwise it returns what `input` returns. |
| `MacroEnv.ResolveAll` | src/main.rs:27-39 | A value from `All` is the file's value, or the environment's value after a file `Err`, or the trimmed input after both fail. It panics iff the file reader panics, or both sources fail and standard input cannot be read. |
| `MacroEnv.Expand` | src/lib.rs:14-43 | `File` returns iff the file lookup succeeds, and then the file's value; it turns exactly the reader's `Err` into a panic and passes the reader's own panics on. `System` returns iff the variable is set, with its stored value. `Input` returns iff the line could be read, and then the trimmed line. `All` and the bare literal give the `ResolveAll` outcome. |
| `MacroEnv.LiteralIsAll` | src/main.rs:40-52 | `macro_env!("NAME")` and `macro_env!(All, "NAME")` give the same outcome. |
| `MacroEnv.FileShortCircuits` | src/lib.rs:25-27 | When the file lookup succeeds, `All` returns the file's value, whatever the environment and standard input hold. |
| `MacroEnv.SystemBeforeInput` | src/lib.rs:28-29 | After a file `Err`, a set variable decides the result, whatever standard input holds. |
| `MacroEnv.InputLast` | src/main.rs:33-38 | After a file `Err` with the variable unset, `All` behaves exactly like the `Input` arm. |
| `MacroEnv.TokenFromFile` | src/main.rs:28-30 | A `.env` whose only line is `TOKEN=abc123` resolves `TOKEN` to `abc123` in every environment. |
| `MacroEnv.FallThroughToInput` | src/lib.rs:30-31 | An empty `.env` and an unset variable give the trimmed typed line. |

## Left out

- Reading `.env`: the file is given either as `Unopenable` (any `File::open` failure) or as the finite sequence of line reads that `BufRead::lines` yields before end-of-file. Byte decoding, line splitting and CR/LF handling are not modelled.
- A `.env` that opens but whose reads fail forever (a directory, on Linux) is not modelled: `Lines` then yields `Err` items without end, and the loop at src/main.rs:61-62 skips them, so the reader never returns. A finite sequence of line reads cannot express that hang.
- The prompt text written to standard output, and the blocking read: standard input is given as the one line read, with its terminator, or as a failed read.
- `std::env::var` is replaced by a `map<string, string>`, so the process environment is an input.
- `Sources.SystemReader`: `VarError::NotUnicode` is folded into `NotPresent`, because a map of strings cannot hold a non-Unicode value.
- `MacroEnv.ResolveAll`: the `else` branch of the `All` and bare-literal arms in src/lib.rs (lines 31 and 41) yields `input()`, which is a `Result` where a `String` is expected, so it does not type-check. The model gives it the behaviour of src/main.rs instead: `read_line(..).unwrap()` followed by `trim`.
- The `(Input, $timeout:literal::INTEGER)` pattern in src/lib.rs:21 is a compile-time form. Its run time is `input().unwrap()`, which is `MacroEnv.Prompt`. The timeout literal is unused.
- The `&str` versus `String` argument of `systemreader` (src/lib.rs:28-29) is a compile-time matter. The model passes a `string`.
- Panics are values (`Run.Panics`) rather than process termination. Unwinding and the panic messages are not modelled.
