/** The `.env` reader: `envreader` (src/main.rs) and `dotenvreader` (src/lib.rs), two
    copies of the same code. The file's contents come in as the sequence of line reads
    `BufRead::lines` produces; opening the file is the only I/O left, as `EnvFile`. */
module DotEnv {
  import opened Outcomes
  import opened Text

  /** The `.env` file in the working directory: one that `File::open` fails on (absent,
      unreadable, ...), or the finite sequence of line reads `BufRead::lines` yields
      before end-of-file. */
  datatype EnvFile = Unopenable | Opened(lines: seq<Line>)

  const Quote: char := '"'

  /** `line` is `name=value` with a non-empty value, and `name` holds no `=` (otherwise
      splitting at the first `=` would cut `name` itself). */
  predicate Assigns(line: string, name: string) {
    && '=' !in name
    && |name| + 1 < |line|
    && line[..|name|] == name
    && line[|name|] == '='
  }

  /** A line that was read but does not assign `name`: it ends the lookup. */
  predicate Rejects(l: Line, name: string) {
    l.Read? && !Assigns(l.text, name)
  }

  /** `i` is the last line that was read. */
  predicate IsLastRead(lines: seq<Line>, i: int) {
    && 0 <= i < |lines|
    && lines[i].Read?
    && forall k | i < k < |lines| :: lines[k].Unreadable?
  }

  /** The condition of one iteration: `line.splitn(2, '=')` must give two parts, the first equal
      to `name`, the second non-empty; the second part is then the new token.
      (src/main.rs:63-65, src/lib.rs:55-57) */
  function MatchLine(line: string, name: string): (r: Option<string>)
    ensures r.Some? <==> Assigns(line, name)
    ensures r.Some? ==> r.value == line[|name| + 1..]
  {
    var parts := SplitOnce(line, '=');
    if |parts| == 2 && parts[0] == name && parts[1] != "" then
      assert line[..|name|] == name;
      Some(parts[1])
    else
      None
  }

  /** The final unquoting: when the token both ends and starts with `"`, `pop` drops the
      last character and `remove(0)` the first; on the token `"` alone `pop` leaves the
      empty string and `remove(0)` panics, shown here as `None`.
      (src/main.rs:82-85, src/lib.rs:74-77) */
  function StripQuotes(token: string): (r: Option<string>)
    ensures r.None? <==> token == [Quote]
    ensures r.Some? ==> token == r.value || token == [Quote] + r.value + [Quote]
  {
    if |token| > 0 && token[|token| - 1] == Quote && token[0] == Quote then
      if |token| == 1 then None else Some(token[1..|token| - 1])
    else
      Some(token)
  }

  /** Exactly one pair of surrounding quotes goes, and what they enclose comes back
      unchanged, inner quotes and the empty string included. */
  lemma QuotedRoundTrip(v: string)
    ensures StripQuotes([Quote] + v + [Quote]) == Some(v)
  {
    var t := [Quote] + v + [Quote];
    assert t[1..|t| - 1] == v;
  }

  /** A token that is not wrapped in quotes at both ends is returned as it is. */
  lemma UnquotedUnchanged(t: string)
    requires !(|t| > 0 && t[0] == Quote && t[|t| - 1] == Quote)
    ensures StripQuotes(t) == Some(t)
  {
  }

  /** How the line loop ends. */
  datatype ScanEnd = Aborted | Finished(token: string)

  /** The `for line in reader.lines()` loop from the current `token` on: an unreadable
      line is skipped, a line assigning `name` overwrites the token, any other read line
      returns at once. (src/main.rs:61-73, src/lib.rs:53-65) */
  function Scan(lines: seq<Line>, name: string, token: string): (r: ScanEnd)
    ensures r.Aborted? <==> exists k | 0 <= k < |lines| :: Rejects(lines[k], name)
    ensures r.Finished? ==> r.token == token || r.token != ""
    ensures r.Finished? && (exists k | 0 <= k < |lines| :: lines[k].Read?) ==> r.token != ""
    ensures (forall k | 0 <= k < |lines| :: lines[k].Unreadable?) ==> r == Finished(token)
    decreases |lines|
  {
    if |lines| == 0 then Finished(token)
    else
      assert forall k | 1 <= k < |lines| :: lines[k] == lines[1..][k - 1];
      match lines[0]
      case Unreadable => Scan(lines[1..], name, token)
      case Read(text) =>
        match MatchLine(text, name)
        case Some(v) => Scan(lines[1..], name, v)
        case None => Aborted
  }

  /** The body of `envreader` / `dotenvreader` after the file is open.
      (src/main.rs:58-87, src/lib.rs:50-79) */
  function ReadEnvFile(lines: seq<Line>, name: string): (r: Run<Result<string, FileError>>)
    ensures r == Returns(Err(RejectedLine)) <==> exists k | 0 <= k < |lines| :: Rejects(lines[k], name)
    ensures r == Returns(Err(NoValue)) <==> forall k | 0 <= k < |lines| :: lines[k].Unreadable?
    ensures r.Panics? ==> r.cause == LoneQuote
    ensures r.Returns? && r.value.Ok? ==>
              forall k | 0 <= k < |lines| && lines[k].Read? :: Assigns(lines[k].text, name)
  {
    match Scan(lines, name, "")
    case Aborted => Returns(Err(RejectedLine))
    case Finished(token) =>
      if token == "" then Returns(Err(NoValue))
      else
        match StripQuotes(token)
        case None => Panics(LoneQuote)
        case Some(value) => Returns(Ok(value))
  }

  /** `envreader` / `dotenvreader`: `File::open(".env").unwrap()` panics when the file
      cannot be opened; otherwise the lines decide. (src/main.rs:55-57, src/lib.rs:47-49) */
  function EnvReader(file: EnvFile, name: string): (r: Run<Result<string, FileError>>)
    ensures r == Panics(EnvFileOpenFailed) <==> file.Unopenable?
    ensures file.Opened? ==> r == ReadEnvFile(file.lines, name)
  {
    match file
    case Unopenable => Panics(EnvFileOpenFailed)
    case Opened(lines) => ReadEnvFile(lines, name)
  }

  /** When no line rejects, the loop ends with the value of the last line read. */
  lemma {:induction false} ScanLastRead(lines: seq<Line>, name: string, token: string, i: int)
    requires IsLastRead(lines, i)
    requires forall k | 0 <= k < |lines| :: !Rejects(lines[k], name)
    ensures Assigns(lines[i].text, name)
    ensures Scan(lines, name, token) == Finished(lines[i].text[|name| + 1..])
    decreases |lines|
  {
    var rest := lines[1..];
    assert forall k | 0 <= k < |rest| :: rest[k] == lines[k + 1];
    if i == 0 {
      assert Assigns(lines[0].text, name);
      assert forall k | 0 <= k < |rest| :: rest[k].Unreadable?;
    } else {
      assert IsLastRead(rest, i - 1);
      ScanLastRead(rest, name, if lines[0].Read? then lines[0].text[|name| + 1..] else token, i - 1);
    }
  }

  /** The last assignment wins: when every read line assigns `name`, the reader returns
      the unquoted value of the last line read (or panics on a lone `"`). */
  lemma LastAssignmentWins(lines: seq<Line>, name: string, i: int)
    requires IsLastRead(lines, i)
    requires forall k | 0 <= k < |lines| && lines[k].Read? :: Assigns(lines[k].text, name)
    ensures Assigns(lines[i].text, name)
    ensures var v := lines[i].text[|name| + 1..];
            ReadEnvFile(lines, name) == match StripQuotes(v)
                                        case None => Panics(LoneQuote)
                                        case Some(u) => Returns(Ok(u))
  {
    ScanLastRead(lines, name, "", i);
  }

  /** An unreadable line neither accepts nor rejects: it is as if it were not there. */
  lemma {:induction false} ScanSkipsUnreadable(a: seq<Line>, b: seq<Line>, name: string, token: string)
    ensures Scan(a + [Unreadable] + b, name, token) == Scan(a + b, name, token)
    decreases |a|
  {
    if a == [] {
      assert a + [Unreadable] + b == [Unreadable] + b;
      assert ([Unreadable] + b)[1..] == b;
      assert a + b == b;
    } else {
      assert (a + [Unreadable] + b)[0] == a[0];
      assert (a + [Unreadable] + b)[1..] == a[1..] + [Unreadable] + b;
      assert (a + b)[0] == a[0];
      assert (a + b)[1..] == a[1..] + b;
      match a[0]
      case Unreadable =>
        ScanSkipsUnreadable(a[1..], b, name, token);
      case Read(text) =>
        if MatchLine(text, name).Some? {
          ScanSkipsUnreadable(a[1..], b, name, MatchLine(text, name).value);
        }
    }
  }

  /** Lines that fail to read are skipped by the whole reader. */
  lemma UnreadableLineIgnored(a: seq<Line>, b: seq<Line>, name: string)
    ensures ReadEnvFile(a + [Unreadable] + b, name) == ReadEnvFile(a + b, name)
  {
    ScanSkipsUnreadable(a, b, name, "");
  }

  /** A one-line file `name=value` yields the value, unquoted; the value may itself
      contain `=`. */
  lemma SingleAssignment(name: string, v: string)
    requires '=' !in name && v != "" && v != [Quote]
    ensures ReadEnvFile([Read(name + "=" + v)], name) == Returns(Ok(StripQuotes(v).value))
  {
    var line := name + "=" + v;
    assert line[..|name|] == name && line[|name| + 1..] == v;
    LastAssignmentWins([Read(line)], name, 0);
  }

  /** Writing `name="value"` and reading `name` gives back `value` exactly; `name=""`
      gives the empty string. */
  lemma QuotedAssignmentRoundTrip(name: string, v: string)
    requires '=' !in name
    ensures ReadEnvFile([Read(name + "=" + [Quote] + v + [Quote])], name) == Returns(Ok(v))
  {
    var line := name + "=" + [Quote] + v + [Quote];
    assert line[..|name|] == name && line[|name| + 1..] == [Quote] + v + [Quote];
    LastAssignmentWins([Read(line)], name, 0);
    QuotedRoundTrip(v);
  }

  /** A name containing `=` is never found: every read line rejects it. */
  lemma NameWithEqualsNotFound(lines: seq<Line>, name: string, k: int)
    requires '=' in name
    requires 0 <= k < |lines| && lines[k].Read?
    ensures ReadEnvFile(lines, name) == Returns(Err(RejectedLine))
  {
    assert Rejects(lines[k], name);
  }

  /** Another variable on the second line hides the first line's match. */
  lemma OtherVariableAborts()
    ensures ReadEnvFile([Read("TOKEN=abc123"), Read("OTHER=x")], "TOKEN") == Returns(Err(RejectedLine))
  {
    assert Rejects([Read("TOKEN=abc123"), Read("OTHER=x")][1], "TOKEN") by {
      assert "OTHER=x"[..5][0] != "TOKEN"[0];
    }
  }
}
