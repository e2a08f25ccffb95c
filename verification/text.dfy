/** The two pieces of Rust's `str` API the crate relies on: `trim` (over
    `char::is_whitespace`) and `splitn(2, sep)`. */
module Text {
  import opened Outcomes

  /** The characters with the Unicode White_Space property. */
  const WhitespaceChars: set<char> := {
    '\t', '\n', '\U{000B}', '\U{000C}', '\r', ' ', '\U{0085}', '\U{00A0}', '\U{1680}',
    '\U{2000}', '\U{2001}', '\U{2002}', '\U{2003}', '\U{2004}', '\U{2005}', '\U{2006}',
    '\U{2007}', '\U{2008}', '\U{2009}', '\U{200A}', '\U{2028}', '\U{2029}', '\U{202F}',
    '\U{205F}', '\U{3000}'
  }

  /** `char::is_whitespace`. */
  predicate IsWhitespace(c: char) {
    c in WhitespaceChars
  }

  predicate AllWhitespace(s: string) {
    forall i | 0 <= i < |s| :: IsWhitespace(s[i])
  }

  /** Neither end of `s` is whitespace. */
  predicate IsTrimmed(s: string) {
    s == [] || (!IsWhitespace(s[0]) && !IsWhitespace(s[|s| - 1]))
  }

  /** `s` is `m` with whitespace added on both sides. */
  ghost predicate IsPaddingOf(s: string, m: string) {
    exists lead, trail | AllWhitespace(lead) && AllWhitespace(trail) :: s == lead + m + trail
  }

  /** `str::trim_start`: drops the longest whitespace prefix. */
  function TrimStart(s: string): (r: string)
    ensures |r| <= |s| && r == s[|s| - |r|..]
    ensures AllWhitespace(s[..|s| - |r|])
    ensures r == [] || !IsWhitespace(r[0])
  {
    if |s| == 0 || !IsWhitespace(s[0]) then s
    else
      var r := TrimStart(s[1..]);
      assert s[..|s| - |r|] == [s[0]] + s[1..][..|s[1..]| - |r|];
      r
  }

  /** `str::trim_end`: drops the longest whitespace suffix. */
  function TrimEnd(s: string): (r: string)
    ensures |r| <= |s| && r == s[..|r|]
    ensures AllWhitespace(s[|r|..])
    ensures r == [] || !IsWhitespace(r[|r| - 1])
  {
    if |s| == 0 || !IsWhitespace(s[|s| - 1]) then s
    else
      var r := TrimEnd(s[..|s| - 1]);
      assert s[|r|..] == s[..|s| - 1][|r|..] + [s[|s| - 1]];
      r
  }

  /** `str::trim`: `s` with its whitespace prefix and suffix removed. */
  function Trim(s: string): (r: string)
    ensures IsTrimmed(r)
    ensures IsPaddingOf(s, r)
  {
    TrimBothEndsTrimmed(s);
    TrimBothEndsPadding(s);
    TrimEnd(TrimStart(s))
  }

  /** Trimming the front and then the back leaves no whitespace at either end. */
  lemma TrimBothEndsTrimmed(s: string)
    ensures IsTrimmed(TrimEnd(TrimStart(s)))
  {
    var m := TrimStart(s);
    var r := TrimEnd(m);
    assert r != [] ==> r[0] == m[0];
  }

  /** Trimming the front and then the back only removes surrounding whitespace. */
  lemma TrimBothEndsPadding(s: string)
    ensures IsPaddingOf(s, TrimEnd(TrimStart(s)))
  {
    var m := TrimStart(s);
    PaddingOfParts(s, m, TrimEnd(m));
  }

  /** Dropping a whitespace prefix and then a whitespace suffix leaves a middle part. */
  lemma PaddingOfParts(s: string, m: string, r: string)
    requires |m| <= |s| && m == s[|s| - |m|..] && AllWhitespace(s[..|s| - |m|])
    requires |r| <= |m| && r == m[..|r|] && AllWhitespace(m[|r|..])
    ensures IsPaddingOf(s, r)
  {
    var lead, trail := s[..|s| - |m|], m[|r|..];
    assert s == lead + m;
    assert m == r + trail;
    assert s == lead + r + trail;
  }

  /** Whitespace in front of `x` does not change `trim_start`. */
  lemma {:induction false} TrimStartSkipsLead(lead: string, x: string)
    requires AllWhitespace(lead)
    ensures TrimStart(lead + x) == TrimStart(x)
  {
    if lead == [] {
      assert lead + x == x;
    } else {
      assert (lead + x)[1..] == lead[1..] + x;
      TrimStartSkipsLead(lead[1..], x);
    }
  }

  /** Whitespace behind `x` does not change `trim_end`. */
  lemma {:induction false} TrimEndSkipsTrail(x: string, trail: string)
    requires AllWhitespace(trail)
    ensures TrimEnd(x + trail) == TrimEnd(x)
    decreases |trail|
  {
    if trail == [] {
      assert x + trail == x;
    } else {
      var t := trail[..|trail| - 1];
      assert (x + trail)[..|x + trail| - 1] == x + t;
      TrimEndSkipsTrail(x, t);
    }
  }

  /** `trim` is determined by the decomposition of its input: whatever trimmed middle
      is surrounded by whitespace is exactly what `trim` returns. */
  lemma TrimUnique(lead: string, m: string, trail: string)
    requires AllWhitespace(lead) && AllWhitespace(trail) && IsTrimmed(m)
    ensures Trim(lead + m + trail) == m
  {
    assert lead + m + trail == lead + (m + trail);
    TrimStartSkipsLead(lead, m + trail);
    if m == [] {
      assert m + trail == trail;
      assert TrimStart(trail) == [];
    } else {
      assert (m + trail)[0] == m[0];
      assert TrimStart(m + trail) == m + trail;
      TrimEndSkipsTrail(m, trail);
    }
  }

  /** Trimming a trimmed string changes nothing. */
  lemma TrimIdempotent(s: string)
    ensures Trim(Trim(s)) == Trim(s)
  {
    var r := Trim(s);
    assert [] + r + [] == r;
    TrimUnique([], r, []);
  }

  /** The line "  hello \n" reads as "hello". */
  lemma TrimExample()
    ensures Trim("  hello \n") == "hello"
  {
    assert "  hello \n" == "  " + "hello" + " \n";
    TrimUnique("  ", "hello", " \n");
  }

  /** Position of the first `c` in `s`, if any. */
  function IndexOf(s: string, c: char): (r: Option<nat>)
    ensures r.None? <==> c !in s
    ensures r.Some? ==> r.value < |s| && s[r.value] == c && c !in s[..r.value]
  {
    if |s| == 0 then None
    else if s[0] == c then Some(0)
    else match IndexOf(s[1..], c)
      case None => None
      case Some(i) =>
        assert s[..i + 1] == [s[0]] + s[1..][..i];
        Some(i + 1)
  }

  /** `s.splitn(2, sep)`: the whole string when `sep` does not occur, otherwise the part
      before the first `sep` and everything after it. */
  function SplitOnce(s: string, sep: char): (parts: seq<string>)
    ensures |parts| == 1 || |parts| == 2
    ensures |parts| == 1 <==> sep !in s
    ensures |parts| == 1 ==> parts[0] == s
    ensures |parts| == 2 ==> sep !in parts[0] && s == parts[0] + [sep] + parts[1]
  {
    match IndexOf(s, sep)
    case None => [s]
    case Some(i) =>
      assert s == s[..i] + [sep] + s[i + 1..];
      [s[..i], s[i + 1..]]
  }

  /** Splitting undoes joining at a separator that does not occur in the first part;
      the second part may contain the separator. */
  lemma SplitOnceJoin(a: string, sep: char, b: string)
    requires sep !in a
    ensures SplitOnce(a + [sep] + b, sep) == [a, b]
  {
    var s := a + [sep] + b;
    var parts := SplitOnce(s, sep);
    assert s[|a|] == sep;
    assert |parts| == 2;
    var p := parts[0];
    assert p == s[..|a|] == a;
    assert parts[1] == s[|a| + 1..] == b;
  }
}
