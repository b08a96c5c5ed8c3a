/** The Python string operations the modelled code relies on. */
module Text {
  import opened Wrappers

  predicate StartsWith(s: string, prefix: string) {
    prefix <= s
  }

  predicate EndsWith(s: string, suffix: string) {
    |suffix| <= |s| && s[|s| - |suffix|..] == suffix
  }

  predicate OccursAt(s: string, sub: string, i: nat) {
    i + |sub| <= |s| && s[i..i + |sub|] == sub
  }

  /** `s.find(sub, from)`: where `sub` first occurs at or after `from`. */
  function Find(s: string, sub: string, from: nat): (r: Option<nat>)
    requires from <= |s|
    ensures r.Some? ==> from <= r.value && OccursAt(s, sub, r.value)
    ensures forall i | from <= i && OccursAt(s, sub, i) :: r.Some? && r.value <= i
    decreases |s| - from
  {
    if OccursAt(s, sub, from) then Some(from)
    else if from == |s| then None
    else Find(s, sub, from + 1)
  }

  predicate Contains(s: string, sub: string) {
    Find(s, sub, 0).Some?
  }

  /** `s.split(sep)` for a non-empty separator. */
  function Split(s: string, sep: string): (r: seq<string>)
    requires sep != []
    ensures r != []
    decreases |s|
  {
    match Find(s, sep, 0)
    case None => [s]
    case Some(i) => [s[..i]] + Split(s[i + |sep|..], sep)
  }

  /** `s.split(sep, 1)[0]`. */
  function Before(s: string, sep: string): (r: string)
    ensures r <= s
  {
    match Find(s, sep, 0)
    case None => s
    case Some(i) => s[..i]
  }

  /** `sep.join(parts)`. */
  function Join(parts: seq<string>, sep: string): string {
    if parts == [] then ""
    else if |parts| == 1 then parts[0]
    else parts[0] + sep + Join(parts[1..], sep)
  }

  /** The characters that Python strips: those with `str.isspace`. */
  predicate IsSpace(c: char) {
    || c == ' ' || '\t' <= c <= '\r' || '\U{1C}' <= c <= '\U{1F}' || c == '\U{85}' || c == '\U{A0}' || c == '\U{1680}'
    || '\U{2000}' <= c <= '\U{200A}' || '\U{2028}' <= c <= '\U{2029}' || c == '\U{202F}' || c == '\U{205F}'
        || c == '\U{3000}'
  }

  /** The characters at which `str.splitlines` splits. */
  predicate IsBreak(c: char) {
    || '\n' <= c <= '\r' || '\U{1C}' <= c <= '\U{1E}' || c == '\U{85}' || '\U{2028}' <= c <= '\U{2029}'
  }

  predicate OneLine(s: string) {
    forall c | c in s :: !IsBreak(c)
  }

  function FirstBreak(s: string): (i: nat)
    ensures i <= |s| && OneLine(s[..i]) && (i < |s| ==> IsBreak(s[i]))
  {
    if s == [] || IsBreak(s[0]) then 0
    else
      var i := 1 + FirstBreak(s[1..]);
      assert s[..i] == [s[0]] + s[1..][..i - 1];
      i
  }

  /** `s.splitlines()`; a carriage return and a newline together end one line. */
  function SplitLines(s: string): (r: seq<string>)
    ensures forall l | l in r :: OneLine(l)
    decreases |s|
  {
    if s == [] then []
    else
      var i := FirstBreak(s);
      if i == |s| then [s]
      else
        var next := if s[i] == '\r' && i + 1 < |s| && s[i + 1] == '\n' then i + 2 else i + 1;
        [s[..i]] + SplitLines(s[next..])
  }

  /** Every line, ended by a newline. */
  function Unlines(lines: seq<string>): string {
    if lines == [] then "" else lines[0] + "\n" + Unlines(lines[1..])
  }

  function StripLeft(s: string): (r: string)
    ensures |r| <= |s|
    ensures r == [] || !IsSpace(r[0])
    ensures s == [] || !IsSpace(s[0]) ==> r == s
  {
    if s != [] && IsSpace(s[0]) then StripLeft(s[1..]) else s
  }

  function StripRight(s: string): (r: string)
    ensures r <= s
    ensures r == [] || !IsSpace(r[|r| - 1])
    ensures s == [] || !IsSpace(s[|s| - 1]) ==> r == s
  {
    if s != [] && IsSpace(s[|s| - 1]) then StripRight(s[..|s| - 1]) else s
  }

  /** `s.strip()`. */
  function Strip(s: string): (r: string)
    ensures |r| <= |s|
    ensures r == [] || (!IsSpace(r[0]) && !IsSpace(r[|r| - 1]))
    ensures s == [] || (!IsSpace(s[0]) && !IsSpace(s[|s| - 1])) ==> r == s
  {
    StripRight(StripLeft(s))
  }

  predicate IsLowerHex(s: string) {
    forall c | c in s :: '0' <= c <= '9' || 'a' <= c <= 'f'
  }

  predicate IsSha256(s: string) {
    |s| == 64 && IsLowerHex(s)
  }

  predicate AllDigits(s: string) {
    s != [] && forall c | c in s :: '0' <= c <= '9'
  }

  const HEX := "0123456789abcdef"

  lemma HexDigits(s: string)
    ensures IsLowerHex(s) <==> forall c | c in s :: c in HEX
    ensures IsSha256(s) <==> |s| == 64 && forall c | c in s :: c in HEX
  {
    forall c: char ensures c in HEX <==> '0' <= c <= '9' || 'a' <= c <= 'f' {
      if '0' <= c <= '9' { assert HEX[(c - '0') as int] == c; }
      if 'a' <= c <= 'f' { assert HEX[10 + (c - 'a') as int] == c; }
    }
  }

  lemma EndsWithMeans(s: string, suffix: string)
    ensures EndsWith(s, suffix) <==> exists front :: s == front + suffix
  {
    if EndsWith(s, suffix) { assert s == s[..|s| - |suffix|] + suffix; }
  }

  // ----- Facts about splitting -----

  lemma OccursHead(s: string, sub: string, i: nat)
    requires sub != [] && OccursAt(s, sub, i)
    ensures s[i] == sub[0]
  {
    assert s[i] == s[i..i + |sub|][0];
  }

  /** The first separator in `a + sep + b` is the one after `a`, when `a` has no `sep[0]`. */
  lemma FindFirst(a: string, sep: string, b: string)
    requires sep != [] && sep[0] !in a
    ensures Find(a + sep + b, sep, 0) == Some(|a|)
  {
    var s := a + sep + b;
    assert OccursAt(s, sep, |a|);
    OccursHead(s, sep, Find(s, sep, 0).value);
  }

  lemma FindNone(a: string, sep: string)
    requires sep != [] && sep[0] !in a
    ensures Find(a, sep, 0) == None
  {
    var r := Find(a, sep, 0);
    if r.Some? { OccursHead(a, sep, r.value); }
  }

  /** What comes before a separator is cut off at its first occurrence, and nothing is cut without one. */
  lemma BeforeFirst(s: string, sep: string, i: nat)
    requires sep != [] && OccursAt(s, sep, i) && forall j | 0 <= j < i :: !OccursAt(s, sep, j)
    ensures Before(s, sep) == s[..i]
  {
  }

  lemma BeforeNothing(s: string, sep: string)
    requires forall i: nat :: !OccursAt(s, sep, i)
    ensures Before(s, sep) == s
  {
  }

  lemma SplitCons(a: string, sep: string, b: string)
    requires sep != [] && sep[0] !in a
    ensures Split(a + sep + b, sep) == [a] + Split(b, sep)
  {
    FindFirst(a, sep, b);
    var s := a + sep + b;
    assert s[..|a|] == a && s[|a| + |sep|..] == b;
  }

  lemma SplitNone(a: string, sep: string)
    requires sep != [] && sep[0] !in a
    ensures Split(a, sep) == [a]
  {
    FindNone(a, sep);
  }

  /** Splitting undoes joining when no part contains the separator's first character. */
  lemma {:induction false} SplitJoin(parts: seq<string>, sep: string)
    requires sep != [] && parts != [] && forall p | p in parts :: sep[0] !in p
    ensures Split(Join(parts, sep), sep) == parts
  {
    if |parts| == 1 {
      SplitNone(parts[0], sep);
    } else {
      SplitCons(parts[0], sep, Join(parts[1..], sep));
      SplitJoin(parts[1..], sep);
    }
  }

  /** Joining undoes splitting. */
  lemma {:induction false} JoinSplit(s: string, sep: string)
    requires sep != []
    ensures Join(Split(s, sep), sep) == s
    decreases |s|
  {
    match Find(s, sep, 0)
    case None =>
    case Some(i) =>
      var rest := Split(s[i + |sep|..], sep);
      assert ([s[..i]] + rest)[1..] == rest;
      JoinSplit(s[i + |sep|..], sep);
      assert s == s[..i] + s[i..i + |sep|] + s[i + |sep|..];
  }

  lemma OccursSingle(s: string, sep: string, i: nat)
    requires |sep| == 1 && i < |s|
    ensures OccursAt(s, sep, i) <==> s[i] == sep[0]
  {
  }

  /** The parts of a split are pieces of the text without the separator. */
  lemma {:induction false} SplitParts(s: string, sep: string)
    requires |sep| == 1
    ensures forall p | p in Split(s, sep) :: sep[0] !in p && forall c | c in p :: c in s
    decreases |s|
  {
    match Find(s, sep, 0)
    case None =>
      forall i | 0 <= i < |s| ensures s[i] != sep[0] {
        OccursSingle(s, sep, i);
      }
    case Some(i) =>
      SplitParts(s[i + |sep|..], sep);
      forall j | 0 <= j < i ensures s[j] != sep[0] {
        OccursSingle(s, sep, j);
      }
  }

  lemma {:induction false} StripLeftPart(s: string)
    ensures forall c | c in StripLeft(s) :: c in s
  {
    if s != [] && IsSpace(s[0]) { StripLeftPart(s[1..]); }
  }

  lemma StripPart(s: string)
    ensures forall c | c in Strip(s) :: c in s
  {
    StripLeftPart(s);
  }

  lemma {:induction false} StripLeftSpaces(a: string, s: string)
    requires (forall c | c in a :: IsSpace(c)) && (s == "" || !IsSpace(s[0]))
    ensures StripLeft(a + s) == s
  {
    if a == "" {
      assert a + s == s;
    } else {
      assert (a + s)[0] == a[0] && a[0] in a && (a + s)[1..] == a[1..] + s;
      StripLeftSpaces(a[1..], s);
    }
  }

  lemma {:induction false} StripRightSpaces(s: string, b: string)
    requires (forall c | c in b :: IsSpace(c)) && (s == "" || !IsSpace(s[|s| - 1]))
    ensures StripRight(s + b) == s
  {
    if b == "" {
      assert s + b == s;
    } else {
      var n := |b| - 1;
      assert (s + b)[|s + b| - 1] == b[n] && b[n] in b && (s + b)[..|s + b| - 1] == s + b[..n];
      StripRightSpaces(s, b[..n]);
    }
  }

  /** Stripping removes white space around a text, and only that. */
  lemma StripSpaces(a: string, s: string, b: string)
    requires (forall c | c in a :: IsSpace(c)) && forall c | c in b :: IsSpace(c)
    requires s != "" && !IsSpace(s[0]) && !IsSpace(s[|s| - 1])
    ensures Strip(a + s + b) == s
  {
    assert a + s + b == a + (s + b);
    StripLeftSpaces(a, s + b);
    StripRightSpaces(s, b);
  }

  // ----- Facts about lines -----

  lemma {:induction false} FirstBreakAt(line: string, rest: string)
    requires OneLine(line) && rest != "" && IsBreak(rest[0])
    ensures FirstBreak(line + rest) == |line|
  {
    if line != [] {
      assert (line + rest)[1..] == line[1..] + rest && (line + rest)[0] == line[0] && line[0] in line;
      FirstBreakAt(line[1..], rest);
    } else {
      assert line + rest == rest;
    }
  }

  /** Every break ends a line; a carriage return and a newline end one line together. */
  lemma SplitAtBreak(line: string, b: string, rest: string)
    requires OneLine(line)
    requires b == "\r\n" || (|b| == 1 && IsBreak(b[0]) && !(b == "\r" && rest != "" && rest[0] == '\n'))
    ensures SplitLines(line + b + rest) == [line] + SplitLines(rest)
  {
    var s := line + b + rest;
    assert s == line + (b + rest);
    FirstBreakAt(line, b + rest);
    assert s[..|line|] == line && s[|line| + |b|..] == rest;
    assert s[|line|] == b[0];
    if |line| + 1 < |s| { assert s[|line| + 1] == (b + rest)[1]; }
  }

  lemma {:induction false} FirstBreakAfter(line: string, rest: string)
    requires OneLine(line)
    ensures FirstBreak(line + "\n" + rest) == |line|
  {
    var s := line + "\n" + rest;
    if line != [] {
      assert s[1..] == line[1..] + "\n" + rest && s[0] == line[0] && line[0] in line;
      FirstBreakAfter(line[1..], rest);
    }
  }

  /** Splitting a text of whole lines gives the lines back. */
  lemma {:induction false} SplitUnlines(lines: seq<string>)
    requires forall l | l in lines :: OneLine(l)
    ensures SplitLines(Unlines(lines)) == lines
  {
    if lines != [] {
      var line, rest := lines[0], Unlines(lines[1..]);
      var s := line + "\n" + rest;
      FirstBreakAfter(line, rest);
      assert s[|line|] == '\n' && s[..|line|] == line && s[|line| + 1..] == rest;
      SplitUnlines(lines[1..]);
    }
  }
}
