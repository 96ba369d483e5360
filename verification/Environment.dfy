/**
 The environment file of the agent: the reader the daemon's tool uses, and the
 redactor of the support bundle, which parses the same file by other rules. The
 main result is that redacting and reading commute.
 */
module Environment {
  import opened Optional
  import opened Text

  const REDACTED := "[redacted]"

  /** The buffer of the reader's line scanner. */
  const SCAN_BUFFER: nat := 0x1_0000

  predicate Commented(trimmed: string) {
    trimmed == [] || trimmed[0] == '#' || trimmed[0] == ';'
  }

  // ----- the reader -----

  /** A value between two equal quotes is the text between them. */
  function Unquoted(value: string): string {
    if |value| >= 2 && (value[0] == '"' || value[0] == '\'') && value[|value| - 1] == value[0]
    then value[1..|value| - 1] else value
  }

  /** The text cut at its first equals sign. */
  function CutAssignment(text: string): Option<(string, string)> {
    var cut := IndexOf(text, '=');
    if cut == |text| then None
    else Some((TrimSpace(text[..cut]), Unquoted(TrimSpace(text[cut + 1..]))))
  }

  /** One trimmed line: a key and its value, or nothing. */
  function ReadTrimmed(trimmed: string): Option<(string, string)> {
    if Commented(trimmed) then None
    else CutAssignment(if "export " <= trimmed then trimmed[7..] else trimmed)
  }

  function ReadLine(line: string): Option<(string, string)> {
    ReadTrimmed(TrimSpace(line))
  }

  /** The variables of the lines; a later line replaces an earlier one. */
  function ReadLines(lines: seq<string>): map<string, string> {
    if lines == [] then map[]
    else
      var before := ReadLines(lines[..|lines| - 1]);
      var read := ReadLine(lines[|lines| - 1]);
      if read.None? then before else before[read.value.0 := read.value.1]
  }

  /** None is the scanner's error for a line its buffer cannot hold. */
  function Read(content: string): Option<map<string, string>> {
    match ScanLines(content, SCAN_BUFFER)
    case None => None
    case Some(lines) => Some(ReadLines(lines))
  }

  method ReadEnvironment(content: string) returns (values: Option<map<string, string>>)
    ensures values == Read(content)
  {
    hide ReadLine, ScanLines;
    var scanned := ScanLines(content, SCAN_BUFFER);
    if scanned.None? {
      return None;
    }
    var lines := scanned.value;
    var found: map<string, string> := map[];
    for i := 0 to |lines|
      invariant found == ReadLines(lines[..i])
    {
      assert lines[..i + 1][..i] == lines[..i];
      var read := ReadLine(lines[i]);
      if read.Some? {
        found := found[read.value.0 := read.value.1];
      }
    }
    assert lines[..|lines|] == lines;
    values := Some(found);
  }

  // ----- the assignment expression -----

  predicate NameStart(c: char) {
    'A' <= c <= 'Z' || 'a' <= c <= 'z' || c == '_'
  }

  predicate NameChar(c: char) {
    NameStart(c) || '0' <= c <= '9'
  }

  predicate Blank(c: char) {
    c == ' ' || c == '\t'
  }

  predicate Identifier(name: string) {
    name != [] && NameStart(name[0]) && forall c | c in name :: NameChar(c)
  }

  /** The optional export group: the word and at least one blank. */
  predicate Exporting(lead: string) {
    lead == [] || (|lead| > 6 && lead[..6] == "export" && forall i | 6 <= i < |lead| :: Blank(lead[i]))
  }

  datatype Assignment = Assignment(lead: string, name: string)

  /** What it means for the expression to match: its groups and the equals sign open the line. */
  ghost predicate Matches(line: string, a: Assignment) {
    Exporting(a.lead) && Identifier(a.name) && a.lead + a.name + "=" <= line
  }

  function NameLen(s: string): (n: nat)
    ensures n <= |s|
    ensures forall i | 0 <= i < n :: NameChar(s[i])
    ensures n < |s| ==> !NameChar(s[n])
  {
    if s == [] || !NameChar(s[0]) then 0 else 1 + NameLen(s[1..])
  }

  function BlankLen(s: string): (n: nat)
    ensures n <= |s|
    ensures forall i | 0 <= i < n :: Blank(s[i])
    ensures n < |s| ==> !Blank(s[n])
  {
    if s == [] || !Blank(s[0]) then 0 else 1 + BlankLen(s[1..])
  }

  function NameMatch(s: string): Option<string> {
    var n := NameLen(s);
    if n > 0 && NameStart(s[0]) && n < |s| && s[n] == '=' then Some(s[..n]) else None
  }

  /** The matcher: the export group first, then the bare name. */
  function Match(line: string): Option<Assignment> {
    var blanks := if "export" <= line then BlankLen(line[6..]) else 0;
    if blanks > 0 && NameMatch(line[6 + blanks..]).Some? then
      Some(Assignment(line[..6 + blanks], NameMatch(line[6 + blanks..]).value))
    else
      match NameMatch(line)
      case None => None
      case Some(name) => Some(Assignment([], name))
  }

  lemma NameMatchIff(s: string, name: string)
    ensures NameMatch(s) == Some(name) <==> Identifier(name) && name + "=" <= s
  {
    if NameMatch(s) == Some(name) {
      assert name + "=" == s[..|name| + 1];
    }
    if Identifier(name) && name + "=" <= s {
      assert s[|name|] == '=';
      assert forall i | 0 <= i < |name| :: s[i] == name[i] && name[i] in name;
      assert NameLen(s) == |name|;
      assert s[..|name|] == name;
    }
  }

  /** The blanks after the word end where the name starts. */
  lemma LeadEnds(line: string, a: Assignment)
    requires Matches(line, a) && a.lead != []
    ensures "export" <= line && BlankLen(line[6..]) == |a.lead| - 6
    ensures a.lead == line[..|a.lead|] && a.name + "=" <= line[|a.lead|..]
  {
    var e := |a.lead|;
    assert a.lead + a.name + "=" == a.lead + (a.name + "=");
    assert a.lead == line[..e];
    assert line[e..][..|a.name| + 1] == a.name + "=";
    assert line[..6] == a.lead[..6];
    assert forall i | 0 <= i < e - 6 :: line[6..][i] == a.lead[6 + i];
    assert line[6..][e - 6] == line[e..][0] == a.name[0];
  }

  /** On a line that opens with the word and blanks, the group is those blanks and the name follows. */
  lemma LedMatches(line: string, a: Assignment)
    requires "export" <= line && BlankLen(line[6..]) > 0
    ensures var rest := line[6 + BlankLen(line[6..])..];
            Matches(line, a) <==> a.lead == line[..6 + BlankLen(line[6..])] && NameMatch(rest) == Some(a.name)
  {
    hide NameMatch, BlankLen, Identifier, Exporting;
    var n := BlankLen(line[6..]);
    var rest := line[6 + n..];
    NameMatchIff(rest, a.name);
    if Matches(line, a) {
      if a.lead == [] {
        assert a.lead + a.name + "=" == a.name + "=";
        NameMatchIff(line, a.name);
        LedIsNotBare(line);
        assert false;
      }
      LeadEnds(line, a);
    }
    if a.lead == line[..6 + n] && a.name + "=" <= rest && Identifier(a.name) {
      LeadOpens(line, a.lead);
      assert line == a.lead + rest;
      assert a.lead + a.name + "=" == a.lead + (a.name + "=");
    }
  }

  lemma LeadOpens(line: string, lead: string)
    requires "export" <= line && BlankLen(line[6..]) > 0 && lead == line[..6 + BlankLen(line[6..])]
    ensures Exporting(lead)
  {
    assert lead[..6] == line[..6];
    assert forall i | 6 <= i < |lead| :: lead[i] == line[6..][i - 6];
  }

  lemma UnledMatches(line: string, a: Assignment)
    requires "export" <= line ==> BlankLen(line[6..]) == 0
    ensures Matches(line, a) <==> a.lead == [] && NameMatch(line) == Some(a.name)
  {
    NameMatchIff(line, a.name);
    if a.lead == [] {
      assert a.lead + a.name + "=" == a.name + "=";
    }
    assert Matches(line, a) ==> a.lead <= line by {
      assert a.lead + a.name + "=" == a.lead + (a.name + "=");
    }
  }

  /** A bare name cannot run through the blank after the word. */
  lemma LedIsNotBare(line: string)
    requires "export" <= line && BlankLen(line[6..]) > 0
    ensures NameMatch(line).None?
  {
    assert Blank(line[6..][0]);
    assert line[6..][0] == line[6];
    assert forall i | 0 <= i < 6 :: line[i] == "export"[i];
    assert NameLen(line) == 6;
  }

  /** The matcher finds exactly what the expression describes. */
  lemma MatchIff(line: string, a: Assignment)
    ensures Match(line) == Some(a) <==> Matches(line, a)
  {
    if "export" <= line && BlankLen(line[6..]) > 0 {
      LedMatches(line, a);
      LedIsNotBare(line);
    } else {
      UnledMatches(line, a);
    }
  }

  // ----- the redactor -----

  datatype Verdict = Untouched | Hidden(a: Assignment) | Unknown

  /** What the redactor makes of one newline-separated part. */
  function Judge(part: string, secrets: set<string>): (verdict: Verdict)
    ensures verdict.Hidden? ==> verdict.a.name in secrets
  {
    var trimmed := TrimSpace(DropCR(part));
    if Commented(trimmed) then Untouched
    else
      match Match(trimmed)
      case None => Unknown
      case Some(a) => if a.name in secrets then Hidden(a) else Untouched
  }

  function HiddenLine(a: Assignment): string {
    a.lead + a.name + "=" + REDACTED
  }

  function RedactedPart(part: string, secrets: set<string>): string {
    var verdict := Judge(part, secrets);
    if verdict.Hidden? then HiddenLine(verdict.a) else part
  }

  function RedactedParts(parts: seq<string>, secrets: set<string>): seq<string> {
    seq(|parts|, i requires 0 <= i < |parts| => RedactedPart(parts[i], secrets))
  }

  predicate Accepted(parts: seq<string>, secrets: set<string>) {
    forall i | 0 <= i < |parts| :: !Judge(parts[i], secrets).Unknown?
  }

  /** None is the refusal of a file with a line of unknown shape. */
  function Redact(content: string, secrets: set<string>): Option<string> {
    var parts := Split(content, '\n');
    if Accepted(parts, secrets) then Some(Join(RedactedParts(parts, secrets), '\n')) else None
  }

  /** How many parts had the value of the variable hidden. */
  function HiddenCount(parts: seq<string>, secrets: set<string>, name: string): nat {
    if parts == [] then 0
    else
      var verdict := Judge(parts[|parts| - 1], secrets);
      HiddenCount(parts[..|parts| - 1], secrets, name)
      + if verdict.Hidden? && verdict.a.name == name then 1 else 0
  }

  method RedactEnvironment(content: string, keys: seq<string>)
    returns (out: Option<string>, dropped: map<string, nat>)
    ensures out == Redact(content, set k | k in keys)
    ensures out.Some? ==>
              && dropped.Keys <= (set k | k in keys)
              && (forall name: string ::
                    HiddenCount(Split(content, '\n'), (set k | k in keys), name)
                    == if name in dropped then dropped[name] else 0)
  {
    hide Judge, HiddenLine, Split, Join;
    var secrets := set k | k in keys;
    ghost var parts := Split(content, '\n');
    var lines := Split(content, '\n');
    dropped := map[];
    for number := 0 to |lines|
      invariant |lines| == |parts|
      invariant forall i | 0 <= i < number :: lines[i] == RedactedPart(parts[i], secrets)
      invariant forall i | number <= i < |parts| :: lines[i] == parts[i]
      invariant Accepted(parts[..number], secrets)
      invariant dropped.Keys <= secrets
      invariant forall name: string ::
          HiddenCount(parts[..number], secrets, name) == if name in dropped then dropped[name] else 0
    {
      assert parts[..number + 1][..number] == parts[..number];
      var verdict := Judge(lines[number], secrets);
      if verdict.Unknown? {
        return None, dropped;
      }
      if verdict.Hidden? {
        var a := verdict.a;
        lines := lines[number := HiddenLine(a)];
        dropped := dropped[a.name := (if a.name in dropped then dropped[a.name] else 0) + 1];
      }
    }
    assert parts[..|parts|] == parts;
    assert lines == RedactedParts(parts, secrets);
    out := Some(Join(lines, '\n'));
  }

  // ----- redacting commutes with reading -----

  /** The key the reader files an assignment under: only "export" and a space is taken off. */
  function KeyOf(a: Assignment): string {
    if |a.lead| > 6 && a.lead[6] == ' ' then a.name else a.lead + a.name
  }

  /** The variable a key of the reader stands for. */
  function VariableOf(key: string): string {
    match Match(key + "=")
    case None => key
    case Some(a) => a.name
  }

  lemma VariableOfKey(a: Assignment)
    requires Exporting(a.lead) && Identifier(a.name)
    ensures VariableOf(KeyOf(a)) == a.name
  {
    var spelled := if |a.lead| > 6 && a.lead[6] == ' ' then Assignment([], a.name) else a;
    assert spelled.lead + spelled.name == KeyOf(a);
    MatchIff(KeyOf(a) + "=", spelled);
  }

  /** An identifier stands for itself. */
  lemma VariableOfIdentifier(name: string)
    requires Identifier(name)
    ensures VariableOf(name) == name
  {
    VariableOfKey(Assignment([], name));
  }

  lemma NameCharIsTight(c: char)
    ensures NameChar(c) ==> !IsSpace(c)
    ensures Blank(c) ==> IsSpace(c)
  {
  }

  lemma CutsAt(text: string, i: nat)
    requires i < |text| && text[i] == '=' && '=' !in text[..i]
    ensures CutAssignment(text) == Some((TrimSpace(text[..i]), Unquoted(TrimSpace(text[i + 1..]))))
  {
    IndexOfAt(text, '=', i);
  }

  /** The part of an assignment before its equals sign, and what the reader trims it to. */
  lemma KeyTrims(a: Assignment)
    requires Exporting(a.lead) && Identifier(a.name)
    ensures '=' !in a.lead + a.name
    ensures |a.lead| > 6 && a.lead[6] == ' ' ==> TrimSpace(a.lead[7..] + a.name) == KeyOf(a)
    ensures !(|a.lead| > 6 && a.lead[6] == ' ') ==> TrimSpace(a.lead + a.name) == KeyOf(a)
  {
    assert forall c | c in a.name :: NameChar(c);
    assert forall i | 0 <= i < |a.lead| :: a.lead[i] == (if i < 6 then a.lead[..6][i] else a.lead[i]);
    NameCharIsTight(a.name[0]);
    NameCharIsTight(a.name[|a.name| - 1]);
    if |a.lead| > 6 && a.lead[6] == ' ' {
      TrimLeftSkips(a.lead[7..], a.name);
      TightTrims(a.name);
    } else {
      var key := a.lead + a.name;
      assert key[|key| - 1] == a.name[|a.name| - 1];
      assert key[0] == if a.lead == [] then a.name[0] else a.lead[..6][0];
      TightTrims(key);
    }
  }

  /** The reader's view of any trimmed line the redactor takes for an assignment. */
  lemma AssignmentReads(line: string, a: Assignment)
    requires Matches(line, a)
    ensures ReadTrimmed(line) == Some((KeyOf(a), Unquoted(TrimSpace(line[|a.lead| + |a.name| + 1..]))))
  {
    hide TrimSpace, Unquoted, KeyOf, CutAssignment;
    var e, n := |a.lead|, |a.name|;
    KeyTrims(a);
    assert line[..e + n + 1] == a.lead + a.name + "=";
    assert line[..e + n] == a.lead + a.name;
    assert line[e + n] == '=';
    assert line[0] == (a.lead + a.name)[0];
    assert !Commented(line) by {
      assert e > 0 ==> line[0] == a.lead[..6][0];
    }
    if e > 6 && a.lead[6] == ' ' {
      assert line[..7] == "export " by {
        assert line[..6] == a.lead[..6];
        assert line[6] == a.lead[6];
      }
      var text := line[7..];
      assert text[..e + n - 7] == a.lead[7..] + a.name;
      CutsAt(text, e + n - 7);
      assert text[e + n - 7 + 1..] == line[e + n + 1..];
    } else {
      LedBySpaceOnly(line, a);
      CutsAt(line, e + n);
    }
  }

  lemma LedBySpaceOnly(line: string, a: Assignment)
    requires Matches(line, a) && !(|a.lead| > 6 && a.lead[6] == ' ')
    ensures !("export " <= line)
  {
    var e, n := |a.lead|, |a.name|;
    assert line[..e + n + 1] == a.lead + a.name + "=";
    if e > 0 {
      assert line[6] == a.lead[6];
    } else if n < 6 {
      assert line[n] == '=';
    } else {
      assert line[6] == if n == 6 then '=' else a.name[6];
      assert n > 6 ==> a.name[6] in a.name;
    }
  }

  /** A hidden line reads as the same key with the redacted value. */
  lemma HiddenReads(a: Assignment)
    requires Exporting(a.lead) && Identifier(a.name)
    ensures ReadLine(DropCR(HiddenLine(a))) == Some((KeyOf(a), REDACTED))
    ensures '\n' !in HiddenLine(a) && HiddenLine(a) != []
  {
    var line := HiddenLine(a);
    KeyTrims(a);
    HiddenIsTight(a);
    TightTrims(line);
    assert a.lead + a.name + "=" <= line;
    AssignmentReads(line, a);
    assert line[|a.lead| + |a.name| + 1..] == REDACTED;
    TightTrims(REDACTED);
  }

  lemma HiddenIsTight(a: Assignment)
    requires Exporting(a.lead) && Identifier(a.name)
    ensures Tight(HiddenLine(a)) && DropCR(HiddenLine(a)) == HiddenLine(a)
    ensures '\n' !in HiddenLine(a)
  {
    var line := HiddenLine(a);
    assert line[|line| - 1] == REDACTED[9] == ']';
    NameCharIsTight(a.name[0]);
    assert line[0] == if a.lead == [] then a.name[0] else a.lead[..6][0];
    assert forall c | c in a.name :: NameChar(c);
    assert forall i | 0 <= i < |a.lead| :: a.lead[i] == (if i < 6 then a.lead[..6][i] else a.lead[i]);
    assert '\n' !in a.lead && '\n' !in a.name && '\n' !in "=" && '\n' !in REDACTED;
  }

  /** What a reader of the redacted file sees of the variables of the original. */
  function Masked(values: map<string, string>, secrets: set<string>): map<string, string> {
    map key | key in values :: if VariableOf(key) in secrets then REDACTED else values[key]
  }

  function Scanned(raw: seq<string>): seq<string> {
    seq(|raw|, i requires 0 <= i < |raw| => DropCR(raw[i]))
  }

  /** One accepted part, read before and after redaction. */
  lemma PartCommutes(part: string, secrets: set<string>)
    requires !Judge(part, secrets).Unknown?
    ensures var was := ReadLine(DropCR(part));
            var now := ReadLine(DropCR(RedactedPart(part, secrets)));
            && (was.Some? <==> now.Some?)
            && (was.Some? ==>
                  && was.value.0 == now.value.0
                  && now.value.1 == if VariableOf(was.value.0) in secrets then REDACTED else was.value.1)
  {
    var trimmed := TrimSpace(DropCR(part));
    if !Commented(trimmed) {
      var a := Match(trimmed).value;
      MatchIff(trimmed, a);
      AssignmentReads(trimmed, a);
      VariableOfKey(a);
      HiddenReads(a);
    }
  }

  lemma {:induction false} LinesCommute(raw: seq<string>, secrets: set<string>)
    requires Accepted(raw, secrets)
    ensures ReadLines(Scanned(RedactedParts(raw, secrets))) == Masked(ReadLines(Scanned(raw)), secrets)
  {
    hide Judge, ReadLine, VariableOf;
    if raw != [] {
      var n := |raw| - 1;
      LinesCommute(raw[..n], secrets);
      PartCommutes(raw[n], secrets);
      assert Scanned(raw)[..n] == Scanned(raw[..n]);
      assert Scanned(RedactedParts(raw, secrets))[..n] == Scanned(RedactedParts(raw[..n], secrets));
    }
  }

  lemma HiddenPart(part: string, secrets: set<string>)
    ensures var verdict := Judge(part, secrets);
            verdict.Hidden? ==> part != [] && HiddenLine(verdict.a) != [] && '\n' !in HiddenLine(verdict.a)
  {
    var verdict := Judge(part, secrets);
    if verdict.Hidden? {
      MatchIff(TrimSpace(DropCR(part)), verdict.a);
      HiddenIsTight(verdict.a);
    }
  }

  /** The redacted file has the same lines, each redacted in its place. */
  lemma RedactedRawLines(content: string, secrets: set<string>)
    requires Redact(content, secrets).Some?
    ensures Accepted(RawLines(content), secrets)
    ensures RawLines(Redact(content, secrets).value) == RedactedParts(RawLines(content), secrets)
  {
    hide Judge, HiddenLine, Split, Join;
    var parts := Split(content, '\n');
    var redacted := RedactedParts(parts, secrets);
    SplitFree(content, '\n');
    forall i | 0 <= i < |parts|
      ensures '\n' !in redacted[i]
      ensures redacted[i] == [] <==> parts[i] == []
    {
      HiddenPart(parts[i], secrets);
    }
    SplitJoin(redacted, '\n');
    assert redacted[..|parts| - 1] == RedactedParts(parts[..|parts| - 1], secrets);
  }

  /** A line that hides a value and outgrows the reader's buffer: the word, the name, and 11 bytes more. */
  predicate Overlong(part: string, secrets: set<string>) {
    var verdict := Judge(part, secrets);
    verdict.Hidden? && ByteLen(verdict.a.lead + verdict.a.name) + 11 >= SCAN_BUFFER
  }

  lemma OverlongIff(part: string, secrets: set<string>)
    requires ByteLen(part) < SCAN_BUFFER
    ensures ByteLen(RedactedPart(part, secrets)) >= SCAN_BUFFER <==> Overlong(part, secrets)
  {
    hide Judge, ByteLen;
    if Judge(part, secrets).Hidden? {
      var a := Judge(part, secrets).a;
      ByteLenConcat(a.lead + a.name, "=" + REDACTED);
      assert HiddenLine(a) == a.lead + a.name + ("=" + REDACTED);
      HiddenTail();
    }
  }

  lemma HiddenTail()
    ensures ByteLen("=" + REDACTED) == 11
  {
    ByteLenConcat("=", REDACTED);
    ByteLenConcat("[reda", "cted]");
    assert REDACTED == "[reda" + "cted]";
  }

  /** The reader's answer for lines whose lengths are known. */
  lemma ReadsAs(content: string, raw: seq<string>)
    requires RawLines(content) == raw
    ensures Read(content) == if exists i | 0 <= i < |raw| :: ByteLen(raw[i]) >= SCAN_BUFFER then None
                             else Some(ReadLines(Scanned(raw)))
  {
  }

  /**
   Redaction commutes with reading. Whenever the redactor accepts a file the
   reader can read, the reader sees the same keys in the redacted file, each
   variable declared secret as the redacted value and every other one untouched -
   exactly when no hidden line outgrew the reader's buffer.
   */
  lemma RedactionCommutes(content: string, secrets: set<string>)
    requires Redact(content, secrets).Some? && Read(content).Some?
    ensures var out := Redact(content, secrets).value;
            var raw := RawLines(content);
            && (Read(out).None? <==> exists i | 0 <= i < |raw| :: Overlong(raw[i], secrets))
            && (Read(out).Some? ==> Read(out).value == Masked(Read(content).value, secrets))
  {
    hide Judge, ReadLine, Masked, RawLines, Redact, Overlong, RedactedPart;
    var raw := RawLines(content);
    var out := Redact(content, secrets).value;
    var redacted := RedactedParts(raw, secrets);
    RedactedRawLines(content, secrets);
    LinesCommute(raw, secrets);
    ReadsAs(content, raw);
    ReadsAs(out, redacted);
    forall i | 0 <= i < |raw|
      ensures ByteLen(redacted[i]) >= SCAN_BUFFER <==> Overlong(raw[i], secrets)
    {
      OverlongIff(raw[i], secrets);
    }
  }

  /** For identifiers the statement reads as promised: secret names as redacted, all others as they were. */
  lemma IdentifiersCommute(content: string, secrets: set<string>, name: string)
    requires Redact(content, secrets).Some? && Read(content).Some?
    requires Read(Redact(content, secrets).value).Some?
    requires Identifier(name)
    ensures var was := Read(content).value;
            var now := Read(Redact(content, secrets).value).value;
            && (name in was <==> name in now)
            && (name in was ==> now[name] == if name in secrets then REDACTED else was[name])
  {
    RedactionCommutes(content, secrets);
    VariableOfIdentifier(name);
  }

  function Spaces(n: nat): string {
    seq(n, _ => ' ')
  }

  lemma {:induction false} SpacesLen(n: nat)
    ensures ByteLen(Spaces(n)) == n
  {
    if n > 0 {
      assert Spaces(n)[1..] == Spaces(n - 1);
      SpacesLen(n - 1);
    }
  }

  /** An exported assignment padded with n spaces, its value empty. */
  function Padded(n: nat): string {
    "export" + Spaces(n) + "A="
  }

  lemma PaddedLengths(n: nat)
    ensures ByteLen(Padded(n)) == n + 8
    ensures ByteLen("export" + Spaces(n) + "A") == n + 7
  {
    ByteLenConcat("export", Spaces(n));
    ByteLenConcat("export" + Spaces(n), "A");
    ByteLenConcat("export" + Spaces(n) + "A", "=");
    assert Padded(n) == "export" + Spaces(n) + "A" + "=";
    SpacesLen(n);
    WordLen();
  }

  lemma PaddedHidden(n: nat)
    requires n > 0
    ensures Judge(Padded(n), {"A"}) == Hidden(Assignment("export" + Spaces(n), "A"))
  {
    hide TrimSpace, Match, Commented;
    PaddedMatches(n);
    MatchIff(Padded(n), Assignment("export" + Spaces(n), "A"));
  }

  lemma PaddedMatches(n: nat)
    requires n > 0
    ensures Matches(Padded(n), Assignment("export" + Spaces(n), "A"))
    ensures DropCR(Padded(n)) == Padded(n) && TrimSpace(Padded(n)) == Padded(n) && !Commented(Padded(n))
  {
    var lead := "export" + Spaces(n);
    assert Padded(n) == lead + "A" + "=";
    assert lead[..6] == "export";
    assert Padded(n)[0] == 'e' && Padded(n)[|Padded(n)| - 1] == '=';
    TightTrims(Padded(n));
  }

  lemma PaddedIsOneLine(n: nat)
    ensures Split(Padded(n), '\n') == [Padded(n)] && RawLines(Padded(n)) == [Padded(n)]
  {
    SplitWhole(Padded(n), '\n');
  }

  /** A file the reader can read, the redactor accepts, and whose redacted form the reader refuses. */
  lemma HiddenLineOutgrows(n: nat)
    requires SCAN_BUFFER - 18 <= n < SCAN_BUFFER - 8
    ensures Read(Padded(n)).Some?
    ensures Redact(Padded(n), {"A"}).Some?
    ensures Read(Redact(Padded(n), {"A"}).value).None?
  {
    hide Judge, Read, Padded, RawLines, Split, RedactedParts;
    var content := Padded(n);
    PaddedLengths(n);
    PaddedHidden(n);
    PaddedIsOneLine(n);
    ReadsAs(content, [content]);
    RedactionCommutes(content, {"A"});
    assert Overlong(RawLines(content)[0], {"A"});
  }

  lemma WordLen()
    ensures ByteLen("export") == 6 && ByteLen("A") == 1 && ByteLen("=") == 1
  {
    ByteLenConcat("exp", "ort");
    assert "export" == "exp" + "ort";
  }
}
