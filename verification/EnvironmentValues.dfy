/** What the lines of an environment file stand for, in terms of the text an operator writes. */
module EnvironmentValues {
  import opened Optional
  import opened Text
  import opened Environment

  ghost predicate Blanks(s: string) {
    forall c | c in s :: Blank(c)
  }

  lemma BlanksAreSpace(s: string)
    requires Blanks(s)
    ensures forall c | c in s :: IsSpace(c)
  {
    forall c | c in s ensures IsSpace(c) {
      NameCharIsTight(c);
    }
  }

  /** An assignment as it may be written: blanks around it, "export" before it, blanks before its value. */
  function Line(before: string, exported: bool, name: string, gap: string, value: string, after: string): string {
    before + (Opening(exported, name) + (gap + value) + after)
  }

  function Opening(exported: bool, name: string): string {
    (if exported then "export " else "") + name + "="
  }

  lemma OpeningTight(exported: bool, name: string)
    requires Identifier(name)
    ensures var open := Opening(exported, name);
            open != [] && !IsSpace(open[0]) && !IsSpace(open[|open| - 1]) && open[|open| - 1] == '='
  {
    NameCharIsTight(name[0]);
    assert name[0] in name;
    var open := Opening(exported, name);
    assert open[0] == if exported then 'e' else name[0];
  }

  /** The reader takes any such line for its name and the value, quotes aside. */
  lemma ReadsUnquoted(before: string, exported: bool, name: string, gap: string, value: string, after: string)
    requires Identifier(name) && Blanks(before) && Blanks(gap) && Blanks(after) && Tight(value)
    ensures ReadLine(Line(before, exported, name, gap, value, after)) == Some((name, Unquoted(value)))
  {
    hide TrimSpace, Unquoted, ReadTrimmed, Opening, Blanks, Tight;
    var open := Opening(exported, name);
    BlanksAreSpace(before);
    BlanksAreSpace(gap);
    BlanksAreSpace(after);
    OpeningTight(exported, name);
    var core := if value == [] then open else open + (gap + value);
    assert TrimSpace(Line(before, exported, name, gap, value, after)) == core by {
      CoreTrims(before, open, gap, value, after);
    }
    CoreReads(exported, name, gap, value);
  }

  lemma CoreTrims(before: string, open: string, gap: string, value: string, after: string)
    requires forall c | c in before + gap + after :: IsSpace(c)
    requires open != [] && !IsSpace(open[0]) && !IsSpace(open[|open| - 1]) && Tight(value)
    ensures TrimSpace(before + (open + (gap + value) + after)) == if value == [] then open else open + (gap + value)
  {
    hide TrimSpace;
    forall c ensures (c in before ==> IsSpace(c)) && (c in gap ==> IsSpace(c)) && (c in after ==> IsSpace(c)) {
      if c in before || c in gap || c in after {
        assert c in before + gap + after;
      }
    }
    if value == [] {
      assert open + (gap + value) + after == open + (gap + after);
      assert forall c | c in gap + after :: IsSpace(c);
      TrimsAround(before, open, gap + after);
    } else {
      var core := open + (gap + value);
      assert core[0] == open[0] && core[|core| - 1] == value[|value| - 1];
      TrimsAround(before, core, after);
    }
  }

  lemma CoreReads(exported: bool, name: string, gap: string, value: string)
    requires Identifier(name) && Tight(value) && forall c | c in gap :: IsSpace(c)
    ensures var open := Opening(exported, name);
            ReadTrimmed(if value == [] then open else open + (gap + value)) == Some((name, Unquoted(value)))
  {
    hide TrimSpace, Unquoted, ReadTrimmed;
    var lead := if exported then "export " else "";
    var open := Opening(exported, name);
    var a := Assignment(lead, name);
    var rest := if value == [] then [] else gap + value;
    var core := open + rest;
    assert Exporting(lead);
    assert core == if value == [] then open else open + (gap + value);
    assert open == a.lead + a.name + "=" && open <= core;
    AssignmentReads(core, a);
    assert core[|a.lead| + |a.name| + 1..] == rest;
    TrimsAround(gap, value, []);
    var none: string := [];
    TrimsAround(none, none, none);
    assert gap + (value + none) == gap + value && none + (none + none) == none;
    assert KeyOf(a) == name;
  }

  // ----- quotes -----

  /** A value between two equal quotes is read as the text between them, blanks, quotes and equals signs included. */
  lemma QuotedReads(before: string, exported: bool, name: string, gap: string, q: char, v: string, after: string)
    requires Identifier(name) && Blanks(before) && Blanks(gap) && Blanks(after) && q in {'"', '\''}
    ensures ReadLine(Line(before, exported, name, gap, [q] + v + [q], after)) == Some((name, v))
  {
    var value := [q] + v + [q];
    assert value[0] == q && value[|value| - 1] == q && value[1..|value| - 1] == v;
    ReadsUnquoted(before, exported, name, gap, value, after);
  }

  predicate Enclosed(value: string) {
    |value| >= 2 && value[0] in {'"', '\''} && value[|value| - 1] == value[0]
  }

  /** Any other tight value is read as it stands, a lone quote and the empty value included. */
  lemma PlainReads(before: string, exported: bool, name: string, gap: string, value: string, after: string)
    requires Identifier(name) && Blanks(before) && Blanks(gap) && Blanks(after) && Tight(value) && !Enclosed(value)
    ensures ReadLine(Line(before, exported, name, gap, value, after)) == Some((name, value))
  {
    ReadsUnquoted(before, exported, name, gap, value, after);
  }

  // ----- files -----

  lemma LineEndsClean(before: string, exported: bool, name: string, gap: string, value: string, after: string)
    requires Identifier(name) && Blanks(gap) && Blanks(after) && Tight(value)
    ensures var line := Line(before, exported, name, gap, value, after);
            line != [] && DropCR(line) == line
  {
    var line := Line(before, exported, name, gap, value, after);
    var open := Opening(exported, name);
    OpeningTight(exported, name);
    if after != [] {
      assert line[|line| - 1] == after[|after| - 1] && after[|after| - 1] in after;
    } else if value != [] {
      assert line[|line| - 1] == value[|value| - 1];
    } else if gap != [] {
      assert line[|line| - 1] == gap[|gap| - 1] && gap[|gap| - 1] in gap;
    } else {
      assert line[|line| - 1] == open[|open| - 1];
    }
  }

  /** A file of one line that the buffer holds. */
  lemma OneLineFile(line: string, key: string, value: string)
    requires '\n' !in line && line != [] && DropCR(line) == line && ByteLen(line) < SCAN_BUFFER
    requires ReadLine(line) == Some((key, value))
    ensures Read(line) == Some(map[key := value])
  {
    hide ReadLine, ByteLen, DropCR;
    SplitWhole(line, '\n');
    ReadsAs(line, [line]);
    assert [line][..0] == [];
    assert Scanned([line]) == [line];
    assert ReadLines([]) == map[];
    assert ReadLines([line]) == map[][key := value];
  }

  /** A file with one quoted assignment holds that variable with the text between the quotes, and no other. */
  lemma QuotedFile(before: string, exported: bool, name: string, gap: string, q: char, v: string, after: string)
    requires Identifier(name) && Blanks(before) && Blanks(gap) && Blanks(after) && q in {'"', '\''} && '\n' !in v
    requires ByteLen(Line(before, exported, name, gap, [q] + v + [q], after)) < SCAN_BUFFER
    ensures Read(Line(before, exported, name, gap, [q] + v + [q], after)) == Some(map[name := v])
  {
    var value := [q] + v + [q];
    assert value[0] == q && value[|value| - 1] == q && '\n' !in value && Tight(value);
    hide ReadLine, Read, Line, ByteLen, DropCR, Tight;
    QuotedReads(before, exported, name, gap, q, v, after);
    LineEndsClean(before, exported, name, gap, value, after);
    NoNewline(before, exported, name, gap, value, after);
    OneLineFile(Line(before, exported, name, gap, value, after), name, v);
  }

  lemma PlainFile(before: string, exported: bool, name: string, gap: string, value: string, after: string)
    requires Identifier(name) && Blanks(before) && Blanks(gap) && Blanks(after) && '\n' !in value
    requires Tight(value) && !Enclosed(value)
    requires ByteLen(Line(before, exported, name, gap, value, after)) < SCAN_BUFFER
    ensures Read(Line(before, exported, name, gap, value, after)) == Some(map[name := value])
  {
    hide ReadLine, Read, Line, ByteLen, DropCR, Tight;
    PlainReads(before, exported, name, gap, value, after);
    LineEndsClean(before, exported, name, gap, value, after);
    NoNewline(before, exported, name, gap, value, after);
    OneLineFile(Line(before, exported, name, gap, value, after), name, value);
  }

  lemma NoNewline(before: string, exported: bool, name: string, gap: string, value: string, after: string)
    requires Identifier(name) && Blanks(before) && Blanks(gap) && Blanks(after) && '\n' !in value
    ensures '\n' !in Line(before, exported, name, gap, value, after)
  {
    assert '\n' !in name;
    assert '\n' !in "export ";
  }

  // ----- lines that assign nothing, and lines that assign twice -----

  /** A comment, of either kind, assigns nothing. */
  lemma CommentReadsNothing(before: string, mark: char, text: string)
    requires Blanks(before) && mark in {'#', ';'}
    ensures ReadLine(before + ([mark] + text)).None?
  {
    BlanksAreSpace(before);
    TrimLeftSkips(before, [mark] + text);
    var rest := [mark] + text;
    assert rest[0] == mark && TrimLeft(rest) == rest;
    TrimRightStarts(rest);
  }

  lemma {:induction false} TrimRightStarts(s: string)
    requires s != [] && !IsSpace(s[0])
    ensures TrimRight(s) != [] && TrimRight(s)[0] == s[0]
  {
    if IsSpace(s[|s| - 1]) {
      TrimRightStarts(s[..|s| - 1]);
    }
  }

  lemma {:induction false} TrimSubset(s: string, c: char)
    requires c !in s
    ensures c !in TrimLeft(s) && c !in TrimRight(s)
  {
    if s != [] && IsSpace(s[0]) {
      TrimSubset(s[1..], c);
    }
    if s != [] && IsSpace(s[|s| - 1]) {
      TrimSubset(s[..|s| - 1], c);
    }
  }

  /** Neither does a line without an equals sign, the blank ones included. */
  lemma NoEqualsReadsNothing(line: string)
    requires '=' !in line
    ensures ReadLine(line).None?
  {
    TrimSubset(line, '=');
    TrimSubset(TrimLeft(line), '=');
  }

  /** Of several lines for one key the last one counts, and a key is there only through some line. */
  lemma {:induction false} LastLineWins(lines: seq<string>, key: string)
    ensures key in ReadLines(lines) <==> exists i | 0 <= i < |lines| :: Assigns(lines[i], key)
    ensures forall i | 0 <= i < |lines| && Assigns(lines[i], key) && (forall j | i < j < |lines| :: !Assigns(lines[j], key)) ::
              key in ReadLines(lines) && ReadLine(lines[i]) == Some((key, ReadLines(lines)[key]))
  {
    hide ReadLine;
    if lines != [] {
      var last := |lines| - 1;
      LastLineWins(lines[..last], key);
      assert forall i | 0 <= i < last :: lines[..last][i] == lines[i];
    }
  }

  predicate Assigns(line: string, key: string) {
    ReadLine(line).Some? && ReadLine(line).value.0 == key
  }

  // ----- what the redactor refuses and what it leaves alone -----

  /** A line is of a known shape when it is blank, a comment, or an assignment. */
  ghost predicate Known(part: string) {
    var trimmed := TrimSpace(DropCR(part));
    Commented(trimmed) || exists a :: Matches(trimmed, a)
  }

  lemma KnownIff(part: string, secrets: set<string>)
    ensures Judge(part, secrets).Unknown? <==> !Known(part)
  {
    hide TrimSpace, DropCR, Match, Matches;
    var trimmed := TrimSpace(DropCR(part));
    forall a ensures Match(trimmed) == Some(a) <==> Matches(trimmed, a) {
      MatchIff(trimmed, a);
    }
    if Match(trimmed).Some? {
      assert Matches(trimmed, Match(trimmed).value);
    }
  }

  ghost predicate AllKnown(parts: seq<string>) {
    forall i | 0 <= i < |parts| :: Known(parts[i])
  }

  /** A file is refused exactly when one of its lines is of no known shape. */
  lemma RefusedIff(content: string, secrets: set<string>)
    ensures Redact(content, secrets).Some? <==> AllKnown(Split(content, '\n'))
  {
    hide Judge, Known, Split;
    var parts := Split(content, '\n');
    forall i | 0 <= i < |parts| ensures Judge(parts[i], secrets).Unknown? <==> !Known(parts[i]) {
      KnownIff(parts[i], secrets);
    }
  }

  /** Of an accepted file every line that assigns no secret ships byte for byte. */
  lemma OtherLinesShip(content: string, secrets: set<string>, i: nat)
    requires Redact(content, secrets).Some? && i < |RawLines(content)|
    requires forall a | Matches(TrimSpace(DropCR(RawLines(content)[i])), a) :: a.name !in secrets
    ensures |RawLines(Redact(content, secrets).value)| == |RawLines(content)|
    ensures RawLines(Redact(content, secrets).value)[i] == RawLines(content)[i]
  {
    hide TrimSpace, DropCR, RawLines, Redact, Match, Matches;
    RedactedRawLines(content, secrets);
    var part := RawLines(content)[i];
    var trimmed := TrimSpace(DropCR(part));
    if Match(trimmed).Some? {
      MatchIff(trimmed, Match(trimmed).value);
    }
  }

  /** With nothing secret an accepted file ships as it was collected. */
  lemma NothingSecretShips(content: string)
    requires Redact(content, {}).Some?
    ensures Redact(content, {}).value == content
  {
    hide Judge, Split, Join;
    var parts := Split(content, '\n');
    assert RedactedParts(parts, {}) == parts;
    SplitFree(content, '\n');
  }
}
