/**
 The module lists of Go binaries, as "go version -m" prints them: a header line
 for each binary, then one indented record for every module and build setting.
 None stands for the error a list that cannot be read ends in.
 */
module BuildList {
  import opened Optional
  import opened Text

  datatype Module = Module(path: string, version: string, sum: string, replace: Option<Module>)

  datatype Binary = Binary(
    name: string,
    path: string,
    main: Module,
    toolchain: string,
    deps: seq<Module>,
    settings: map<string, string>
  )

  const NO_MODULE := Module("", "", "", None)
  const BUFFER: nat := 4 * 1024 * 1024

  // ----- reading -----

  /** Where the first ": " stands, or the length when there is none. */
  function Colon(s: string): (i: nat)
    ensures i <= |s|
  {
    if |s| < 2 then |s| else if s[0] == ':' && s[1] == ' ' then 0 else Colon(s[1..]) + 1
  }

  function WithoutSlashes(s: string): string {
    if s != [] && s[|s| - 1] == '/' then WithoutSlashes(s[..|s| - 1]) else s
  }

  function AfterSlash(s: string): string {
    if s == [] || s[|s| - 1] == '/' then [] else AfterSlash(s[..|s| - 1]) + [s[|s| - 1]]
  }

  /** filepath.Base: the last element of a path. */
  function Base(s: string): string {
    if s == [] then "."
    else if WithoutSlashes(s) == [] then "/"
    else AfterSlash(WithoutSlashes(s))
  }

  lemma {:induction false} AfterSlashIs(dir: string, name: string)
    requires '/' !in name
    ensures AfterSlash(dir + ['/'] + name) == name
    ensures AfterSlash(name) == name
  {
    var s := dir + ['/'] + name;
    if name == [] {
      assert s[|s| - 1] == '/';
    } else {
      var last := |name| - 1;
      AfterSlashIs(dir, name[..last]);
      assert s[..|s| - 1] == dir + ['/'] + name[..last] && s[|s| - 1] == name[last];
      assert name == name[..last] + [name[last]];
    }
  }

  /** A binary is called by its file name, in whatever directory it was listed. */
  lemma BaseOf(dir: string, name: string)
    requires name != [] && '/' !in name
    ensures Base(dir + ['/'] + name) == name
    ensures Base(name) == name
  {
    var s := dir + ['/'] + name;
    assert s[|s| - 1] == name[|name| - 1];
    AfterSlashIs(dir, name);
  }

  function FieldOf(fields: seq<string>, i: nat): string {
    if i < |fields| then fields[i] else []
  }

  function ModuleOf(fields: seq<string>): Module {
    Module(FieldOf(fields, 1), FieldOf(fields, 2), FieldOf(fields, 3), None)
  }

  function WithSetting(b: Binary, text: string): Binary {
    var i := IndexOf(text, '=');
    b.(settings := b.settings[text[..i] := if i < |text| then text[i + 1..] else []])
  }

  function WithReplacement(b: Binary, m: Module): Binary
    requires b.deps != []
  {
    var last := |b.deps| - 1;
    b.(deps := b.deps[last := b.deps[last].(replace := Some(m))])
  }

  /** One record of a binary, its fields already split. */
  function Recorded(b: Binary, fields: seq<string>): Option<Binary>
    requires fields != []
  {
    if fields[0] == "path" then
      if |fields| < 2 then None else Some(b.(path := fields[1]))
    else if fields[0] == "mod" then Some(b.(main := ModuleOf(fields)))
    else if fields[0] == "dep" then Some(b.(deps := b.deps + [ModuleOf(fields)]))
    else if fields[0] == "=>" then
      if b.deps == [] then None else Some(WithReplacement(b, ModuleOf(fields)))
    else if fields[0] == "build" then
      Some(if |fields| < 2 then b else WithSetting(b, fields[1]))
    else Some(b)
  }

  function Header(line: string): Option<Binary> {
    var i := Colon(line);
    if i + 2 > |line| then None
    else Some(Binary(Base(TrimSpace(line[..i])), "", NO_MODULE, TrimSpace(line[i + 2..]), [], map[]))
  }

  function ReadLine(bs: seq<Binary>, line: string): Option<seq<Binary>> {
    if TrimSpace(line) == [] then Some(bs)
    else if line[0] != '\t' then
      var header := Header(line);
      if header.None? then None else Some(bs + [header.value])
    else if bs == [] then None
    else
      var last := |bs| - 1;
      var recorded := Recorded(bs[last], Split(line[1..], '\t'));
      if recorded.None? then None else Some(bs[last := recorded.value])
  }

  function ReadLines(bs: seq<Binary>, lines: seq<string>): Option<seq<Binary>>
    decreases |lines|
  {
    if lines == [] then Some(bs)
    else
      var next := ReadLine(bs, lines[0]);
      if next.None? then None else ReadLines(next.value, lines[1..])
  }

  function Parsed(content: string): Option<seq<Binary>> {
    var lines := ScanLines(content, BUFFER);
    if lines.None? then None
    else
      var bs := ReadLines([], lines.value);
      if bs.None? || bs.value == [] then None else bs
  }

  /** The loop of the reader: the binary being read is the last one, updated record by record. */
  method ParseModules(content: string) returns (binaries: Option<seq<Binary>>)
    ensures binaries == Parsed(content)
  {
    hide ScanLines, Header, Recorded, TrimSpace, Split;
    var scanned := ScanLines(content, BUFFER);
    if scanned.None? {
      return None;
    }
    var lines := scanned.value;
    var found: seq<Binary> := [];
    assert lines[0..] == lines;
    for i := 0 to |lines|
      invariant ReadLines([], lines) == ReadLines(found, lines[i..])
    {
      var line := lines[i];
      assert lines[i..][1..] == lines[i + 1..] && lines[i..][0] == line;
      if TrimSpace(line) == [] {
        continue;
      }
      if line == [] || line[0] != '\t' {
        var header := Header(line);
        BlankIsBlank(line);
        if header.None? {
          return None;
        }
        found := found + [header.value];
        continue;
      }
      if found == [] {
        return None;
      }
      var current := Recorded(found[|found| - 1], Split(line[1..], '\t'));
      if current.None? {
        return None;
      }
      found := found[|found| - 1 := current.value];
    }
    assert lines[|lines|..] == [];
    binaries := if found == [] then None else Some(found);
  }

  lemma BlankIsBlank(line: string)
    requires TrimSpace(line) != []
    ensures line != []
  {
  }

  // ----- printing -----

  /** A binary as it is printed: under the name of its file, its settings in some order. */
  datatype Printed = Printed(file: string, binary: Binary, order: seq<string>)

  type Quote = string -> string

  predicate NeedsQuotes(value: string) {
    exists c | c in value :: c in {' ', '\t', '\r', '\n', '"', '`'}
  }

  /** A value with blanks or quotes in it is printed as a quoted string. */
  function Shown(value: string, quote: Quote): string {
    if NeedsQuotes(value) then quote(value) else value
  }

  function Record(fields: seq<string>): string
    requires fields != []
  {
    ['\t'] + Join(fields, '\t')
  }

  /** A module with a replacement is printed without its sum, and a blank record follows the pair. */
  function ModuleLines(word: string, m: Module): seq<string> {
    if m.replace.None? then [Record([word, m.path, m.version, m.sum])]
    else
      var r := m.replace.value;
      [Record([word, m.path, m.version])] + ([Record(["=>", r.path, r.version, r.sum])] + ["\t"])
  }

  function DepLines(deps: seq<Module>): seq<string> {
    if deps == [] then [] else ModuleLines("dep", deps[0]) + DepLines(deps[1..])
  }

  function SettingFields(key: string, value: string): seq<string> {
    ["build", key + ['='] + value]
  }

  /** The text printed for a setting. */
  function SettingOf(settings: map<string, string>, key: string, quote: Quote): string {
    if key in settings then Shown(settings[key], quote) else []
  }

  function SettingLines(settings: map<string, string>, order: seq<string>, quote: Quote): seq<string> {
    if order == [] then []
    else [Record(SettingFields(order[0], SettingOf(settings, order[0], quote)))] + SettingLines(settings, order[1..], quote)
  }

  function HeaderLine(file: string, toolchain: string): string {
    file + ": " + toolchain
  }

  function Lines(p: Printed, quote: Quote): seq<string> {
    var b := p.binary;
    [HeaderLine(p.file, b.toolchain)] +
    ((if b.path == [] then [] else [Record(["path", b.path])]) +
    ((if b.main == NO_MODULE then [] else ModuleLines("mod", b.main)) +
    (DepLines(b.deps) +
    SettingLines(b.settings, p.order, quote))))
  }

  // ----- well-formed binaries -----

  predicate Plain(s: string) {
    '\t' !in s && '\n' !in s && '\r' !in s
  }

  predicate PlainModule(m: Module) {
    Plain(m.path) && Plain(m.version) && Plain(m.sum)
  }

  /** A replacement replaces nothing itself, and the sum is the replacement's. */
  predicate WellFormedDep(m: Module) {
    && PlainModule(m)
    && (m.replace.Some? ==> m.sum == [] && PlainModule(m.replace.value) && m.replace.value.replace.None?)
  }

  ghost predicate WellFormed(p: Printed) {
    var b := p.binary;
    && p.file != [] && Tight(p.file) && '\n' !in p.file && Colon(p.file) == |p.file| && Base(p.file) == b.name
    && Tight(b.toolchain) && '\n' !in b.toolchain
    && Plain(b.path)
    && PlainModule(b.main) && b.main.replace.None?
    && (forall m | m in b.deps :: WellFormedDep(m))
    && WellFormedSettings(b.settings, p.order)
  }

  ghost predicate WellFormedSettings(settings: map<string, string>, order: seq<string>) {
    && (forall k :: k in order <==> k in settings)
    && (forall i, j | 0 <= i < j < |order| :: order[i] != order[j])
    && (forall k | k in settings :: k != [] && Plain(k) && '=' !in k && !NeedsQuotes(k))
  }

  /** Quoting escapes what would break a line, and never gives a value back as it is. */
  ghost predicate Quoting(quote: Quote) {
    forall v :: Plain(quote(v)) && quote(v) != v
  }

  /** A binary as the reader returns it: the settings are the texts that were printed. */
  function AsShown(b: Binary, quote: Quote): Binary {
    b.(settings := map k | k in b.settings :: Shown(b.settings[k], quote))
  }

  // ----- reading what was printed -----

  lemma {:induction false} ReadConcat(bs: seq<Binary>, a: seq<string>, b: seq<string>)
    requires ReadLines(bs, a).Some?
    ensures ReadLines(bs, a + b) == ReadLines(ReadLines(bs, a).value, b)
    decreases |a|
  {
    hide ReadLine;
    if a == [] {
      assert a + b == b;
    } else {
      ReadConcat(ReadLine(bs, a[0]).value, a[1..], b);
      assert (a + b)[1..] == a[1..] + b;
    }
  }

  lemma ReadOne(bs: seq<Binary>, line: string)
    ensures ReadLines(bs, [line]) == ReadLine(bs, line)
  {
    hide ReadLine;
    assert [line][1..] == [];
    if ReadLine(bs, line).Some? {
      assert ReadLines(ReadLine(bs, line).value, []) == ReadLine(bs, line);
    }
  }

  lemma {:induction false} TrimLeftKeeps(s: string, i: nat)
    requires i < |s| && !IsSpace(s[i])
    ensures TrimLeft(s) != [] && exists j | 0 <= j < |TrimLeft(s)| :: !IsSpace(TrimLeft(s)[j])
  {
    if IsSpace(s[0]) {
      TrimLeftKeeps(s[1..], i - 1);
    }
  }

  lemma {:induction false} TrimRightKeeps(s: string, i: nat)
    requires i < |s| && !IsSpace(s[i])
    ensures TrimRight(s) != []
  {
    if IsSpace(s[|s| - 1]) {
      TrimRightKeeps(s[..|s| - 1], i);
    }
  }

  lemma NotBlank(s: string, i: nat)
    requires i < |s| && !IsSpace(s[i])
    ensures TrimSpace(s) != []
  {
    TrimLeftKeeps(s, i);
    var j :| 0 <= j < |TrimLeft(s)| && !IsSpace(TrimLeft(s)[j]);
    TrimRightKeeps(TrimLeft(s), j);
  }

  /** A record is read into the last binary as its fields. */
  lemma ReadRecord(bs: seq<Binary>, b: Binary, fields: seq<string>)
    requires |fields| >= 2 && Free(fields, '\t') && fields[0] != [] && !IsSpace(fields[0][0])
    requires Recorded(b, fields).Some?
    ensures ReadLines(bs + [b], [Record(fields)]) == Some(bs + [Recorded(b, fields).value])
  {
    hide Recorded, TrimSpace, Split, Join;
    var line := Record(fields);
    JoinStarts(fields);
    assert line[1] == fields[0][0] && line[1..] == Join(fields, '\t');
    NotBlank(line, 1);
    SplitJoin(fields, '\t');
    ReadOne(bs + [b], line);
    assert (bs + [b])[|bs| := Recorded(b, fields).value] == bs + [Recorded(b, fields).value];
  }

  lemma JoinStarts(fields: seq<string>)
    requires |fields| >= 2 && fields[0] != []
    ensures |Join(fields, '\t')| > 0 && Join(fields, '\t')[0] == fields[0][0]
  {
  }

  lemma ReadBlank(bs: seq<Binary>)
    ensures ReadLines(bs, ["\t"]) == Some(bs)
  {
    assert "\t"[1..] == "";
    assert TrimLeft("\t") == [];
    ReadOne(bs, "\t");
  }

  lemma FreeFields(fields: seq<string>)
    requires forall i | 0 <= i < |fields| :: '\t' !in fields[i]
    ensures Free(fields, '\t')
  {
  }

  /** A dependency is read back with its own replacement attached. */
  lemma ReadDep(bs: seq<Binary>, b: Binary, m: Module)
    requires WellFormedDep(m)
    ensures ReadLines(bs + [b], ModuleLines("dep", m)) == Some(bs + [b.(deps := b.deps + [m])])
  {
    hide ReadLines, Record;
    if m.replace.None? {
      var fields := ["dep", m.path, m.version, m.sum];
      FreeFields(fields);
      assert Recorded(b, fields) == Some(b.(deps := b.deps + [m]));
      ReadRecord(bs, b, fields);
    } else {
      var r := m.replace.value;
      var bare := m.(replace := None);
      var first, second := ["dep", m.path, m.version], ["=>", r.path, r.version, r.sum];
      FreeFields(first);
      FreeFields(second);
      var b1 := b.(deps := b.deps + [bare]);
      assert Recorded(b, first) == Some(b1);
      ReadRecord(bs, b, first);
      var b2 := b.(deps := b.deps + [m]);
      assert (b.deps + [bare])[|b.deps| := m] == b.deps + [m];
      assert ModuleOf(second) == r && bare.(replace := Some(r)) == m;
      assert Recorded(b1, second) == Some(b2);
      ReadRecord(bs, b1, second);
      ReadConcat(bs + [b], [Record(first)], [Record(second)] + ["\t"]);
      ReadConcat(bs + [b1], [Record(second)], ["\t"]);
      ReadBlank(bs + [b2]);
    }
  }

  lemma {:induction false} ReadDeps(bs: seq<Binary>, b: Binary, deps: seq<Module>)
    requires forall m | m in deps :: WellFormedDep(m)
    ensures ReadLines(bs + [b], DepLines(deps)) == Some(bs + [b.(deps := b.deps + deps)])
    decreases |deps|
  {
    hide ModuleLines, WellFormedDep, ReadLine;
    if deps == [] {
      assert b.deps + deps == b.deps;
    } else {
      assert deps[0] in deps && forall m | m in deps[1..] :: m in deps;
      var b1 := b.(deps := b.deps + [deps[0]]);
      ReadDep(bs, b, deps[0]);
      ReadConcat(bs + [b], ModuleLines("dep", deps[0]), DepLines(deps[1..]));
      ReadDeps(bs, b1, deps[1..]);
      assert b.deps + [deps[0]] + deps[1..] == b.deps + deps;
    }
  }

  lemma SettingIs(b: Binary, key: string, value: string)
    requires '=' !in key
    ensures WithSetting(b, key + ['='] + value) == b.(settings := b.settings[key := value])
  {
    var text := key + ['='] + value;
    assert text[..|key|] == key && text[|key| + 1..] == value;
    IndexOfAt(text, '=', |key|);
  }

  /** The settings of `order` laid over what the binary already has. */
  function Over(have: map<string, string>, settings: map<string, string>, order: seq<string>, quote: Quote): map<string, string>
    decreases |order|
  {
    if order == [] then have
    else Over(have[order[0] := SettingOf(settings, order[0], quote)], settings, order[1..], quote)
  }

  lemma {:induction false} OverMeans(have: map<string, string>, settings: map<string, string>, order: seq<string>, quote: Quote)
    ensures var over := Over(have, settings, order, quote);
            && (forall k :: k in over <==> k in have || k in order)
            && (forall k | k in over :: over[k] == if k in order then SettingOf(settings, k, quote) else have[k])
    decreases |order|
  {
    if order != [] {
      OverMeans(have[order[0] := SettingOf(settings, order[0], quote)], settings, order[1..], quote);
      assert order == [order[0]] + order[1..];
    }
  }

  lemma ShownIsPlain(settings: map<string, string>, key: string, quote: Quote)
    requires Quoting(quote)
    ensures Plain(SettingOf(settings, key, quote))
  {
  }

  lemma {:induction false} ReadSettings(bs: seq<Binary>, b: Binary, settings: map<string, string>, order: seq<string>, quote: Quote)
    requires Quoting(quote) && forall k | k in order :: Plain(k) && '=' !in k
    ensures ReadLines(bs + [b], SettingLines(settings, order, quote))
            == Some(bs + [b.(settings := Over(b.settings, settings, order, quote))])
    decreases |order|
  {
    hide ReadLine, Record, SettingOf, Quoting, WithSetting;
    if order != [] {
      assert order[0] in order && forall k | k in order[1..] :: k in order;
      var key, value := order[0], SettingOf(settings, order[0], quote);
      var fields := SettingFields(key, value);
      var b1 := b.(settings := b.settings[key := value]);
      ReadSetting(bs, b, key, value) by {
        ShownIsPlain(settings, key, quote);
      }
      ReadConcat(bs + [b], [Record(fields)], SettingLines(settings, order[1..], quote));
      ReadSettings(bs, b1, settings, order[1..], quote);
    }
  }

  lemma ReadSetting(bs: seq<Binary>, b: Binary, key: string, value: string)
    requires Plain(key) && '=' !in key && Plain(value)
    ensures ReadLines(bs + [b], [Record(SettingFields(key, value))])
            == Some(bs + [b.(settings := b.settings[key := value])])
  {
    hide ReadLines, Record, WithSetting;
    var fields := SettingFields(key, value);
    SettingIs(b, key, value);
    FreeFields(fields);
    assert Recorded(b, fields) == Some(WithSetting(b, fields[1]));
    ReadRecord(bs, b, fields);
  }

  lemma {:induction false} ColonAt(file: string, rest: string)
    requires Colon(file) == |file|
    ensures Colon(file + ": " + rest) == |file|
    decreases |file|
  {
    var s := file + ": " + rest;
    if file == [] {
    } else {
      assert s[1..] == file[1..] + ": " + rest;
      if |file| == 1 {
        assert Colon(file[1..]) == 0;
      }
      ColonAt(file[1..], rest);
    }
  }

  lemma ReadHeader(bs: seq<Binary>, file: string, toolchain: string)
    requires file != [] && Tight(file) && Tight(toolchain) && Colon(file) == |file|
    ensures ReadLines(bs, [HeaderLine(file, toolchain)])
            == Some(bs + [Binary(Base(file), "", NO_MODULE, toolchain, [], map[])])
  {
    hide TrimSpace, Base, Colon;
    var line := HeaderLine(file, toolchain);
    ColonAt(file, toolchain);
    assert line[..|file|] == file && line[|file| + 2..] == toolchain && line[0] == file[0];
    TightTrims(file);
    TightTrims(toolchain);
    NotBlank(line, 0);
    ReadOne(bs, line);
  }

  lemma ReadPath(bs: seq<Binary>, b: Binary, path: string)
    requires Plain(path) && b.path == []
    ensures ReadLines(bs + [b], if path == [] then [] else [Record(["path", path])]) == Some(bs + [b.(path := path)])
  {
    hide Record, ReadLine;
    if path != [] {
      var fields := ["path", path];
      FreeFields(fields);
      assert Recorded(b, fields) == Some(b.(path := path));
      ReadRecord(bs, b, fields);
    }
  }

  lemma ReadMain(bs: seq<Binary>, b: Binary, main: Module)
    requires PlainModule(main) && main.replace.None? && b.main == NO_MODULE
    ensures ReadLines(bs + [b], if main == NO_MODULE then [] else ModuleLines("mod", main)) == Some(bs + [b.(main := main)])
  {
    hide Record, ReadLine;
    if main != NO_MODULE {
      var fields := ["mod", main.path, main.version, main.sum];
      FreeFields(fields);
      assert Recorded(b, fields) == Some(b.(main := main));
      ReadRecord(bs, b, fields);
    }
  }

  lemma OverShown(b: Binary, order: seq<string>, quote: Quote)
    requires WellFormedSettings(b.settings, order)
    ensures Over(map[], b.settings, order, quote) == AsShown(b, quote).settings
  {
    OverMeans(map[], b.settings, order, quote);
  }

  /** One binary, whatever was read before it. */
  lemma ReadBinary(bs: seq<Binary>, p: Printed, quote: Quote)
    requires WellFormed(p) && Quoting(quote)
    ensures ReadLines(bs, Lines(p, quote)) == Some(bs + [AsShown(p.binary, quote)])
  {
    var b := p.binary;
    var head := [HeaderLine(p.file, b.toolchain)];
    var path := if b.path == [] then [] else [Record(["path", b.path])];
    var main := if b.main == NO_MODULE then [] else ModuleLines("mod", b.main);
    var deps, settings := DepLines(b.deps), SettingLines(b.settings, p.order, quote);
    var b0 := Binary(b.name, "", NO_MODULE, b.toolchain, [], map[]);
    var b1 := b0.(path := b.path);
    var b2 := b1.(main := b.main);
    var b3 := b2.(deps := [] + b.deps);
    ReadHeader(bs, p.file, b.toolchain);
    ReadPath(bs, b0, b.path);
    ReadMain(bs, b1, b.main);
    ReadDeps(bs, b2, b.deps);
    ReadSettings(bs, b3, b.settings, p.order, quote);
    OverShown(b, p.order, quote);
    assert [] + b.deps == b.deps;
    hide ReadLines, Over, AsShown, DepLines, SettingLines, ModuleLines, Record, HeaderLine;
    assert b3.(settings := Over(map[], b.settings, p.order, quote)) == AsShown(b, quote) by {
      ShownOtherwise(b, quote);
    }
    ReadConcat(bs, head, path + (main + (deps + settings)));
    ReadConcat(bs + [b0], path, main + (deps + settings));
    ReadConcat(bs + [b1], main, deps + settings);
    ReadConcat(bs + [b2], deps, settings);
  }

  lemma ShownOtherwise(b: Binary, quote: Quote)
    ensures AsShown(b, quote) == b.(settings := AsShown(b, quote).settings)
  {
  }

  function AllLines(ps: seq<Printed>, quote: Quote): seq<string> {
    if ps == [] then [] else Lines(ps[0], quote) + AllLines(ps[1..], quote)
  }

  function AllShown(ps: seq<Printed>, quote: Quote): seq<Binary> {
    if ps == [] then [] else [AsShown(ps[0].binary, quote)] + AllShown(ps[1..], quote)
  }

  lemma {:induction false} ReadAll(bs: seq<Binary>, ps: seq<Printed>, quote: Quote)
    requires Quoting(quote) && forall p | p in ps :: WellFormed(p)
    ensures ReadLines(bs, AllLines(ps, quote)) == Some(bs + AllShown(ps, quote))
    decreases |ps|
  {
    hide ReadLine, Lines, Quoting, AsShown, WellFormed;
    if ps == [] {
      assert bs + AllShown(ps, quote) == bs;
    } else {
      assert ps[0] in ps && forall p | p in ps[1..] :: p in ps;
      var b := AsShown(ps[0].binary, quote);
      ReadBinary(bs, ps[0], quote);
      ReadConcat(bs, Lines(ps[0], quote), AllLines(ps[1..], quote));
      ReadAll(bs + [b], ps[1..], quote);
      assert bs + [b] + AllShown(ps[1..], quote) == bs + ([b] + AllShown(ps[1..], quote));
    }
  }

  // ----- lines and text -----

  function Content(lines: seq<string>): string {
    if lines == [] then [] else lines[0] + ['\n'] + Content(lines[1..])
  }

  lemma {:induction false} ContentSplits(lines: seq<string>)
    requires Free(lines, '\n')
    ensures Split(Content(lines), '\n') == lines + [[]]
  {
    if lines == [] {
    } else {
      ContentSplits(lines[1..]);
      SplitPrefix(lines[0], Content(lines[1..]), '\n');
      assert [lines[0]] + (lines[1..] + [[]]) == lines + [[]];
    }
  }

  /** A line the scanner gives back as it was: no newline and no trailing return. */
  predicate Clean(line: string) {
    '\n' !in line && DropCR(line) == line
  }

  predicate AllClean(lines: seq<string>) {
    forall line | line in lines :: Clean(line)
  }

  lemma {:induction false} JoinPlain(fields: seq<string>, c: char)
    requires fields != [] && Free(fields, c) && c != '\t'
    ensures c !in Join(fields, '\t')
  {
    if |fields| > 1 {
      JoinPlain(fields[1..], c);
    }
  }

  lemma RecordClean(fields: seq<string>)
    requires fields != [] && forall i | 0 <= i < |fields| :: Plain(fields[i])
    ensures Clean(Record(fields))
  {
    hide Join;
    JoinPlain(fields, '\n');
    JoinPlain(fields, '\r');
  }

  lemma ModuleClean(word: string, m: Module)
    requires Plain(word) && WellFormedDep(m)
    ensures AllClean(ModuleLines(word, m))
  {
    hide Record;
    if m.replace.None? {
      RecordClean([word, m.path, m.version, m.sum]);
    } else {
      var r := m.replace.value;
      RecordClean([word, m.path, m.version]);
      RecordClean(["=>", r.path, r.version, r.sum]);
      assert Clean("\t");
    }
  }

  lemma {:induction false} DepsClean(deps: seq<Module>)
    requires forall m | m in deps :: WellFormedDep(m)
    ensures AllClean(DepLines(deps))
  {
    hide ModuleLines, Clean, WellFormedDep;
    if deps != [] {
      assert deps[0] in deps && forall m | m in deps[1..] :: m in deps;
      assert Plain("dep");
      ModuleClean("dep", deps[0]);
      DepsClean(deps[1..]);
    }
  }

  lemma {:induction false} SettingsClean(settings: map<string, string>, order: seq<string>, quote: Quote)
    requires Quoting(quote) && forall k | k in order :: Plain(k)
    ensures AllClean(SettingLines(settings, order, quote))
  {
    hide Record, Clean, SettingOf, Quoting;
    if order != [] {
      assert order[0] in order && forall k | k in order[1..] :: k in order;
      ShownIsPlain(settings, order[0], quote);
      RecordClean(SettingFields(order[0], SettingOf(settings, order[0], quote)));
      SettingsClean(settings, order[1..], quote);
    }
  }

  lemma HeaderClean(file: string, toolchain: string)
    requires '\n' !in file && '\n' !in toolchain && Tight(toolchain)
    ensures Clean(HeaderLine(file, toolchain))
  {
    var line := HeaderLine(file, toolchain);
    if toolchain == [] {
      assert line[|line| - 1] == ' ';
    } else {
      assert line[|line| - 1] == toolchain[|toolchain| - 1];
    }
  }

  lemma LinesClean(p: Printed, quote: Quote)
    requires WellFormed(p) && Quoting(quote)
    ensures AllClean(Lines(p, quote))
  {
    var b := p.binary;
    HeaderClean(p.file, b.toolchain);
    assert Plain("path") && Plain("mod");
    RecordClean(["path", b.path]);
    ModuleClean("mod", b.main);
    DepsClean(b.deps);
    SettingsClean(b.settings, p.order, quote);
    hide Clean, Record, ModuleLines, DepLines, SettingLines, HeaderLine;
  }

  lemma {:induction false} AllLinesClean(ps: seq<Printed>, quote: Quote)
    requires Quoting(quote) && forall p | p in ps :: WellFormed(p)
    ensures AllClean(AllLines(ps, quote))
  {
    hide Lines, Clean, Quoting, WellFormed;
    if ps != [] {
      assert ps[0] in ps && forall p | p in ps[1..] :: p in ps;
      LinesClean(ps[0], quote);
      AllLinesClean(ps[1..], quote);
    }
  }

  predicate Fits(line: string) {
    ByteLen(line) < BUFFER
  }

  lemma ScansBack(lines: seq<string>)
    requires AllClean(lines)
    ensures ScanLines(Content(lines), BUFFER) == if forall line | line in lines :: Fits(line) then Some(lines) else None
  {
    hide ByteLen, Split, Content, DropCR;
    assert forall i | 0 <= i < |lines| :: lines[i] in lines && Clean(lines[i]);
    ContentSplits(lines);
    assert RawLines(Content(lines)) == lines by {
      assert (lines + [[]])[..|lines|] == lines;
    }
    var scanned := ScanLines(Content(lines), BUFFER);
    if forall line | line in lines :: Fits(line) {
      assert forall i | 0 <= i < |lines| :: Fits(lines[i]) && Clean(lines[i]);
      assert scanned.Some? && |scanned.value| == |lines|;
      assert forall i | 0 <= i < |lines| :: scanned.value[i] == lines[i];
      assert scanned.value == lines;
    } else {
      var line :| line in lines && !Fits(line);
      var i :| 0 <= i < |lines| && lines[i] == line;
    }
  }

  /**
   Reading undoes printing: the same binaries in the same order, their
   dependencies in order, each with its own replacement, and the settings as they
   were printed. It fails exactly when a line does not fit the reader's buffer.
   */
  lemma RoundTrip(ps: seq<Printed>, quote: Quote)
    requires ps != [] && Quoting(quote) && forall p | p in ps :: WellFormed(p)
    ensures Parsed(Content(AllLines(ps, quote)))
            == if forall line | line in AllLines(ps, quote) :: Fits(line) then Some(AllShown(ps, quote)) else None
  {
    hide Content, AllLines, ScanLines, Quoting, WellFormed, Clean, Fits;
    AllLinesClean(ps, quote);
    ScansBack(AllLines(ps, quote));
    ReadAll([], ps, quote);
    assert [] + AllShown(ps, quote) == AllShown(ps, quote);
  }

  /** A binary comes back whole exactly when none of its settings had to be quoted. */
  lemma ShownIff(b: Binary, quote: Quote)
    requires Quoting(quote)
    ensures AsShown(b, quote) == b <==> forall k | k in b.settings :: !NeedsQuotes(b.settings[k])
  {
    var shown := AsShown(b, quote).settings;
    if shown == b.settings {
      forall k | k in b.settings ensures !NeedsQuotes(b.settings[k]) {
        assert shown[k] == b.settings[k];
      }
    }
    if forall k | k in b.settings :: !NeedsQuotes(b.settings[k]) {
      assert shown == b.settings;
    }
  }

  /** The round trip proper: nothing quoted and every line in the buffer, and the list is returned as it was. */
  lemma {:induction false} ShownWhole(ps: seq<Printed>, quote: Quote)
    requires forall p | p in ps :: forall k | k in p.binary.settings :: !NeedsQuotes(p.binary.settings[k])
    requires Quoting(quote)
    ensures |AllShown(ps, quote)| == |ps|
    ensures forall i | 0 <= i < |ps| :: AllShown(ps, quote)[i] == ps[i].binary
  {
    hide NeedsQuotes, AsShown, Quoting;
    if ps != [] {
      assert ps[0] in ps && forall p | p in ps[1..] :: p in ps;
      ShownIff(ps[0].binary, quote);
      ShownWhole(ps[1..], quote);
    }
  }

  /** A binary with a setting that had to be quoted never comes back as it was. */
  lemma QuotedIsNotWhole(p: Printed, quote: Quote, key: string)
    requires WellFormed(p) && Quoting(quote)
    requires key in p.binary.settings && NeedsQuotes(p.binary.settings[key])
    ensures Parsed(Content(AllLines([p], quote))) != Some([p.binary])
  {
    hide Content, AllLines, Parsed, Quoting, WellFormed, Fits, AsShown, NeedsQuotes;
    RoundTrip([p], quote);
    ShownIff(p.binary, quote);
    assert AllShown([p], quote)[0] == AsShown(p.binary, quote);
  }

  lemma {:induction false} NoColon(s: string)
    requires ':' !in s
    ensures Colon(s) == |s|
  {
    if |s| >= 2 {
      NoColon(s[1..]);
    }
  }

  /** A binary of one build setting, in a file of its name. */
  function OneSetting(file: string, key: string, value: string): Printed {
    Printed(file, Binary(file, "", NO_MODULE, "", [], map[key := value]), [key])
  }

  lemma OneSettingWellFormed(file: string, key: string, value: string)
    requires file != [] && Tight(file) && '\n' !in file && ':' !in file && '/' !in file
    requires key != [] && Plain(key) && '=' !in key && !NeedsQuotes(key)
    ensures WellFormed(OneSetting(file, key, value))
  {
    hide Tight, Plain, NeedsQuotes, Base, Colon;
    BaseOf("", file);
    NoColon(file);
    PlainNothing();
    assert [key][0] == key;
  }

  lemma PlainNothing()
    ensures Plain("") && Tight("") && PlainModule(NO_MODULE)
  {
  }

  /** Such a binary: linker flags with a blank between them, read back with their quotes. */
  lemma LinkerFlagsComeBackQuoted(quote: Quote)
    requires Quoting(quote)
    ensures var p := OneSetting("agent", "-ldflags", "-s -w");
            WellFormed(p) && Parsed(Content(AllLines([p], quote))) != Some([p.binary])
  {
    var key, value := "-ldflags", "-s -w";
    assert value[2] == ' ' && value[2] in value && NeedsQuotes(value);
    assert Tight("agent") && Plain(key) && !NeedsQuotes(key);
    hide *;
    OneSettingWellFormed("agent", key, value);
    OneSettingHas("agent", key, value);
    QuotedIsNotWhole(OneSetting("agent", key, value), quote, key);
  }

  lemma OneSettingHas(file: string, key: string, value: string)
    ensures var settings := OneSetting(file, key, value).binary.settings;
            key in settings && settings[key] == value
  {
  }

  // ----- what the reader refuses and what it passes over -----

  /** The separator of a header stands somewhere in the line. */
  ghost predicate HasColon(line: string) {
    exists i | 0 <= i < |line| - 1 :: line[i] == ':' && line[i + 1] == ' '
  }

  lemma {:induction false} ColonFound(line: string)
    ensures Colon(line) + 2 <= |line| <==> HasColon(line)
  {
    if |line| >= 2 {
      ColonFound(line[1..]);
      if line[0] == ':' && line[1] == ' ' {
        assert HasColon(line);
      } else {
        if HasColon(line[1..]) {
          var i :| 0 <= i < |line[1..]| - 1 && line[1..][i] == ':' && line[1..][i + 1] == ' ';
          assert line[i + 1] == ':' && line[i + 1 + 1] == ' ';
        }
        if HasColon(line) {
          var i :| 0 <= i < |line| - 1 && line[i] == ':' && line[i + 1] == ' ';
          assert line[1..][i - 1] == ':' && line[1..][i - 1 + 1] == ' ';
        }
      }
    }
  }

  /**
   A line ends the reading in an error exactly when it is not blank and is a header
   without its separator, a record before any header, a path record without a path,
   or a replacement that follows no module.
   */
  lemma RefusedLineIff(bs: seq<Binary>, line: string)
    ensures ReadLine(bs, line).None? <==>
              && TrimSpace(line) != []
              && (|line| > 0 && line[0] != '\t' ==> !HasColon(line))
              && (|line| > 0 && line[0] == '\t' ==>
                   || bs == []
                   || line == "\tpath"
                   || (Split(line[1..], '\t')[0] == "=>" && bs[|bs| - 1].deps == []))
  {
    hide Colon, TrimSpace, Split;
    ColonFound(line);
    if TrimSpace(line) != [] {
      BlankIsBlank(line);
      if line[0] == '\t' {
        PathAlone(line);
      }
    }
  }

  /** Only the word by itself makes a path record of one field. */
  lemma PathAlone(line: string)
    requires line != [] && line[0] == '\t'
    ensures var fields := Split(line[1..], '\t');
            fields[0] == "path" && |fields| < 2 <==> line == "\tpath"
  {
    hide Split, Join;
    var fields := Split(line[1..], '\t');
    SplitFree(line[1..], '\t');
    if |fields| == 1 {
      JoinOne(fields);
      assert line == ['\t'] + line[1..];
    }
    if line == "\tpath" {
      assert line[1..] == "path";
      SplitWhole("path", '\t');
    }
  }

  lemma JoinOne(parts: seq<string>)
    requires |parts| == 1
    ensures Join(parts, '\t') == parts[0]
  {
  }

  /** A record of an unknown word, and a build record without a setting, change nothing. */
  lemma OtherRecordsPass(bs: seq<Binary>, line: string)
    requires bs != [] && TrimSpace(line) != [] && line[0] == '\t'
    requires var fields := Split(line[1..], '\t');
             fields[0] !in {"path", "mod", "dep", "=>", "build"} || fields == ["build"]
    ensures ReadLine(bs, line) == Some(bs)
  {
    hide Split, TrimSpace;
    assert bs[|bs| - 1 := bs[|bs| - 1]] == bs;
  }

  function ContentCRLF(lines: seq<string>): string {
    if lines == [] then [] else lines[0] + "\r\n" + ContentCRLF(lines[1..])
  }

  function WithReturns(lines: seq<string>): seq<string> {
    seq(|lines|, i requires 0 <= i < |lines| => lines[i] + "\r")
  }

  lemma {:induction false} CRLFContent(lines: seq<string>)
    ensures ContentCRLF(lines) == Content(WithReturns(lines))
  {
    if lines != [] {
      CRLFContent(lines[1..]);
      assert WithReturns(lines)[1..] == WithReturns(lines[1..]);
      assert lines[0] + "\r\n" == lines[0] + "\r" + ['\n'];
    }
  }

  /** Lines ended by a carriage return and a newline are the same lines. */
  lemma ScansCRLF(lines: seq<string>)
    requires forall i | 0 <= i < |lines| :: '\n' !in lines[i] && ByteLen(lines[i]) + 1 < BUFFER
    ensures ScanLines(ContentCRLF(lines), BUFFER) == Some(lines)
  {
    hide ByteLen, Content, RawLines, DropCR;
    CRLFContent(lines);
    var raw := WithReturns(lines);
    forall i | 0 <= i < |lines| ensures '\n' !in raw[i] && ByteLen(raw[i]) < BUFFER && DropCR(raw[i]) == lines[i] {
      ReturnLen(lines[i]);
    }
    RawContent(raw);
    var scanned := ScanLines(Content(raw), BUFFER);
    assert scanned.Some? && |scanned.value| == |lines|;
    assert scanned.value == lines;
  }

  lemma RawContent(lines: seq<string>)
    requires forall i | 0 <= i < |lines| :: '\n' !in lines[i]
    ensures RawLines(Content(lines)) == lines
  {
    hide Split, Content;
    ContentSplits(lines);
    assert (lines + [[]])[..|lines|] == lines;
  }

  lemma ReturnLen(line: string)
    ensures ByteLen(line + "\r") == ByteLen(line) + 1
    ensures DropCR(line + "\r") == line
  {
    ByteLenConcat(line, "\r");
    assert "\r"[1..] == "" && (line + "\r")[..|line|] == line;
  }

  lemma {:induction false} SlashesDropped(s: string, slashes: string)
    requires forall c | c in slashes :: c == '/'
    ensures WithoutSlashes(s + slashes) == WithoutSlashes(s)
    decreases |slashes|
  {
    if slashes == [] {
      assert s + slashes == s;
    } else {
      var last := |slashes| - 1;
      assert slashes[last] in slashes && forall c | c in slashes[..last] :: c in slashes;
      assert (s + slashes)[..|s + slashes| - 1] == s + slashes[..last];
      SlashesDropped(s, slashes[..last]);
    }
  }

  /** Slashes at the end of a path do not count; nothing at all is a dot, and nothing but slashes is one. */
  lemma BaseOfDirectory(s: string, slashes: string)
    requires forall c | c in slashes :: c == '/'
    ensures WithoutSlashes(s) != [] ==> Base(s + slashes) == Base(s)
    ensures slashes != [] ==> Base(slashes) == "/"
    ensures Base("") == "."
  {
    SlashesDropped(s, slashes);
    SlashesDropped("", slashes);
    assert "" + slashes == slashes;
  }

  /** A setting without an equals sign is one without a value. */
  lemma SettingWithoutValue(b: Binary, text: string)
    requires '=' !in text
    ensures WithSetting(b, text) == b.(settings := b.settings[text := ""])
  {
    assert IndexOf(text, '=') == |text|;
    assert text[..|text|] == text;
  }

  /** A header with blanks around its parts opens the same binary. */
  lemma HeaderTrims(before: string, file: string, gap: string, toolchain: string, after: string)
    requires forall c | c in before + gap + after :: c == ' '
    requires file != [] && Tight(file) && Tight(toolchain) && Colon(file) == |file|
    ensures Header(before + file + ": " + (gap + (toolchain + after)))
            == Some(Binary(Base(file), "", NO_MODULE, toolchain, [], map[]))
  {
    hide TrimSpace, Base, Tight;
    forall c ensures (c in before ==> IsSpace(c)) && (c in gap ==> IsSpace(c)) && (c in after ==> IsSpace(c)) {
      if c in before || c in gap || c in after {
        assert c in before + gap + after;
      }
    }
    var head, tail := before + file, gap + (toolchain + after);
    assert forall c | c in before :: c in before + gap + after;
    SpacesNoColon(before, file);
    ColonAt(head, tail);
    var line := head + ": " + tail;
    assert line[..|head|] == head && line[|head| + 2..] == tail;
    TrimsAround(before, file, []);
    assert before + (file + []) == head;
    TrimsAround(gap, toolchain, after);
  }

  lemma {:induction false} SpacesNoColon(before: string, file: string)
    requires Colon(file) == |file| && forall c | c in before :: c == ' '
    ensures Colon(before + file) == |before + file|
  {
    if before == [] {
      assert before + file == file;
    } else {
      assert (before + file)[0] == before[0] && before[0] in before && forall c | c in before[1..] :: c in before;
      assert (before + file)[1..] == before[1..] + file;
      SpacesNoColon(before[1..], file);
    }
  }

  lemma {:induction false} BlankLinesPass(bs: seq<Binary>, lines: seq<string>)
    requires forall line | line in lines :: TrimSpace(line) == []
    ensures ReadLines(bs, lines) == Some(bs)
    decreases |lines|
  {
    hide TrimSpace;
    if lines != [] {
      assert lines[0] in lines && forall line | line in lines[1..] :: line in lines;
      BlankLinesPass(bs, lines[1..]);
    }
  }

  /** A list without a binary is an error. */
  lemma NothingListed(lines: seq<string>)
    requires AllClean(lines) && forall line | line in lines :: TrimSpace(line) == []
    ensures Parsed(Content(lines)).None?
  {
    hide Content, ScanLines, Clean, Fits, TrimSpace;
    ScansBack(lines);
    BlankLinesPass([], lines);
  }
}
