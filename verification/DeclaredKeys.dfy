/** How a declared key spells a path: names joined by dots, "[]" after the ones whose values are lists. */
module DeclaredKeys {
  import opened Optional
  import opened Text
  import opened Documents

  predicate EndsInBrackets(text: string) {
    |text| >= 2 && text[|text| - 2..] == "[]"
  }

  /** A name holds no dot, and a plain one does not end like a list's. */
  predicate Spellable(seg: Segment) {
    '.' !in seg.name && (!seg.list ==> !EndsInBrackets(seg.name))
  }

  function SegmentText(seg: Segment): string {
    if seg.list then seg.name + "[]" else seg.name
  }

  function Texts(path: Path): seq<string> {
    seq(|path|, i requires 0 <= i < |path| => SegmentText(path[i]))
  }

  function Spelled(path: Path): string
    requires path != []
  {
    Join(Texts(path), '.')
  }

  lemma SegmentBack(seg: Segment)
    requires Spellable(seg)
    ensures SegmentOf(SegmentText(seg)) == seg && '.' !in SegmentText(seg)
  {
    var text := SegmentText(seg);
    if seg.list {
      assert text[|text| - 2..] == "[]" && text[..|text| - 2] == seg.name;
    }
  }

  /** Every path that can be spelled is read back from its spelling. */
  lemma PathBack(path: Path)
    requires path != [] && forall i | 0 <= i < |path| :: Spellable(path[i])
    ensures PathOf(Spelled(path)) == path
  {
    hide Split, Join, SegmentOf, SegmentText;
    forall i | 0 <= i < |path| ensures '.' !in Texts(path)[i] && SegmentOf(Texts(path)[i]) == path[i] {
      SegmentBack(path[i]);
    }
    SplitJoin(Texts(path), '.');
  }

  lemma JoinTwo(a: string, b: string)
    ensures Join([a, b], '.') == a + "." + b
  {
    assert [a, b][1..] == [b];
  }

  lemma TwoSegments(first: Segment, second: Segment)
    requires Spellable(first) && Spellable(second)
    ensures PathOf(SegmentText(first) + "." + SegmentText(second)) == [first, second]
  {
    hide PathOf, SegmentText, Spellable;
    var path := [first, second];
    assert Texts(path) == [SegmentText(first), SegmentText(second)];
    JoinTwo(SegmentText(first), SegmentText(second));
    PathBack(path);
  }

  /** The field of every element of a list. */
  function InEach(a: string, i: nat, b: string): Position {
    [Field(Named(a)), Index(i), Field(Named(b))]
  }

  function Inside(a: string, b: string): Position {
    [Field(Named(a)), Field(Named(b))]
  }

  lemma ListKeyIs(a: string, b: string)
    requires Spellable(Segment(a, true)) && Spellable(Segment(b, false))
    ensures PathOf(a + "[]." + b) == [Segment(a, true), Segment(b, false)]
  {
    TwoSegments(Segment(a, true), Segment(b, false));
    assert a + "[]" + "." + b == a + "[]." + b;
  }

  lemma PlainKeyIs(a: string, b: string)
    requires Spellable(Segment(a, false)) && Spellable(Segment(b, false))
    ensures PathOf(a + "." + b) == [Segment(a, false), Segment(b, false)]
  {
    TwoSegments(Segment(a, false), Segment(b, false));
  }

  lemma ListKeyFits(a: string, i: nat, b: string)
    ensures Fits([Segment(a, true), Segment(b, false)], InEach(a, i, b))
  {
    var path, pos := [Segment(a, true), Segment(b, false)], InEach(a, i, b);
    assert path[1..] == [Segment(b, false)] && path[1..][1..] == [];
    assert pos[2..] == [Field(Named(b))] && pos[2..][1..] == [];
    assert Fits(path[1..], pos[2..]);
  }

  lemma PlainKeyFits(a: string, b: string)
    ensures Fits([Segment(a, false), Segment(b, false)], Inside(a, b))
  {
    var path, pos := [Segment(a, false), Segment(b, false)], Inside(a, b);
    assert path[1..] == [Segment(b, false)] && path[1..][1..] == [];
    assert pos[1..] == [Field(Named(b))] && pos[1..][1..] == [];
    assert Fits(path[1..], pos[1..]);
  }

  /** A key with a list segment targets that field of every element the document has, and nothing else. */
  lemma ListKeyTargets(d: Doc, a: string, b: string, pos: Position)
    requires Spellable(Segment(a, true)) && Spellable(Segment(b, false))
    ensures pos in Targets(d, PathOf(a + "[]." + b)) <==>
              At(d, pos).Some? && exists i: nat :: pos == InEach(a, i, b)
  {
    hide PathOf, Targets, Spellable;
    ListKeyIs(a, b);
    var path := [Segment(a, true), Segment(b, false)];
    TargetsIff(d, path, pos);
    assert path[1..] == [Segment(b, false)] && path[1..][1..] == [];
    if Fits(path, pos) {
      assert Fits(path[1..], pos[2..]) && Fits(path[1..][1..], pos[2..][1..]);
      assert pos[2..][0] == pos[2] && |pos| == 3;
      assert pos == InEach(a, pos[1].index, b);
    }
    if i: nat :| pos == InEach(a, i, b) {
      ListKeyFits(a, i, b);
    }
  }

  /** A key of two plain segments targets the one field, if the document has it. */
  lemma PlainKeyTargets(d: Doc, a: string, b: string, pos: Position)
    requires Spellable(Segment(a, false)) && Spellable(Segment(b, false))
    ensures pos in Targets(d, PathOf(a + "." + b)) <==> At(d, pos).Some? && pos == Inside(a, b)
  {
    hide PathOf, Targets, Spellable;
    PlainKeyIs(a, b);
    var path := [Segment(a, false), Segment(b, false)];
    TargetsIff(d, path, pos);
    assert path[1..] == [Segment(b, false)] && path[1..][1..] == [];
    if Fits(path, pos) {
      assert Fits(path[1..], pos[1..]) && Fits(path[1..][1..], pos[1..][1..]);
      assert pos[1..][0] == pos[1] && |pos| == 2;
      assert pos == Inside(a, b);
    }
    if pos == Inside(a, b) {
      PlainKeyFits(a, b);
    }
  }

  /** Nothing but the redacted value stands there. */
  predicate Hidden(found: Option<Doc>) {
    found.None? || found.value == HIDDEN
  }

  /** A position a key describes shows nothing after the keys were dropped, also where the document had nothing there. */
  lemma DescribedIsHidden(d: Doc, paths: seq<Path>, p: Path, pos: Position)
    requires p in paths && p != [] && [] !in paths && Fits(p, pos)
    ensures Hidden(At(DropAll(d, paths), pos))
  {
    hide Drop, At, Fits, DropAll;
    NothingSecretLeft(d, paths, p, pos);
    SurvivesIff(d, paths, pos);
  }
}
