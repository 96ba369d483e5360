/**
 The bill of materials of a binary: its components in the order of their
 references, what the application depends on, and a serial number that is a
 function of that content.
 */
module Bill {
  import opened Optional
  import opened Order
  import opened Sorting
  import opened Text
  import opened BuildList

  // ----- package references -----

  function Escaped(path: string): string {
    if path == [] then [] else (if path[0] == '@' then "%40" else [path[0]]) + Escaped(path[1..])
  }

  function Purl(path: string, version: string): string {
    "pkg:golang/" + (Escaped(path) + At(version))
  }

  lemma {:induction false} EscapedFree(path: string)
    ensures '@' !in Escaped(path)
  {
    if path != [] {
      EscapedFree(path[1..]);
    }
  }

  /** The version, with its separator. */
  function At(version: string): string {
    if version == [] then [] else ['@'] + version
  }

  lemma AtFirst(a: string, version: string)
    requires '@' !in a
    ensures IndexOf(a + At(version), '@') == |a|
  {
    var s := a + At(version);
    if version == [] {
      assert s == a;
    } else {
      assert s[|a|] == '@' && s[..|a|] == a;
      IndexOfAt(s, '@', |a|);
    }
  }

  /** A reference names one escaped path and one version: they cannot run into each other. */
  lemma PurlNames(path: string, version: string, path': string, version': string)
    requires Purl(path, version) == Purl(path', version')
    ensures Escaped(path) == Escaped(path') && version == version'
  {
    hide Escaped;
    EscapedFree(path);
    EscapedFree(path');
    AfterLead(path, version);
    AfterLead(path', version');
    AtFirst(Escaped(path), version);
    AtFirst(Escaped(path'), version');
    Parts(Escaped(path), version);
    Parts(Escaped(path'), version');
  }

  /** How a reference is spelled: the path as it is unless it holds an at sign, which is escaped, and the version after one. */
  lemma {:induction false} PurlSpelled(path: string, version: string)
    requires '@' !in path
    ensures Purl(path, version) == if version == [] then "pkg:golang/" + path else "pkg:golang/" + path + "@" + version
  {
    NothingEscaped(path);
    assert "pkg:golang/" + (path + ("@" + version)) == "pkg:golang/" + path + "@" + version;
    assert path + [] == path;
  }

  lemma {:induction false} NothingEscaped(path: string)
    requires '@' !in path
    ensures Escaped(path) == path
  {
    if path != [] {
      NothingEscaped(path[1..]);
      assert path == [path[0]] + path[1..];
    }
  }

  lemma {:induction false} EscapedAt(a: string, b: string)
    requires '@' !in a
    ensures Escaped(a + "@" + b) == a + "%40" + Escaped(b)
  {
    var s := a + "@" + b;
    if a == [] {
      assert s[0] == '@' && s[1..] == b;
    } else {
      assert s[0] == a[0] && s[1..] == a[1..] + "@" + b;
      EscapedAt(a[1..], b);
    }
  }

  lemma AfterLead(path: string, version: string)
    ensures Purl(path, version)[|"pkg:golang/"|..] == Escaped(path) + At(version)
  {
  }

  lemma Parts(a: string, version: string)
    ensures (a + At(version))[..|a|] == a
    ensures version == if |a| == |a + At(version)| then [] else (a + At(version))[|a| + 1..]
  {
    if version != [] {
      assert (a + At(version))[|a| + 1..] == version;
    }
  }

  // ----- components -----

  datatype Component = Component(ref: string, name: string, version: string, insteadOf: Option<string>, sum: Option<string>)

  /** The module that entered the binary: the replacement where there is one. */
  function Entered(dep: Module): Module {
    if dep.replace.Some? then dep.replace.value else dep
  }

  function ComponentOf(dep: Module): Component {
    var m := Entered(dep);
    Component(Purl(m.path, m.version), m.path, m.version,
              if dep.replace.Some? then Some(dep.path + "@" + dep.version) else None,
              if m.sum == [] then None else Some(m.sum))
  }

  function Each<T, U>(f: T -> U, s: seq<T>): (r: seq<U>)
    ensures |r| == |s|
  {
    if s == [] then [] else [f(s[0])] + Each(f, s[1..])
  }

  function Components(deps: seq<Module>): seq<Component> {
    Each(ComponentOf, deps)
  }

  function RefOf(c: Component): string {
    c.ref
  }

  function Refs(cs: seq<Component>): seq<string> {
    Each(RefOf, cs)
  }

  /** Before the first component with a larger or equal reference: sorting from the back, the sort is stable. */
  function Placed(c: Component, cs: seq<Component>): seq<Component> {
    if cs == [] || AtMost(c.ref, cs[0].ref) then [c] + cs else [cs[0]] + Placed(c, cs[1..])
  }

  function Arranged(cs: seq<Component>): seq<Component> {
    if cs == [] then [] else Placed(cs[0], Arranged(cs[1..]))
  }

  lemma {:induction false} PlacedRefs(c: Component, cs: seq<Component>)
    ensures Refs(Placed(c, cs)) == Insert(c.ref, Refs(cs))
  {
    if cs != [] {
      assert Refs(cs)[1..] == Refs(cs[1..]);
      if !AtMost(c.ref, cs[0].ref) {
        PlacedRefs(c, cs[1..]);
        assert ([cs[0]] + Placed(c, cs[1..]))[1..] == Placed(c, cs[1..]);
      } else {
        assert ([c] + cs)[1..] == cs;
      }
    } else {
      assert [c] + cs == [c] && [c][1..] == [];
      assert Refs([c][1..]) == [];
    }
  }

  /** Arranging the components sorts their references. */
  lemma {:induction false} ArrangedRefs(cs: seq<Component>)
    ensures Refs(Arranged(cs)) == Sort(Refs(cs))
  {
    if cs != [] {
      ArrangedRefs(cs[1..]);
      PlacedRefs(cs[0], Arranged(cs[1..]));
      assert Refs(cs)[1..] == Refs(cs[1..]);
    }
  }

  lemma {:induction false} PlacedPermutes(c: Component, cs: seq<Component>)
    ensures multiset(Placed(c, cs)) == multiset([c] + cs)
  {
    if cs != [] && !AtMost(c.ref, cs[0].ref) {
      PlacedPermutes(c, cs[1..]);
      assert cs == [cs[0]] + cs[1..];
    }
  }

  lemma {:induction false} ArrangedPermutes(cs: seq<Component>)
    ensures multiset(Arranged(cs)) == multiset(cs)
  {
    if cs != [] {
      ArrangedPermutes(cs[1..]);
      PlacedPermutes(cs[0], Arranged(cs[1..]));
      assert cs == [cs[0]] + cs[1..];
    }
  }

  // ----- permuting the dependencies -----

  lemma EachOne<T, U>(f: T -> U, x: T, s: seq<T>)
    ensures Each(f, [x] + s) == [f(x)] + Each(f, s)
  {
    assert ([x] + s)[1..] == s;
  }

  lemma EachNone<T, U>(f: T -> U)
    ensures Each(f, []) == []
  {
  }

  lemma Regroups<T>(a: seq<T>, b: seq<T>, c: seq<T>)
    ensures a + (b + c) == (a + b) + c
  {
  }

  lemma {:induction false} EachConcat<T, U>(f: T -> U, a: seq<T>, b: seq<T>)
    ensures Each(f, a + b) == Each(f, a) + Each(f, b)
    decreases |a|
  {
    hide Each;
    if a == [] {
      assert a + b == b;
      EachNone(f);
    } else {
      var rest := a[1..];
      assert a == [a[0]] + rest;
      EachConcat(f, rest, b);
      Regroups([a[0]], rest, b);
      EachOne(f, a[0], rest);
      EachOne(f, a[0], rest + b);
      Regroups([f(a[0])], Each(f, rest), Each(f, b));
    }
  }

  lemma EachSnoc<T, U>(f: T -> U, s: seq<T>, i: nat)
    requires i < |s|
    ensures Each(f, s[..i + 1]) == Each(f, s[..i]) + [f(s[i])]
  {
    hide Each;
    assert s[..i + 1] == s[..i] + ([s[i]] + []);
    EachConcat(f, s[..i], [s[i]] + []);
    EachOne(f, s[i], []);
    EachNone(f);
    assert [f(s[i])] + [] == [f(s[i])];
  }

  lemma WithoutOne<T>(head: seq<T>, x: T, tail: seq<T>)
    ensures multiset(head + tail) == multiset(head + ([x] + tail)) - multiset{x}
  {
  }

  /** The first element of one arrangement, found and taken out of another. */
  lemma TakenOut<T>(a: seq<T>, b: seq<T>) returns (i: nat)
    requires a != [] && multiset(a) == multiset(b)
    ensures i < |b| && b[i] == a[0]
    ensures multiset(b[..i] + b[i + 1..]) == multiset(a[1..])
    ensures b == b[..i] + ([a[0]] + b[i + 1..])
  {
    assert a == [] + ([a[0]] + a[1..]);
    assert a[0] in multiset(b);
    i :| 0 <= i < |b| && b[i] == a[0];
    assert b == b[..i] + ([b[i]] + b[i + 1..]);
    WithoutOne(b[..i], a[0], b[i + 1..]);
    WithoutOne([], a[0], a[1..]);
    assert [] + a[1..] == a[1..];
  }

  lemma {:induction false} EachPermutes<T, U>(f: T -> U, a: seq<T>, b: seq<T>)
    requires multiset(a) == multiset(b)
    ensures multiset(Each(f, a)) == multiset(Each(f, b))
    decreases |a|
  {
    hide Each;
    if a == [] {
      assert |b| == |multiset(b)| == |multiset(a)| == 0;
    } else {
      var i := TakenOut(a, b);
      var head, tail := b[..i], b[i + 1..];
      EachPermutes(f, a[1..], head + tail);
      EachConcat(f, head, tail);
      EachConcat(f, head, [a[0]] + tail);
      EachOne(f, a[0], tail);
      EachOne(f, a[0], a[1..]);
      assert a == [a[0]] + a[1..];
    }
  }

  /** The references, sorted, are fixed by which dependencies there are. */
  lemma RefsCanonical(a: seq<Module>, b: seq<Module>)
    requires multiset(a) == multiset(b)
    ensures Refs(Arranged(Components(a))) == Refs(Arranged(Components(b)))
  {
    EachPermutes(ComponentOf, a, b);
    EachPermutes(RefOf, Components(a), Components(b));
    ArrangedRefs(Components(a));
    ArrangedRefs(Components(b));
    SortCanonical(Refs(Components(a)), Refs(Components(b)));
  }

  // ----- when the list of components is canonical too -----

  /** Components with one reference are one component. */
  ghost predicate Agree(cs: seq<Component>) {
    forall a, b | a in cs && b in cs :: a.ref == b.ref ==> a == b
  }

  function WithRef(cs: seq<Component>, ref: string): seq<Component> {
    if cs == [] then []
    else if cs[0].ref == ref then [cs[0]] + WithRef(cs[1..], ref)
    else WithRef(cs[1..], ref)
  }

  lemma WithRefOne(c: Component, cs: seq<Component>, ref: string)
    ensures WithRef([c] + cs, ref) == if c.ref == ref then [c] + WithRef(cs, ref) else WithRef(cs, ref)
  {
    assert ([c] + cs)[1..] == cs;
  }

  lemma {:induction false} PlacedKeepsOrder(c: Component, cs: seq<Component>, ref: string)
    ensures WithRef(Placed(c, cs), ref) == WithRef([c] + cs, ref)
  {
    hide WithRef;
    if cs != [] && !AtMost(c.ref, cs[0].ref) {
      assert cs == [cs[0]] + cs[1..];
      PlacedKeepsOrder(c, cs[1..], ref);
      WithRefOne(cs[0], Placed(c, cs[1..]), ref);
      WithRefOne(c, cs[1..], ref);
      WithRefOne(cs[0], cs[1..], ref);
      WithRefOne(c, cs, ref);
    }
  }

  /** The sort is stable: components with one reference keep their order. */
  lemma {:induction false} ArrangedStable(cs: seq<Component>, ref: string)
    ensures WithRef(Arranged(cs), ref) == WithRef(cs, ref)
  {
    if cs != [] {
      ArrangedStable(cs[1..], ref);
      PlacedKeepsOrder(cs[0], Arranged(cs[1..]), ref);
      WithRefOne(cs[0], Arranged(cs[1..]), ref);
      WithRefOne(cs[0], cs[1..], ref);
      assert cs == [cs[0]] + cs[1..];
    }
  }

  lemma {:induction false} RefsAt(cs: seq<Component>, i: nat)
    requires i < |cs|
    ensures Refs(cs)[i] == cs[i].ref
  {
    if i > 0 {
      RefsAt(cs[1..], i - 1);
    }
  }

  lemma AgreeingSame(a: seq<Component>, b: seq<Component>, whole: seq<Component>)
    requires Refs(a) == Refs(b) && Agree(whole)
    requires multiset(a) == multiset(whole) == multiset(b)
    ensures a == b
  {
    hide Refs;
    assert |a| == |multiset(a)| == |multiset(b)| == |b|;
    forall i | 0 <= i < |a| ensures a[i] == b[i] {
      RefsAt(a, i);
      RefsAt(b, i);
      assert a[i] in multiset(a) && b[i] in multiset(b);
      assert a[i] in whole && b[i] in whole;
    }
  }

  lemma ArrangedSame(other: seq<Component>, cs: seq<Component>)
    requires Agree(cs) && multiset(other) == multiset(cs)
    ensures Arranged(other) == Arranged(cs)
  {
    EachPermutes(RefOf, other, cs);
    ArrangedRefs(other);
    ArrangedRefs(cs);
    SortCanonical(Refs(other), Refs(cs));
    ArrangedPermutes(other);
    ArrangedPermutes(cs);
    AgreeingSame(Arranged(other), Arranged(cs), cs);
  }

  /**
   Every arrangement of the components gives the same list exactly when no two
   different components share a reference.
   */
  lemma ArrangedCanonicalIff(cs: seq<Component>)
    ensures Agree(cs) <==> forall other: seq<Component> | multiset(other) == multiset(cs) :: Arranged(other) == Arranged(cs)
  {
    if Agree(cs) {
      forall other: seq<Component> | multiset(other) == multiset(cs) ensures Arranged(other) == Arranged(cs) {
        ArrangedSame(other, cs);
      }
    } else {
      var a, b :| a in cs && b in cs && a.ref == b.ref && a != b;
      SwapShows(cs, a, b);
    }
  }

  /** Two different components with one reference: the one named first stands first. */
  lemma SwapShows(cs: seq<Component>, a: Component, b: Component)
    requires a in cs && b in cs && a.ref == b.ref && a != b
    ensures exists other: seq<Component> :: multiset(other) == multiset(cs) && Arranged(other) != Arranged(cs)
  {
    hide Arranged, WithRef;
    var rest := BothFirst(cs, a, b);
    var one, two := [a] + ([b] + rest), [b] + ([a] + rest);
    FirstShows(a, [b] + rest);
    FirstShows(b, [a] + rest);
    assert Arranged(one) != Arranged(two);
    if Arranged(one) == Arranged(cs) {
      assert Arranged(two) != Arranged(cs);
    }
  }

  lemma FirstShows(c: Component, cs: seq<Component>)
    ensures WithRef(Arranged([c] + cs), c.ref) != [] && WithRef(Arranged([c] + cs), c.ref)[0] == c
  {
    ArrangedStable([c] + cs, c.ref);
    WithRefOne(c, cs, c.ref);
  }

  lemma OutOf<T>(s: seq<T>, x: T) returns (rest: seq<T>)
    requires x in s
    ensures multiset(s) == multiset{x} + multiset(rest)
  {
    var i :| 0 <= i < |s| && s[i] == x;
    assert s == s[..i] + ([x] + s[i + 1..]);
    rest := s[..i] + s[i + 1..];
    WithoutOne(s[..i], x, s[i + 1..]);
  }

  lemma BothFirst<T>(s: seq<T>, a: T, b: T) returns (rest: seq<T>)
    requires a in s && b in s && a != b
    ensures multiset([a] + ([b] + rest)) == multiset([b] + ([a] + rest)) == multiset(s)
  {
    var once := OutOf(s, a);
    assert b in multiset(s);
    assert b in multiset(once);
    rest := OutOf(once, b);
    TwoFirst(a, b, rest);
    TwoFirst(b, a, rest);
  }

  lemma TwoFirst<T>(a: T, b: T, rest: seq<T>)
    ensures multiset([a] + ([b] + rest)) == multiset{a} + (multiset{b} + multiset(rest))
  {
    assert multiset([b] + rest) == multiset{b} + multiset(rest);
  }

  // ----- the same for the dependencies a binary lists -----

  /** The components of a bill: the standard library, then the modules in the order of their references. */
  function BillComponents(toolchain: string, deps: seq<Module>): seq<Component> {
    [Stdlib(toolchain)] + Arranged(Components(deps))
  }

  lemma {:induction false} ComponentsMember(deps: seq<Module>, c: Component)
    ensures c in Components(deps) <==> exists m | m in deps :: ComponentOf(m) == c
  {
    if deps != [] {
      ComponentsMember(deps[1..], c);
      assert deps == [deps[0]] + deps[1..];
    }
  }

  /** Dependencies with one reference have one component. */
  ghost predicate OneComponentPerRef(deps: seq<Module>) {
    forall m, n | m in deps && n in deps :: ComponentOf(m).ref == ComponentOf(n).ref ==> ComponentOf(m) == ComponentOf(n)
  }

  lemma AgreeIff(deps: seq<Module>)
    ensures Agree(Components(deps)) <==> OneComponentPerRef(deps)
  {
    hide Components, ComponentOf;
    forall c ensures c in Components(deps) <==> exists m | m in deps :: ComponentOf(m) == c {
      ComponentsMember(deps, c);
    }
    forall m | m in deps ensures ComponentOf(m) in Components(deps) {
    }
  }

  /** Two dependencies with one reference and different components: the one listed first stands first. */
  lemma FirstListedShows(toolchain: string, m: Module, n: Module, rest: seq<Module>)
    requires ComponentOf(m).ref == ComponentOf(n).ref && ComponentOf(m) != ComponentOf(n)
    ensures BillComponents(toolchain, [m] + ([n] + rest)) != BillComponents(toolchain, [n] + ([m] + rest))
  {
    hide Each, ComponentOf, Arranged;
    EachOne(ComponentOf, m, [n] + rest);
    EachOne(ComponentOf, n, [m] + rest);
    FirstShows(ComponentOf(m), Components([n] + rest));
    FirstShows(ComponentOf(n), Components([m] + rest));
    var one, two := Arranged(Components([m] + ([n] + rest))), Arranged(Components([n] + ([m] + rest)));
    assert one != two;
    assert ([Stdlib(toolchain)] + one)[1..] == one && ([Stdlib(toolchain)] + two)[1..] == two;
  }

  /**
   Every order of the dependencies gives the same component list exactly when no
   two of them share a reference and differ in anything else the bill shows.
   */
  lemma ComponentsCanonicalIff(toolchain: string, deps: seq<Module>)
    ensures OneComponentPerRef(deps) <==>
              forall other: seq<Module> | multiset(other) == multiset(deps) ::
                BillComponents(toolchain, other) == BillComponents(toolchain, deps)
  {
    hide Each, ComponentOf, Arranged;
    if OneComponentPerRef(deps) {
      AgreeIff(deps);
      forall other: seq<Module> | multiset(other) == multiset(deps)
        ensures BillComponents(toolchain, other) == BillComponents(toolchain, deps)
      {
        EachPermutes(ComponentOf, other, deps);
        ArrangedSame(Components(other), Components(deps));
      }
    } else {
      var m, n :| m in deps && n in deps && ComponentOf(m).ref == ComponentOf(n).ref && ComponentOf(m) != ComponentOf(n);
      var rest := BothFirst(deps, m, n);
      FirstListedShows(toolchain, m, n, rest);
      var one, two := [m] + ([n] + rest), [n] + ([m] + rest);
      assert BillComponents(toolchain, one) != BillComponents(toolchain, deps)
          || BillComponents(toolchain, two) != BillComponents(toolchain, deps);
    }
  }

  /** One module listed twice with different sums: the order of the two shows in the bill. */
  lemma TwoSumsShow(toolchain: string)
    ensures var m, n := Module("m", "v1", "s1", None), Module("m", "v1", "s2", None);
            BillComponents(toolchain, [m, n]) != BillComponents(toolchain, [n, m])
  {
    var m, n := Module("m", "v1", "s1", None), Module("m", "v1", "s2", None);
    assert "s1"[1] != "s2"[1];
    FirstListedShows(toolchain, m, n, []);
    assert [m] + ([n] + []) == [m, n] && [n] + ([m] + []) == [n, m];
  }

  // ----- what the application depends on, and the serial number -----

  /** The references of the bill: the standard library first, then the modules in order. */
  function DependsOn(toolchain: string, deps: seq<Module>): seq<string> {
    [StdlibRef(toolchain)] + Refs(Arranged(Components(deps)))
  }

  function StdlibRef(toolchain: string): string {
    Purl("stdlib", GoVersion(toolchain))
  }

  lemma VersionOf(toolchain: string)
    ensures var version := GoVersion(toolchain);
            toolchain == "go" + version || (version == toolchain && !("go" <= toolchain))
  {
    if |toolchain| >= 2 && toolchain[..2] == "go" {
      assert toolchain == toolchain[..2] + toolchain[2..];
    }
  }

  /** The toolchain without its "go". */
  function GoVersion(toolchain: string): string {
    if |toolchain| >= 2 && toolchain[..2] == "go" then toolchain[2..] else toolchain
  }

  function Stdlib(toolchain: string): Component {
    Component(StdlibRef(toolchain), "stdlib", GoVersion(toolchain), None, None)
  }

  /** What a component shows of a dependency: the module that entered the binary, and what it stands for. */
  predicate Shows(c: Component, dep: Module) {
    match dep.replace
    case Some(r) =>
      && c.name == r.path && c.version == r.version && c.ref == Purl(r.path, r.version)
      && c.sum == (if r.sum == [] then None else Some(r.sum))
      && c.insteadOf == Some(dep.path + "@" + dep.version)
    case None =>
      && c.name == dep.path && c.version == dep.version && c.ref == Purl(dep.path, dep.version)
      && c.sum == (if dep.sum == [] then None else Some(dep.sum))
      && c.insteadOf.None?
  }

  /** Each dependency is shown by a component and each component shows a dependency, as many as there are. */
  ghost predicate ShowsAll(cs: seq<Component>, deps: seq<Module>) {
    && |cs| == |deps|
    && (forall dep | dep in deps :: exists c | c in cs :: Shows(c, dep))
    && (forall c | c in cs :: exists dep | dep in deps :: Shows(c, dep))
  }

  lemma ComponentShows(dep: Module)
    ensures Shows(ComponentOf(dep), dep)
  {
  }

  lemma ArrangedMember(cs: seq<Component>, c: Component)
    ensures c in Arranged(cs) <==> c in cs
  {
    ArrangedPermutes(cs);
    assert c in Arranged(cs) <==> c in multiset(Arranged(cs));
    assert c in cs <==> c in multiset(cs);
  }

  /** Behind the standard library the bill shows the dependencies, and nothing but them. */
  lemma BillShowsAll(deps: seq<Module>)
    ensures ShowsAll(Arranged(Components(deps)), deps)
  {
    hide Arranged, ComponentOf, Shows, Each;
    var cs := Arranged(Components(deps));
    ArrangedPermutes(Components(deps));
    assert |cs| == |multiset(cs)| == |multiset(Components(deps))| == |Components(deps)| == |deps|;
    forall dep | dep in deps ensures exists c | c in cs :: Shows(c, dep) {
      ComponentShows(dep);
      ComponentsMember(deps, ComponentOf(dep));
      ArrangedMember(Components(deps), ComponentOf(dep));
    }
    forall c | c in cs ensures exists dep | dep in deps :: Shows(c, dep) {
      ArrangedMember(Components(deps), c);
      ComponentsMember(deps, c);
      var dep :| dep in deps && ComponentOf(dep) == c;
      ComponentShows(dep);
    }
  }

  /** The components and dependencies of a bill: the standard library stays first, the modules are sorted behind it. */
  method Written(toolchain: string, deps: seq<Module>) returns (components: seq<Component>, dependsOn: seq<string>)
    ensures components == BillComponents(toolchain, deps)
    ensures |components| > 0 && ShowsAll(components[1..], deps)
    ensures var first := components[0];
            && first.name == "stdlib" && first.insteadOf.None? && first.sum.None?
            && first.ref == Purl("stdlib", first.version)
            && (toolchain == "go" + first.version || (first.version == toolchain && !("go" <= toolchain)))
    ensures dependsOn == DependsOn(toolchain, deps) && dependsOn == Refs(components)
  {
    hide Each, ComponentOf, Arranged, ShowsAll;
    EachNone(ComponentOf);
    EachNone(RefOf);
    BillShowsAll(deps);
    VersionOf(toolchain);
    var modules: seq<Component> := [];
    for i := 0 to |deps|
      invariant modules == Components(deps[..i])
    {
      EachSnoc(ComponentOf, deps, i);
      modules := modules + [ComponentOf(deps[i])];
    }
    assert deps[..|deps|] == deps;
    components := [Stdlib(toolchain)] + Arranged(modules);
    dependsOn := [];
    for i := 0 to |components|
      invariant dependsOn == Refs(components[..i])
    {
      EachSnoc(RefOf, components, i);
      dependsOn := dependsOn + [components[i].ref];
    }
    assert components[..|components|] == components && components[1..] == Arranged(modules);
    EachOne(RefOf, Stdlib(toolchain), Arranged(modules));
  }

  /** What is hashed: the application, then each reference after a zero byte. */
  function Preimage(application: string, refs: seq<string>): string {
    Join([application] + refs, '\0')
  }

  type Hash = string -> seq<bv8>

  ghost predicate Digests(hash: Hash) {
    forall s :: |hash(s)| == 32
  }

  /** The version nibble of a custom UUID and its variant bits (sections 5.8 and 4.1 of RFC 9562). */
  function Marked(digest: seq<bv8>): seq<bv8>
    requires |digest| == 32
  {
    digest[6 := (digest[6] & 0x0f) | 0x80][8 := (digest[8] & 0x3f) | 0x80]
  }

  function Digit(n: bv8): char {
    if n == 0 then '0' else if n == 1 then '1' else if n == 2 then '2' else if n == 3 then '3'
    else if n == 4 then '4' else if n == 5 then '5' else if n == 6 then '6' else if n == 7 then '7'
    else if n == 8 then '8' else if n == 9 then '9' else if n == 10 then 'a' else if n == 11 then 'b'
    else if n == 12 then 'c' else if n == 13 then 'd' else if n == 14 then 'e' else 'f'
  }

  function Hex(bytes: seq<bv8>): (text: string)
    ensures |text| == 2 * |bytes|
  {
    if bytes == [] then [] else [Digit(bytes[0] >> 4), Digit(bytes[0] & 0x0f)] + Hex(bytes[1..])
  }

  function Urn(sum: seq<bv8>): string
    requires |sum| == 32
  {
    "urn:uuid:" + Hex(sum[0..4]) + "-" + Hex(sum[4..6]) + "-" + Hex(sum[6..8]) + "-" + Hex(sum[8..10]) + "-" + Hex(sum[10..16])
  }

  function Serial(application: string, refs: seq<string>, hash: Hash): string
    requires |hash(Preimage(application, refs))| == 32
  {
    Urn(Marked(hash(Preimage(application, refs))))
  }

  /** The digest is edited in place and printed. */
  method SerialNumber(application: string, refs: seq<string>, hash: Hash) returns (serial: string)
    requires Digests(hash)
    ensures serial == Serial(application, refs, hash)
  {
    var digested := application;
    for i := 0 to |refs|
      invariant digested == Preimage(application, refs[..i])
    {
      PreimageSnoc(application, refs[..i], refs[i]);
      assert refs[..i + 1] == refs[..i] + [refs[i]];
      digested := digested + ['\0'] + refs[i];
    }
    assert refs[..|refs|] == refs;
    var digest := hash(digested);
    var sum := new bv8[32](i requires 0 <= i < 32 => digest[i]);
    assert sum[..] == digest;
    sum[6] := (sum[6] & 0x0f) | 0x80;
    sum[8] := (sum[8] & 0x3f) | 0x80;
    assert sum[..] == Marked(digest);
    serial := Urn(sum[..]);
  }

  lemma PreimageSnoc(application: string, refs: seq<string>, ref: string)
    ensures Preimage(application, refs + [ref]) == Preimage(application, refs) + ['\0'] + ref
  {
    assert [application] + (refs + [ref]) == ([application] + refs) + [ref];
    JoinSnoc([application] + refs, ref);
  }

  lemma {:induction false} JoinSnoc(parts: seq<string>, part: string)
    requires parts != []
    ensures Join(parts + [part], '\0') == Join(parts, '\0') + ['\0'] + part
  {
    if |parts| == 1 {
      assert (parts + [part])[1..] == [part];
    } else {
      JoinSnoc(parts[1..], part);
      assert (parts + [part])[1..] == parts[1..] + [part];
      assert (parts + [part])[0] == parts[0];
    }
  }

  /** Different content is hashed differently, as long as nothing in it holds the separator. */
  lemma PreimageInjective(a: string, refs: seq<string>, b: string, others: seq<string>)
    requires '\0' !in a && Free(refs, '\0') && '\0' !in b && Free(others, '\0')
    requires Preimage(a, refs) == Preimage(b, others)
    ensures a == b && refs == others
  {
    SplitJoin([a] + refs, '\0');
    SplitJoin([b] + others, '\0');
    assert ([a] + refs)[1..] == refs && ([b] + others)[1..] == others;
  }

  /** The bill is canonical: the order in which the toolchain lists the modules shows nowhere in it. */
  lemma BillCanonical(application: string, toolchain: string, a: seq<Module>, b: seq<Module>, hash: Hash)
    requires Digests(hash) && multiset(a) == multiset(b)
    ensures DependsOn(toolchain, a) == DependsOn(toolchain, b)
    ensures Serial(application, DependsOn(toolchain, a), hash) == Serial(application, DependsOn(toolchain, b), hash)
  {
    RefsCanonical(a, b);
  }

  /** Every serial is a UUID of version 8 and the standard variant, whatever the digest. */
  lemma SerialMarks(application: string, refs: seq<string>, hash: Hash)
    requires Digests(hash)
    ensures var s := Serial(application, refs, hash);
            && |s| == 45
            && s[23] == '8'
            && s[28] in {'8', '9', 'a', 'b'}
  {
    var sum := Marked(hash(Preimage(application, refs)));
    hide Marked, Preimage;
    MarksShow(hash(Preimage(application, refs)));
    UrnAt(sum);
  }

  lemma MarksShow(digest: seq<bv8>)
    requires |digest| == 32
    ensures Digit(Marked(digest)[6] >> 4) == '8'
    ensures Digit(Marked(digest)[8] >> 4) in {'8', '9', 'a', 'b'}
  {
    VersionBits(digest[6]);
    VariantBits(digest[8]);
  }

  lemma VersionBits(x: bv8)
    ensures ((x & 0x0f) | 0x80) >> 4 == 8
  {
  }

  lemma VariantBits(x: bv8)
    ensures 8 <= ((x & 0x3f) | 0x80) >> 4 <= 11
  {
  }

  lemma UrnAt(sum: seq<bv8>)
    requires |sum| == 32
    ensures |Urn(sum)| == 45 && Urn(sum)[23] == Digit(sum[6] >> 4) && Urn(sum)[28] == Digit(sum[8] >> 4)
  {
    hide Digit, Hex;
    HexFirst(sum[6..8]);
    HexFirst(sum[8..10]);
  }

  lemma HexFirst(bytes: seq<bv8>)
    requires bytes != []
    ensures |Hex(bytes)| > 0 && Hex(bytes)[0] == Digit(bytes[0] >> 4)
  {
  }

  /** The marks change six bits of the digest and no other. */
  lemma MarkedKeeps(digest: seq<bv8>)
    requires |digest| == 32
    ensures |Marked(digest)| == 32
    ensures forall i | 0 <= i < 32 && i != 6 && i != 8 :: Marked(digest)[i] == digest[i]
    ensures Marked(digest)[6] & 0x0f == digest[6] & 0x0f && Marked(digest)[8] & 0x3f == digest[8] & 0x3f
  {
    LowBits(digest[6], digest[8]);
  }

  lemma LowBits(x: bv8, y: bv8)
    ensures ((x & 0x0f) | 0x80) & 0x0f == x & 0x0f
    ensures ((y & 0x3f) | 0x80) & 0x3f == y & 0x3f
  {
  }

  const DIGITS := "0123456789abcdef"

  /** A digit is the one at its place in the row of hexadecimal digits. */
  lemma DigitIs(n: bv8, k: nat)
    requires n < 16 && k < 16 && n == k as bv8
    ensures Digit(n) == DIGITS[k]
  {
    if k < 8 {
      assert k == 0 || k == 1 || k == 2 || k == 3 || k == 4 || k == 5 || k == 6 || k == 7;
    } else {
      assert k == 8 || k == 9 || k == 10 || k == 11 || k == 12 || k == 13 || k == 14 || k == 15;
    }
  }

  lemma DigitsDistinct(m: bv8, n: bv8)
    requires m < 16 && n < 16 && Digit(m) == Digit(n)
    ensures m == n
  {
  }

  lemma NibblesTell(x: bv8, y: bv8)
    requires x >> 4 == y >> 4 && x & 0x0f == y & 0x0f
    ensures x == y
  {
  }

  lemma Nibbles(x: bv8)
    ensures x >> 4 < 16 && x & 0x0f < 16
  {
  }

  lemma {:induction false} HexInjective(a: seq<bv8>, b: seq<bv8>)
    requires Hex(a) == Hex(b)
    ensures a == b
  {
    hide Digit;
    assert 2 * |a| == 2 * |b|;
    if a != [] {
      assert Hex(a)[0] == Digit(a[0] >> 4) && Hex(a)[1] == Digit(a[0] & 0x0f) && Hex(a)[2..] == Hex(a[1..]);
      assert Hex(b)[0] == Digit(b[0] >> 4) && Hex(b)[1] == Digit(b[0] & 0x0f) && Hex(b)[2..] == Hex(b[1..]);
      Nibbles(a[0]);
      Nibbles(b[0]);
      DigitsDistinct(a[0] >> 4, b[0] >> 4);
      DigitsDistinct(a[0] & 0x0f, b[0] & 0x0f);
      NibblesTell(a[0], b[0]);
      HexInjective(a[1..], b[1..]);
      assert a == [a[0]] + a[1..] && b == [b[0]] + b[1..];
    }
  }

  /** The parts of a serial, where they stand. */
  lemma UrnParts(sum: seq<bv8>)
    requires |sum| == 32
    ensures var s := Urn(sum);
            && |s| == 45
            && s[9..17] == Hex(sum[0..4]) && s[18..22] == Hex(sum[4..6]) && s[23..27] == Hex(sum[6..8])
            && s[28..32] == Hex(sum[8..10]) && s[33..45] == Hex(sum[10..16])
  {
    hide Hex;
  }

  /** A serial shows the first sixteen bytes: different ones give different serials. */
  lemma SerialTells(a: seq<bv8>, b: seq<bv8>)
    requires |a| == |b| == 32 && Urn(a) == Urn(b)
    ensures a[..16] == b[..16]
  {
    hide Urn, Hex;
    UrnParts(a);
    UrnParts(b);
    HexInjective(a[0..4], b[0..4]);
    HexInjective(a[4..6], b[4..6]);
    HexInjective(a[6..8], b[6..8]);
    HexInjective(a[8..10], b[8..10]);
    HexInjective(a[10..16], b[10..16]);
    assert a[..16] == a[0..4] + a[4..6] + a[6..8] + a[8..10] + a[10..16];
    assert b[..16] == b[0..4] + b[4..6] + b[6..8] + b[8..10] + b[10..16];
  }
}
