/**
 Reading the fleet page by page: the keyset query of the host store, the loop
 that collects every match, and the sweep that visits them under a time budget
 and can be resumed from the last key.
 */
module FleetPaging {
  import opened Order

  datatype Host = Host(hostname: string, id: string)

  const PAGE_SIZE: nat := 500
  const MAX_SNAPSHOT: nat := 10000
  const ZERO_ID := "00000000-0000-0000-0000-000000000000"

  /** The order of the key (hostname, id). */
  predicate KeyLess(a: Host, b: Host) {
    Less(a.hostname, b.hostname) || (a.hostname == b.hostname && Less(a.id, b.id))
  }

  /** The matches of a filter as the plain ordered query returns them. */
  ghost predicate Ordered(fleet: seq<Host>) {
    forall i, j | 0 <= i < j < |fleet| :: KeyLess(fleet[i], fleet[j])
  }

  /** Every host has a name; nothing in the store demands it. */
  ghost predicate AllNamed(fleet: seq<Host>) {
    forall i | 0 <= i < |fleet| :: fleet[i].hostname != []
  }

  lemma KeyIrreflexive(a: Host, b: Host)
    requires KeyLess(a, b)
    ensures !KeyLess(b, a) && a != b
  {
    Irreflexive(a.hostname);
    Irreflexive(a.id);
    if Less(a.hostname, b.hostname) {
      Asymmetric(a.hostname, b.hostname);
    } else {
      Asymmetric(a.id, b.id);
    }
  }

  // ----- the query -----

  function Behind(fleet: seq<Host>, key: Host): seq<Host> {
    if fleet == [] then []
    else (if KeyLess(key, fleet[0]) then [fleet[0]] else []) + Behind(fleet[1..], key)
  }

  /** The matches behind a key; an empty name means from the start. */
  function Remaining(fleet: seq<Host>, afterName: string, afterID: string): seq<Host> {
    if afterName == [] then fleet
    else Behind(fleet, Host(afterName, if afterID == [] then ZERO_ID else afterID))
  }

  function Page(fleet: seq<Host>, afterName: string, afterID: string): (page: seq<Host>)
    ensures |page| <= PAGE_SIZE
  {
    var rest := Remaining(fleet, afterName, afterID);
    if |rest| > PAGE_SIZE then rest[..PAGE_SIZE] else rest
  }

  lemma {:induction false} BehindAll(fleet: seq<Host>, key: Host)
    requires forall i | 0 <= i < |fleet| :: KeyLess(key, fleet[i])
    ensures Behind(fleet, key) == fleet
  {
    if fleet != [] {
      assert KeyLess(key, fleet[0]);
      BehindAll(fleet[1..], key);
    }
  }

  /** Behind the key of one match come the matches after it, and only they. */
  lemma {:induction false} BehindMatch(fleet: seq<Host>, k: nat)
    requires Ordered(fleet) && k < |fleet|
    ensures Behind(fleet, fleet[k]) == fleet[k + 1..]
  {
    if k == 0 {
      Irreflexive(fleet[0].hostname);
      Irreflexive(fleet[0].id);
      BehindAll(fleet[1..], fleet[0]);
    } else {
      KeyIrreflexive(fleet[0], fleet[k]);
      BehindMatch(fleet[1..], k - 1);
      assert fleet[1..][k - 1] == fleet[k];
      assert fleet[1..][k..] == fleet[k + 1..];
    }
  }

  /** Resuming from a match: the matches after it, or everything when it has no name. */
  lemma ResumeFrom(fleet: seq<Host>, k: nat)
    requires Ordered(fleet) && Identified(fleet) && k < |fleet|
    ensures Remaining(fleet, fleet[k].hostname, fleet[k].id)
            == if fleet[k].hostname == [] then fleet else fleet[k + 1..]
  {
    if fleet[k].hostname != [] {
      BehindMatch(fleet, k);
    }
  }

  lemma FromTheStart(fleet: seq<Host>)
    ensures Remaining(fleet, [], []) == fleet[0..]
  {
  }

  ghost predicate Identified(fleet: seq<Host>) {
    forall i | 0 <= i < |fleet| :: fleet[i].id != []
  }

  /** The nameless matches come first, so a named match has only named ones behind it. */
  lemma NamedBehind(fleet: seq<Host>, i: nat, j: nat)
    requires Ordered(fleet) && i <= j < |fleet| && fleet[i].hostname != []
    ensures fleet[j].hostname != []
  {
  }

  // ----- collecting every match -----

  /** The page behind a key is the next part of the fleet, up to its size. */
  lemma PageFrom(fleet: seq<Host>, k: nat, afterName: string, afterID: string)
    requires k <= |fleet| && Remaining(fleet, afterName, afterID) == fleet[k..]
    ensures Page(fleet, afterName, afterID)
            == if k + PAGE_SIZE < |fleet| then fleet[k..k + PAGE_SIZE] else fleet[k..]
  {
    if k + PAGE_SIZE < |fleet| {
      assert fleet[k..][..PAGE_SIZE] == fleet[k..k + PAGE_SIZE];
    }
  }

  lemma NamelessMeansStart(fleet: seq<Host>, afterID: string)
    ensures Remaining(fleet, [], afterID) == fleet[0..]
  {
  }

  datatype Collected = Hosts(hosts: seq<Host>) | TooBroad

  /**
   The loop over the pages. It returns exactly the matches of the plain query, or
   the too-broad error - and the error comes exactly when 10500 or more hosts
   match, or when the five-hundredth match has no name and the loop starts over.
   */
  method PageHosts(fleet: seq<Host>) returns (collected: Collected)
    requires Ordered(fleet) && Identified(fleet)
    ensures collected.Hosts? ==> collected.hosts == fleet
    ensures collected.TooBroad? <==>
              || |fleet| >= MAX_SNAPSHOT + PAGE_SIZE
              || (|fleet| >= PAGE_SIZE && fleet[PAGE_SIZE - 1].hostname == [])
  {
    hide Ordered, Identified, Page, Remaining;
    assert Remaining(fleet, [], []) == fleet[0..] by {
      FromTheStart(fleet);
    }
    var result: seq<Host> := [];
    var afterName, afterID: string := [], [];
    ghost var stuck := |fleet| >= PAGE_SIZE && fleet[PAGE_SIZE - 1].hostname == [];
    ghost var pages := 0;
    while true
      invariant |result| == pages * PAGE_SIZE <= MAX_SNAPSHOT
      invariant stuck ==> afterName == []
      invariant !stuck ==> |result| <= |fleet| && result == fleet[..|result|]
      invariant !stuck ==> Remaining(fleet, afterName, afterID) == fleet[|result|..]
      decreases MAX_SNAPSHOT + PAGE_SIZE - |result|
    {
      var page := Page(fleet, afterName, afterID);
      if stuck {
        assert Remaining(fleet, afterName, afterID) == fleet[0..] by {
          NamelessMeansStart(fleet, afterID);
        }
        PageFrom(fleet, 0, afterName, afterID);
      } else {
        PageFrom(fleet, |result|, afterName, afterID);
      }
      result := result + page;
      if |page| < PAGE_SIZE {
        return Hosts(result);
      }
      if |result| > MAX_SNAPSHOT {
        return TooBroad;
      }
      pages := pages + 1;
      var last := page[|page| - 1];
      afterName, afterID := last.hostname, last.id;
      if !stuck {
        assert last == fleet[|result| - 1];
        NamedBehind(fleet, PAGE_SIZE - 1, |result| - 1);
        ResumeFrom(fleet, |result| - 1);
      }
    }
  }

  // ----- sweeping -----

  /** How one sweep ended: the last match reached, cut by the visitor, or out of time. */
  datatype Ending = Finished | Stopped | OutOfTime

  datatype Sweep = Sweep(visited: seq<Host>, ending: Ending) {
    predicate Cut() { !ending.Finished? }
  }

  /**
   One call: the visitor answers "no more" at its `patience`-th host (0 is never),
   and the clock passes the deadline after `pages` further full pages.
   */
  datatype Call = Call(patience: nat, pages: nat)

  /** The hosts of a page in order, until the visitor has had enough. */
  function Walk(page: seq<Host>, patience: nat, sofar: seq<Host>): (seen: seq<Host>)
    ensures page != [] ==> |seen| > |sofar|
  {
    if page == [] then sofar
    else
      var seen := sofar + [page[0]];
      if |seen| == patience then seen else Walk(page[1..], patience, seen)
  }

  function SweepFrom(fleet: seq<Host>, afterName: string, afterID: string, call: Call, sofar: seq<Host>): (s: Sweep)
    ensures s.Cut() ==> s.visited != []
    decreases call.pages
  {
    var page := Page(fleet, afterName, afterID);
    if page == [] then Sweep(sofar, Finished)
    else
      var seen := Walk(page, call.patience, sofar);
      if |seen| == call.patience then Sweep(seen, Stopped)
      else if |page| < PAGE_SIZE then Sweep(seen, Finished)
      else if call.pages == 0 then Sweep(seen, OutOfTime)
      else
        var last := seen[|seen| - 1];
        SweepFrom(fleet, last.hostname, last.id, call.(pages := call.pages - 1), seen)
  }

  /** The loop itself, with the record it keeps. */
  method SweepFleet(fleet: seq<Host>, afterName: string, afterID: string, call: Call)
    returns (visited: seq<Host>, swept: nat, partial: bool, lastName: string, lastID: string)
    ensures var s := SweepFrom(fleet, afterName, afterID, call, []);
            && visited == s.visited && partial == s.ending.OutOfTime?
            && swept == |visited|
            && (s.Cut() ==> lastName == visited[swept - 1].hostname && lastID == visited[swept - 1].id)
            && (visited == [] ==> lastName == [] && lastID == [])
  {
    hide Page;
    visited, swept, partial, lastName, lastID := [], 0, false, [], [];
    var name, id, pages := afterName, afterID, call.pages;
    while true
      invariant SweepFrom(fleet, afterName, afterID, call, [])
                == SweepFrom(fleet, name, id, Call(call.patience, pages), visited)
      invariant swept == |visited| && !partial
      invariant visited == [] ==> lastName == [] && lastID == []
      decreases pages
    {
      var page := Page(fleet, name, id);
      if page == [] {
        return;
      }
      ghost var before := visited;
      for i := 0 to |page|
        invariant Walk(page, call.patience, before) == Walk(page[i..], call.patience, visited)
        invariant swept == |visited| == |before| + i
        invariant i > 0 ==> swept != call.patience
        invariant i > 0 ==> visited[swept - 1] == Host(lastName, lastID)
        invariant visited == [] ==> lastName == [] && lastID == []
      {
        assert page[i..][0] == page[i] && page[i..][1..] == page[i + 1..];
        swept := swept + 1;
        visited := visited + [page[i]];
        lastName, lastID := page[i].hostname, page[i].id;
        if swept == call.patience {
          return;
        }
      }
      assert page[|page|..] == [];
      if |page| < PAGE_SIZE {
        return;
      }
      name, id := lastName, lastID;
      if pages == 0 {
        partial := true;
        return;
      }
      pages := pages - 1;
    }
  }

  /** A chain of calls, each resumed from the last key of the one before as long as that one was cut. */
  function Chain(fleet: seq<Host>, afterName: string, afterID: string, calls: seq<Call>): (seq<Host>, bool)
    decreases |calls|
  {
    if calls == [] then ([], false)
    else
      var s := SweepFrom(fleet, afterName, afterID, calls[0], []);
      if !s.Cut() then (s.visited, true)
      else
        var last := s.visited[|s.visited| - 1];
        var rest := Chain(fleet, last.hostname, last.id, calls[1..]);
        (s.visited + rest.0, rest.1)
  }

  lemma {:induction false} WalkVisits(page: seq<Host>, patience: nat, sofar: seq<Host>)
    ensures var seen := Walk(page, patience, sofar);
            var n := |seen| - |sofar|;
            && 0 <= n <= |page| && seen == sofar + page[..n]
            && (n < |page| ==> |seen| == patience)
    decreases |page|
  {
    if page != [] {
      var seen := sofar + [page[0]];
      if |seen| != patience {
        WalkVisits(page[1..], patience, seen);
        var n := |Walk(page[1..], patience, seen)| - |seen|;
        assert page[..n + 1] == [page[0]] + page[1..][..n];
      } else {
        assert page[..1] == [page[0]];
      }
    }
  }

  /** One page from any match on: its hosts are the next matches, walked in order. */
  lemma PageVisits(fleet: seq<Host>, from: nat, afterName: string, afterID: string, patience: nat, sofar: seq<Host>)
    requires from <= |fleet| && Remaining(fleet, afterName, afterID) == fleet[from..]
    ensures var page := Page(fleet, afterName, afterID);
            var seen := Walk(page, patience, sofar);
            var n := |seen| - |sofar|;
            && 0 <= n <= |fleet| - from
            && seen == sofar + fleet[from..from + n]
            && (page == [] <==> from == |fleet|)
            && (|page| < PAGE_SIZE ==> from + |page| == |fleet|)
            && (|seen| != patience ==> n == |page|)
            && (page != [] ==> n > 0)
  {
    hide Walk, Remaining;
    var page := Page(fleet, afterName, afterID);
    WalkVisits(page, patience, sofar);
    var n := |Walk(page, patience, sofar)| - |sofar|;
    assert page[..n] == fleet[from..from + n];
    assert page != [] ==> |Walk(page, patience, sofar)| > |sofar|;
  }

  /** One page of a sweep, and what it goes on with. */
  lemma SweepStep(fleet: seq<Host>, afterName: string, afterID: string, call: Call, sofar: seq<Host>)
    ensures var page := Page(fleet, afterName, afterID);
            var seen := Walk(page, call.patience, sofar);
            SweepFrom(fleet, afterName, afterID, call, sofar) ==
              if page == [] then Sweep(sofar, Finished)
              else if |seen| == call.patience then Sweep(seen, Stopped)
              else if |page| < PAGE_SIZE then Sweep(seen, Finished)
              else if call.pages == 0 then Sweep(seen, OutOfTime)
              else SweepFrom(fleet, seen[|seen| - 1].hostname, seen[|seen| - 1].id, call.(pages := call.pages - 1), seen)
  {
    hide Page, Walk;
  }

  lemma NamedResume(fleet: seq<Host>, k: nat)
    requires Ordered(fleet) && Identified(fleet) && AllNamed(fleet) && k < |fleet|
    ensures Remaining(fleet, fleet[k].hostname, fleet[k].id) == fleet[k + 1..]
  {
    ResumeFrom(fleet, k);
  }

  lemma Continues(before: seq<Host>, fleet: seq<Host>, from: nat, n: nat, m: nat)
    requires from + n + m <= |fleet|
    ensures (before + fleet[from..from + n]) + fleet[from + n..from + n + m] == before + fleet[from..from + n + m]
  {
    assert fleet[from..from + n + m] == fleet[from..from + n] + fleet[from + n..from + n + m];
  }

  /** On a named fleet a sweep from any match on visits the matches in order, all of them unless it was cut. */
  lemma {:induction false} SweepVisits(fleet: seq<Host>, from: nat, afterName: string, afterID: string, call: Call, sofar: seq<Host>)
    requires Ordered(fleet) && Identified(fleet) && AllNamed(fleet) && from <= |fleet|
    requires Remaining(fleet, afterName, afterID) == fleet[from..]
    ensures var s := SweepFrom(fleet, afterName, afterID, call, sofar);
            var n := |s.visited| - |sofar|;
            && 0 <= n <= |fleet| - from
            && s.visited == sofar + fleet[from..from + n]
            && (s.ending.Finished? ==> from + n == |fleet|)
            && (s.Cut() ==> n > 0)
    decreases call.pages
  {
    hide Ordered, Identified, AllNamed, Remaining, Walk, Page, SweepFrom;
    var page := Page(fleet, afterName, afterID);
    var seen := Walk(page, call.patience, sofar);
    SweepStep(fleet, afterName, afterID, call, sofar);
    PageVisits(fleet, from, afterName, afterID, call.patience, sofar);
    var n := |seen| - |sofar|;
    if page == [] {
      assert sofar == sofar + fleet[from..from];
    } else if |seen| != call.patience && |page| == PAGE_SIZE && call.pages > 0 {
      var last := seen[|seen| - 1];
      assert last == fleet[from + n - 1];
      assert Remaining(fleet, last.hostname, last.id) == fleet[from + n..] by {
        NamedResume(fleet, from + n - 1);
      }
      SweepVisits(fleet, from + n, last.hostname, last.id, call.(pages := call.pages - 1), seen);
      var m := |SweepFrom(fleet, last.hostname, last.id, call.(pages := call.pages - 1), seen).visited| - |seen|;
      Continues(sofar, fleet, from, n, m);
    }
  }

  /** Sweeps compose: a chain of cut and resumed calls visits what one uninterrupted sweep visits, each host once. */
  lemma {:induction false} ChainComposes(fleet: seq<Host>, from: nat, afterName: string, afterID: string, calls: seq<Call>)
    requires Ordered(fleet) && Identified(fleet) && AllNamed(fleet) && from <= |fleet|
    requires Remaining(fleet, afterName, afterID) == fleet[from..]
    ensures var (visited, done) := Chain(fleet, afterName, afterID, calls);
            && visited <= fleet[from..]
            && (done ==> visited == fleet[from..])
            && (!done ==> |visited| >= |calls|)
    decreases |calls|
  {
    hide Ordered, Identified, AllNamed, Remaining, SweepFrom;
    if calls != [] {
      var s := SweepFrom(fleet, afterName, afterID, calls[0], []);
      SweepVisits(fleet, from, afterName, afterID, calls[0], []);
      var n := |s.visited|;
      assert s.visited == fleet[from..from + n];
      if s.Cut() {
        var last := s.visited[n - 1];
        assert last == fleet[from + n - 1];
        assert Remaining(fleet, last.hostname, last.id) == fleet[from + n..] by {
          NamedResume(fleet, from + n - 1);
        }
        ChainComposes(fleet, from + n, last.hostname, last.id, calls[1..]);
        assert fleet[from..] == fleet[from..from + n] + fleet[from + n..];
      }
    }
  }

  /** The whole chain from the start, and no host twice. */
  lemma SweepsCompose(fleet: seq<Host>, calls: seq<Call>)
    requires Ordered(fleet) && Identified(fleet) && AllNamed(fleet)
    ensures var (visited, done) := Chain(fleet, [], [], calls);
            && visited <= fleet
            && (done ==> visited == fleet)
            && (|calls| > |fleet| ==> done)
            && (forall i, j | 0 <= i < j < |visited| :: visited[i] != visited[j])
  {
    assert fleet[0..] == fleet;
    ChainComposes(fleet, 0, [], [], calls);
    forall i, j | 0 <= i < j < |fleet|
      ensures fleet[i] != fleet[j]
    {
      KeyIrreflexive(fleet[i], fleet[j]);
    }
  }

  /** The condition is needed: with a nameless host, cutting after the first one starts the next call over. */
  lemma {:induction false} NamelessStartsOver(fleet: seq<Host>)
    requires Ordered(fleet) && fleet != [] && !AllNamed(fleet)
    ensures var calls := [Call(1, 0), Call(1, 0)];
            Chain(fleet, [], [], calls) == ([fleet[0], fleet[0]], false)
  {
    if fleet[0].hostname != [] {
      var i :| 0 <= i < |fleet| && fleet[i].hostname == [];
      NamedBehind(fleet, 0, i);
      assert false;
    }
    var one, two := [Call(1, 0)], [Call(1, 0), Call(1, 0)];
    FirstHostOnly(fleet, []);
    FirstHostOnly(fleet, fleet[0].id);
    assert two[1..] == one && one[1..] == [];
    var rest: seq<Host> := [];
    assert Chain(fleet, fleet[0].hostname, fleet[0].id, one[1..]) == (rest, false);
    assert [fleet[0]] + rest == [fleet[0]];
    assert Chain(fleet, [], fleet[0].id, one) == ([fleet[0]], false);
    assert [fleet[0]] + [fleet[0]] == [fleet[0], fleet[0]];
  }

  lemma {:induction false} FirstHostOnly(fleet: seq<Host>, afterID: string)
    requires fleet != []
    ensures SweepFrom(fleet, [], afterID, Call(1, 0), []) == Sweep([fleet[0]], Stopped)
  {
    var page := Page(fleet, [], afterID);
    assert page[0] == fleet[0];
    assert Walk(page, 1, []) == [page[0]];
  }

  /** Sweeps compose exactly on the fleets in which every host has a name. */
  lemma SweepsComposeIff(fleet: seq<Host>)
    requires Ordered(fleet) && Identified(fleet)
    ensures AllNamed(fleet) <==> forall calls: seq<Call> :: Chain(fleet, [], [], calls).0 <= fleet
  {
    hide Chain;
    if AllNamed(fleet) {
      forall calls: seq<Call> ensures Chain(fleet, [], [], calls).0 <= fleet {
        SweepsCompose(fleet, calls);
      }
    } else {
      NamelessStartsOver(fleet);
      var visited := Chain(fleet, [], [], [Call(1, 0), Call(1, 0)]).0;
      if visited <= fleet {
        assert visited[1] == fleet[1];
        KeyIrreflexive(fleet[0], fleet[1]);
      }
    }
  }

  // ----- a call ends by itself -----

  /** On a named fleet a call needs no clock: the matches left behind its key bound its pages. */
  lemma {:induction false} EndsWithoutTheClock(fleet: seq<Host>, from: nat, afterName: string, afterID: string, call: Call, sofar: seq<Host>)
    requires Ordered(fleet) && Identified(fleet) && AllNamed(fleet) && from <= |fleet|
    requires Remaining(fleet, afterName, afterID) == fleet[from..]
    requires (call.pages + 1) * PAGE_SIZE > |fleet| - from
    ensures !SweepFrom(fleet, afterName, afterID, call, sofar).ending.OutOfTime?
    decreases call.pages
  {
    hide Ordered, Identified, Remaining, Walk;
    var page := Page(fleet, afterName, afterID);
    var seen := Walk(page, call.patience, sofar);
    WalkVisits(page, call.patience, sofar);
    var n := |seen| - |sofar|;
    if page != [] && |seen| != call.patience && |page| == PAGE_SIZE && call.pages > 0 {
      assert page[..n] == fleet[from..from + n];
      assert seen[|seen| - 1] == fleet[from + n - 1];
      ResumeFrom(fleet, from + n - 1);
      EndsWithoutTheClock(fleet, from + n, seen[|seen| - 1].hostname, seen[|seen| - 1].id,
                          call.(pages := call.pages - 1), seen);
    }
  }

  /** A nameless host at the end of a full first page: only the clock ends the call, however late it is. */
  lemma {:induction false} NamelessNeverEnds(fleet: seq<Host>, afterID: string, pages: nat, sofar: seq<Host>)
    requires |fleet| >= PAGE_SIZE && fleet[PAGE_SIZE - 1].hostname == []
    ensures SweepFrom(fleet, [], afterID, Call(0, pages), sofar).ending.OutOfTime?
    decreases pages
  {
    hide Walk;
    var page := Page(fleet, [], afterID);
    assert page == fleet[..PAGE_SIZE];
    var seen := Walk(page, 0, sofar);
    WalkVisits(page, 0, sofar);
    assert |seen| == |sofar| + PAGE_SIZE && seen[|seen| - 1] == fleet[PAGE_SIZE - 1];
    if pages > 0 {
      NamelessNeverEnds(fleet, seen[|seen| - 1].id, pages - 1, seen);
    }
  }

  // ----- a fleet without names -----

  function Tally(n: nat): string {
    seq(n, _ => 'a')
  }

  lemma {:induction false} TallyGrows(i: nat, j: nat)
    requires i < j
    ensures Less(Tally(i), Tally(j))
  {
    if i > 0 {
      TallyGrows(i - 1, j - 1);
      assert Tally(i)[1..] == Tally(i - 1) && Tally(j)[1..] == Tally(j - 1);
    }
  }

  function Nameless(n: nat): seq<Host> {
    seq(n, (i: nat) => Host([], Tally(i + 1)))
  }

  /** Five hundred matches without a name are enough for the too-broad error. */
  lemma NamelessFleet(n: nat)
    ensures Ordered(Nameless(n)) && Identified(Nameless(n)) && |Nameless(n)| == n
    ensures n >= PAGE_SIZE ==> Nameless(n)[PAGE_SIZE - 1].hostname == []
  {
    var fleet := Nameless(n);
    forall i, j | 0 <= i < j < n ensures KeyLess(fleet[i], fleet[j]) {
      TallyGrows(i + 1, j + 1);
    }
  }

  /** The matches behind a key are those greater than it, by name first and by identifier within a name. */
  lemma {:induction false} BehindIff(fleet: seq<Host>, key: Host, h: Host)
    ensures h in Behind(fleet, key) <==>
              h in fleet && (Less(key.hostname, h.hostname) || (h.hostname == key.hostname && Less(key.id, h.id)))
  {
    if fleet != [] {
      BehindIff(fleet[1..], key, h);
      assert fleet == [fleet[0]] + fleet[1..];
    }
  }

  /** A name without an identifier resumes at the first host of that name whose identifier is not the zero one. */
  lemma ResumeByName(fleet: seq<Host>, name: string, h: Host)
    requires name != []
    ensures h in Remaining(fleet, name, []) <==>
              h in fleet && (Less(name, h.hostname) || (h.hostname == name && Less(ZERO_ID, h.id)))
  {
    BehindIff(fleet, Host(name, ZERO_ID), h);
  }
}
