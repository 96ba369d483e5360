/**
 Concurrent rewrites of one group's member list, statement by statement. A
 request reads the version of the group, then the hosts it names, then the
 current members, counts how many of those it sees, and only then writes - on
 the version it read first. Other requests, edits of the group and hosts coming
 and going land between any two of these statements.
 */
module GroupRewrites {
  import opened Optional
  import opened FleetPaging
  import opened HostFilter

  type Writer = nat

  /** How far a request got; `current` is the member list it read and `wanted` the one it writes. */
  datatype Phase =
    | Began(scope: set<string>, version: nat)
    | NamedHosts(scope: set<string>, version: nat, wanted: set<string>)
    | ReadList(scope: set<string>, version: nat, wanted: set<string>, current: set<string>)
    | Counted(scope: set<string>, version: nat, wanted: set<string>, current: set<string>)
    | Locked(scope: set<string>, version: nat, wanted: set<string>, current: set<string>)

  /** A rewrite that committed: on which version, by whom, and what it replaced. No step reads it. */
  datatype Rewrite = Rewrite(read: nat, scope: set<string>, before: set<string>, after: set<string>)

  /** The committed rows, who holds the lock of the group's row, and the open requests. */
  datatype State = State(
    hosts: set<string>,
    members: set<string>,
    version: nat,
    holder: Option<Writer>,
    writers: map<Writer, Phase>,
    log: seq<Rewrite>
  )

  /** A group nobody is writing. */
  ghost predicate Quiet(s: State) {
    s.members <= s.hosts && s.holder.None? && s.writers == map[] && s.log == []
  }

  datatype Step =
    | Begin(w: Writer, scope: set<string>)
    | NameHosts(w: Writer, wanted: set<string>)
    | ReadMembers(w: Writer)
    | Count(w: Writer, seen: seq<Host>)
    | Lock(w: Writer)
    | Commit(w: Writer, at: nat)
    | Leave(w: Writer)
    | Edit(read: nat, at: nat)
    | AddHost(id: string)
    | RemoveHost(id: string)

  /** One statement; None when it waits, is refused, or is not the next one of its request. */
  ghost function Next(s: State, step: Step): Option<State> {
    match step
    case Begin(w, scope) =>
      if w in s.writers then None else Some(Moved(s, w, Began(scope, s.version)))
    case NameHosts(w, wanted) =>
      if w !in s.writers || !s.writers[w].Began? || !(wanted <= s.hosts * s.writers[w].scope) then None
      else Some(Moved(s, w, NamedHosts(s.writers[w].scope, s.writers[w].version, wanted)))
    case ReadMembers(w) =>
      if w !in s.writers || !s.writers[w].NamedHosts? then None
      else
        var p := s.writers[w];
        Some(Moved(s, w, ReadList(p.scope, p.version, p.wanted, s.members)))
    case Count(w, seen) =>
      // The pages behind the count are read one by one, so a host may be gone by now;
      // what was found was a member, in scope, and found once.
      if w !in s.writers || !s.writers[w].ReadList? then None
      else
        var p := s.writers[w];
        if !Distinct(seen) || !(IdsOf(seen) <= p.current * p.scope) || |seen| < |p.current| then None
        else Some(Moved(s, w, Counted(p.scope, p.version, p.wanted, p.current)))
    case Lock(w) =>
      // The conditional update: it waits for the holder of the row, then compares.
      if w !in s.writers || !s.writers[w].Counted? || s.holder.Some? || s.writers[w].version != s.version then None
      else
        var p := s.writers[w];
        Some(Moved(s, w, Locked(p.scope, p.version, p.wanted, p.current)).(holder := Some(w)))
    case Commit(w, at) =>
      // Every host of the list still exists, or the transaction is rolled back.
      if w !in s.writers || !s.writers[w].Locked? || !(s.writers[w].wanted <= s.hosts) || at <= s.version then None
      else
        var p := s.writers[w];
        Some(State(s.hosts, p.wanted, at, None, s.writers - {w},
                   s.log + [Rewrite(p.version, p.scope, s.members, p.wanted)]))
    case Leave(w) =>
      if w !in s.writers then None
      else Some(s.(writers := s.writers - {w}, holder := if s.holder == Some(w) then None else s.holder))
    case Edit(read, at) =>
      if s.holder.Some? || read != s.version || at <= s.version then None
      else Some(s.(version := at))
    case AddHost(id) => Some(s.(hosts := s.hosts + {id}))
    case RemoveHost(id) => Some(s.(hosts := s.hosts - {id}, members := s.members - {id}))
  }

  function Moved(s: State, w: Writer, p: Phase): State {
    s.(writers := s.writers[w := p])
  }

  ghost function Run(s: State, steps: seq<Step>): Option<State>
    decreases |steps|
  {
    if steps == [] then Some(s)
    else
      var next := Next(s, steps[0]);
      if next.None? then None else Run(next.value, steps[1..])
  }

  // ----- what every step keeps -----

  /** A request at the version the group still carries has read every member there is. */
  ghost predicate Sound(s: State, w: Writer, p: Phase) {
    && p.version <= s.version
    && (!p.Began? ==> p.wanted <= p.scope)
    && (p.ReadList? || p.Counted? || p.Locked? ==> p.version == s.version ==> s.members <= p.current)
    && (p.Counted? || p.Locked? ==> p.current <= p.scope)
    && (p.Locked? ==> s.holder == Some(w) && p.version == s.version)
  }

  ghost predicate AllSound(s: State) {
    forall w | w in s.writers :: Sound(s, w, s.writers[w])
  }

  /** Nobody removed or added a host they could not see, and no version was replaced twice. */
  ghost predicate Trusted(log: seq<Rewrite>, version: nat) {
    && (forall i | 0 <= i < |log| :: log[i].before <= log[i].scope && log[i].after <= log[i].scope)
    && (forall i | 0 <= i < |log| :: log[i].read < version)
    && (forall i, j | 0 <= i < j < |log| :: log[i].read < log[j].read)
  }

  ghost predicate Inv(s: State) {
    s.members <= s.hosts && AllSound(s) && Trusted(s.log, s.version)
  }

  /** The count comes out right only when every member read is in scope. */
  lemma CountedIsSeen(seen: seq<Host>, current: set<string>, scope: set<string>)
    requires Distinct(seen) && IdsOf(seen) <= current * scope && |seen| >= |current|
    ensures current <= scope
  {
    DistinctCount(seen);
    Pigeonhole(IdsOf(seen), current);
  }

  lemma NextKeeps(s: State, step: Step)
    requires Inv(s) && Next(s, step).Some?
    ensures Inv(Next(s, step).value)
  {
    hide Distinct, IdsOf;
    var t := Next(s, step).value;
    if step.Count? {
      CountedIsSeen(step.seen, s.writers[step.w].current, s.writers[step.w].scope);
    }
    if step.Commit? {
      var p := s.writers[step.w];
      assert Sound(s, step.w, p);
      TrustedGrows(s.log, s.version, step.at, Rewrite(p.version, p.scope, s.members, p.wanted));
    }
    forall w | w in t.writers ensures Sound(t, w, t.writers[w]) {
      if w in s.writers {
        assert Sound(s, w, s.writers[w]);
      }
    }
  }

  lemma TrustedGrows(log: seq<Rewrite>, version: nat, at: nat, entry: Rewrite)
    requires Trusted(log, version) && entry.read == version < at
    requires entry.before <= entry.scope && entry.after <= entry.scope
    ensures Trusted(log + [entry], at)
  {
  }

  lemma {:induction false} RunKeeps(s: State, steps: seq<Step>)
    requires Inv(s) && Run(s, steps).Some?
    ensures Inv(Run(s, steps).value)
    decreases |steps|
  {
    if steps != [] {
      NextKeeps(s, steps[0]);
      RunKeeps(Next(s, steps[0]).value, steps[1..]);
    }
  }

  // ----- what it is for -----

  /**
   In every interleaving, a committed rewrite removed no member its writer could
   not see and added none either, and of the requests that read one version at
   most one committed.
   */
  lemma NobodyRemovedUnseen(s: State, steps: seq<Step>, i: nat)
    requires Quiet(s) && Run(s, steps).Some?
    requires i < |Run(s, steps).value.log|
    ensures var log := Run(s, steps).value.log;
            && log[i].before - log[i].after <= log[i].scope
            && log[i].after - log[i].before <= log[i].scope
            && forall j | 0 <= j < |log| && j != i :: log[j].read != log[i].read
  {
    RunKeeps(s, steps);
    assert Trusted(Run(s, steps).value.log, Run(s, steps).value.version);
  }

  /**
   The same for one request: from any reachable state in which it has read the
   version, whatever the others do meanwhile, it can lock the row only while the
   members are still among those it counted, all of them in its scope.
   */
  lemma LockMeansFresh(s: State, steps: seq<Step>, w: Writer)
    requires Quiet(s) && Run(s, steps).Some?
    requires Next(Run(s, steps).value, Lock(w)).Some?
    ensures var t := Run(s, steps).value;
            t.members <= t.writers[w].current <= t.writers[w].scope
  {
    RunKeeps(s, steps);
    assert Sound(Run(s, steps).value, w, Run(s, steps).value.writers[w]);
  }

  lemma RunStep(s: State, step: Step, rest: seq<Step>)
    requires Next(s, step).Some?
    ensures Run(s, [step] + rest) == Run(Next(s, step).value, rest)
  {
    assert ([step] + rest)[1..] == rest;
  }

  function WholeRequest(w: Writer, scope: set<string>, wanted: set<string>, seen: seq<Host>, at: nat): seq<Step> {
    [Begin(w, scope)] + ([NameHosts(w, wanted)] + ([ReadMembers(w)] + ([Count(w, seen)] +
    ([Lock(w)] + ([Commit(w, at)] + [])))))
  }

  /**
   A request left alone goes through exactly when it sees every member and every
   host it names: it then replaces the list, and otherwise one of its own
   statements is refused, whatever hosts the count found.
   */
  lemma AloneIff(s: State, w: Writer, scope: set<string>, wanted: set<string>, seen: seq<Host>, at: nat)
    requires s.members <= s.hosts && s.holder.None? && w !in s.writers && at > s.version
    requires Distinct(seen) && IdsOf(seen) == s.members * scope
    ensures Run(s, WholeRequest(w, scope, wanted, seen, at)).Some?
            <==> s.members <= scope && wanted <= s.hosts * scope
    ensures var t := Run(s, WholeRequest(w, scope, wanted, seen, at));
            t.Some? ==>
              && t.value.members == wanted && t.value.version == at && t.value.hosts == s.hosts
              && t.value.holder.None? && t.value.writers == s.writers
              && t.value.log == s.log + [Rewrite(s.version, scope, s.members, wanted)]
  {
    hide Run, Distinct, IdsOf;
    var a := Moved(s, w, Began(scope, s.version));
    var rest := [Count(w, seen)] + ([Lock(w)] + ([Commit(w, at)] + []));
    RunStep(s, Begin(w, scope), [NameHosts(w, wanted)] + ([ReadMembers(w)] + rest));
    if wanted <= s.hosts * scope {
      var b := Moved(a, w, NamedHosts(scope, s.version, wanted));
      RunStep(a, NameHosts(w, wanted), [ReadMembers(w)] + rest);
      var c := Moved(b, w, ReadList(scope, s.version, wanted, s.members));
      RunStep(b, ReadMembers(w), rest);
      DistinctCount(seen);
      if s.members <= scope {
        assert IdsOf(seen) == s.members;
        var d := Moved(c, w, Counted(scope, s.version, wanted, s.members));
        RunStep(c, Count(w, seen), [Lock(w)] + ([Commit(w, at)] + []));
        var e := Moved(d, w, Locked(scope, s.version, wanted, s.members)).(holder := Some(w));
        RunStep(d, Lock(w), [Commit(w, at)] + []);
        RunStep(e, Commit(w, at), []);
        RunNothing(Next(e, Commit(w, at)).value);
        assert e.writers - {w} == s.writers;
      } else {
        if |seen| >= |s.members| {
          CountedIsSeen(seen, s.members, scope);
        }
        RunRefused(c, Count(w, seen), [Lock(w)] + ([Commit(w, at)] + []));
      }
    } else {
      RunRefused(a, NameHosts(w, wanted), [ReadMembers(w)] + rest);
    }
  }

  /** A request that leaves, or crashes, lets the row go and does nothing more. */
  lemma LeaveLetsGo(s: State, w: Writer)
    requires w in s.writers
    ensures var t := Next(s, Leave(w));
            && t.Some?
            && t.value.holder != Some(w) && w !in t.value.writers
            && t.value.members == s.members && t.value.version == s.version
            && (forall v | v != w && v in s.writers :: v in t.value.writers && t.value.writers[v] == s.writers[v])
  {
  }

  /** A host that is registered can be named; one that is removed is no member any more. */
  lemma HostsComeAndGo(s: State, id: string)
    ensures Next(s, AddHost(id)).Some? && id in Next(s, AddHost(id)).value.hosts
    ensures Next(s, AddHost(id)).value.members == s.members
    ensures Next(s, RemoveHost(id)).Some?
    ensures id !in Next(s, RemoveHost(id)).value.hosts && Next(s, RemoveHost(id)).value.members == s.members - {id}
  {
  }

  lemma RunRefused(s: State, step: Step, rest: seq<Step>)
    requires Next(s, step).None?
    ensures Run(s, [step] + rest).None?
  {
  }

  lemma RunNothing(s: State)
    ensures Run(s, []) == Some(s)
  {
  }

  /**
   An edit of the group on its current version goes through while nobody holds the
   row, leaves the members alone, and no request opened before it can write any more.
   */
  lemma EditInvalidates(s: State, steps: seq<Step>, at: nat, w: Writer)
    requires Quiet(s) && Run(s, steps).Some?
    requires Run(s, steps).value.holder.None? && at > Run(s, steps).value.version
    ensures var before := Run(s, steps).value;
            var edited := Next(before, Edit(before.version, at));
            && edited.Some?
            && edited.value.version == at && edited.value.members == before.members
            && (w in before.writers ==> Next(edited.value, Lock(w)).None?)
  {
    RunKeeps(s, steps);
    var before := Run(s, steps).value;
    if w in before.writers {
      assert Sound(before, w, before.writers[w]);
    }
  }
}
