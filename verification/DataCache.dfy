/** The data cache's fetch protocol as a step system. Any number of calls of GetObject run at once; a step
    is what one of them does while it holds the two mutexes, a broadcast, a wake-up, or a drop or put by
    somebody else. Whatever the four kinds of objects share is one state here: a coordinate carries its
    kind, and the condition a call waits on is its kind's. */
module CacheProtocol {
  import opened Arith

  datatype Coord = Coord(kind: nat, id: nat)

  type Object = nat

  const PACK: nat := 0

  /** A call that has not returned: parked on the condition, woken but not yet running again, fetching
      its object, or done but for the broadcast it owes. */
  datatype Call = Parked(c: Coord) | Woken(c: Coord) | Fetching(c: Coord) | Owing(c: Coord)

  datatype State = State(
    calls: map<nat, Call>,
    cache: map<Coord, Object>,
    pending: set<Coord>,
    waiting: int,
    loading: int,
    hits: nat,
    misses: nat,
    released: nat,
    readWait: nat,
    falseWakeup: nat,
    packLoads: nat,
    loadErrors: nat)

  const Init := State(map[], map[], {}, 0, 0, 0, 0, 0, 0, 0, 0, 0)

  function Packs(c: Coord): nat {
    if c.kind == PACK then 1 else 0
  }

  /** Everybody parked on the condition of a kind is woken. */
  function Wake(calls: map<nat, Call>, kind: nat): (w: map<nat, Call>)
    ensures w.Keys == calls.Keys
    ensures forall t :: t in calls ==>
              w[t] == if calls[t].Parked? && calls[t].c.kind == kind then Woken(calls[t].c) else calls[t]
  {
    map t | t in calls :: if calls[t].Parked? && calls[t].c.kind == kind then Woken(calls[t].c) else calls[t]
  }

  function StartFetch(s: State, t: nat, c: Coord): State {
    s.(pending := s.pending + {c}, loading := s.loading + 1, calls := s.calls[t := Fetching(c)])
  }

  function Begin(s: State, t: nat, c: Coord): State {
    if c in s.cache then s.(hits := s.hits + Packs(c))
    else
      var s1 := s.(misses := s.misses + Packs(c));
      if c in s.pending then
        s1.(waiting := s1.waiting + 1, readWait := s1.readWait + 1, calls := s1.calls[t := Parked(c)])
      else StartFetch(s1, t, c)
  }

  function Resume(s: State, t: nat): State
    requires t in s.calls
  {
    var c := s.calls[t].c;
    if c in s.pending then s.(falseWakeup := s.falseWakeup + 1, calls := s.calls[t := Parked(c)])
    else
      var s1 := s.(waiting := s.waiting - 1);
      if c in s1.cache then s1.(calls := s1.calls - {t}) else StartFetch(s1, t, c)
  }

  function FetchFailed(s: State, t: nat): State
    requires t in s.calls
  {
    var c := s.calls[t].c;
    s.(loadErrors := s.loadErrors + 1, loading := s.loading - 1, pending := s.pending - {c},
       calls := Wake(s.calls - {t}, c.kind))
  }

  function Fetched(s: State, t: nat, o: Object): State
    requires t in s.calls
  {
    var c := s.calls[t].c;
    s.(packLoads := s.packLoads + Packs(c), loading := s.loading - 1, cache := s.cache[c := o],
       pending := s.pending - {c}, calls := s.calls[t := Owing(c)])
  }

  function Broadcast(s: State, t: nat): State
    requires t in s.calls
  {
    s.(calls := Wake(s.calls - {t}, s.calls[t].c.kind))
  }

  function Spurious(s: State, t: nat): State
    requires t in s.calls
  {
    s.(calls := s.calls[t := Woken(s.calls[t].c)])
  }

  function Drop(s: State, c: Coord): State {
    if c in s.cache then s.(cache := s.cache - {c}, released := s.released + 1) else s
  }

  function Put(s: State, c: Coord, o: Object): State {
    s.(cache := s.cache[c := o], released := s.released + if c in s.cache && s.cache[c] != o then 1 else 0)
  }

  datatype Step =
    | BeginStep(t: nat, c: Coord)
    | ResumeStep(t: nat)
    | FailStep(t: nat)
    | FetchedStep(t: nat, o: Object)
    | BroadcastStep(t: nat)
    | SpuriousStep(t: nat)
    | DropStep(c: Coord)
    | PutStep(c: Coord, o: Object)

  /** A put on a coordinate that is being fetched is not part of the protocol. */
  predicate Enabled(s: State, a: Step) {
    match a
    case BeginStep(t, _) => t !in s.calls
    case ResumeStep(t) => t in s.calls && s.calls[t].Woken?
    case FailStep(t) => t in s.calls && s.calls[t].Fetching?
    case FetchedStep(t, _) => t in s.calls && s.calls[t].Fetching?
    case BroadcastStep(t) => t in s.calls && s.calls[t].Owing?
    case SpuriousStep(t) => t in s.calls && s.calls[t].Parked?
    case DropStep(_) => true
    case PutStep(c, _) => c !in s.pending
  }

  function Next(s: State, a: Step): State
    requires Enabled(s, a)
  {
    match a
    case BeginStep(t, c) => Begin(s, t, c)
    case ResumeStep(t) => Resume(s, t)
    case FailStep(t) => FetchFailed(s, t)
    case FetchedStep(t, o) => Fetched(s, t, o)
    case BroadcastStep(t) => Broadcast(s, t)
    case SpuriousStep(t) => Spurious(s, t)
    case DropStep(c) => Drop(s, c)
    case PutStep(c, o) => Put(s, c, o)
  }

  /** Calls that are parked or on their way back from it, and what the fetching calls fetch. */
  function Waiters(calls: map<nat, Call>): set<nat> {
    set t | t in calls && (calls[t].Parked? || calls[t].Woken?)
  }

  function Fetchers(calls: map<nat, Call>): map<nat, Coord> {
    map t | t in calls && calls[t].Fetching? :: calls[t].c
  }

  /** The pending coordinates are exactly those being fetched, each by one call. */
  ghost predicate OneFetcherEach(f: map<nat, Coord>, pending: set<Coord>) {
    && f.Values == pending
    && forall t, u :: t in f && u in f && f[t] == f[u] ==> t == u
  }

  ghost predicate OwedOn(calls: map<nat, Call>, kind: nat) {
    exists u :: u in calls && calls[u].Owing? && calls[u].c.kind == kind
  }

  /** A parked call's coordinate is pending, or its condition is still owed a broadcast. */
  ghost predicate NoneStranded(calls: map<nat, Call>, pending: set<Coord>) {
    forall t :: t in calls && calls[t].Parked? ==> calls[t].c in pending || OwedOn(calls, calls[t].c.kind)
  }

  ghost predicate Inv(s: State) {
    && OneFetcherEach(Fetchers(s.calls), s.pending)
    && s.pending !! s.cache.Keys
    && NoneStranded(s.calls, s.pending)
    && s.waiting == |Waiters(s.calls)|
    && s.loading == |s.pending|
  }

  lemma CallChanged(calls: map<nat, Call>, t: nat, call: Call)
    ensures Waiters(calls[t := call]) == Waiters(calls) - {t} + if call.Parked? || call.Woken? then {t} else {}
    ensures Fetchers(calls[t := call]) == if call.Fetching? then Fetchers(calls)[t := call.c] else Fetchers(calls) - {t}
  {
  }

  lemma CallGone(calls: map<nat, Call>, t: nat)
    ensures Waiters(calls - {t}) == Waiters(calls) - {t} && Fetchers(calls - {t}) == Fetchers(calls) - {t}
  {
  }

  lemma CallsWoken(calls: map<nat, Call>, kind: nat)
    ensures Waiters(Wake(calls, kind)) == Waiters(calls) && Fetchers(Wake(calls, kind)) == Fetchers(calls)
  {
  }

  lemma FetcherAdded(f: map<nat, Coord>, pending: set<Coord>, t: nat, c: Coord)
    requires OneFetcherEach(f, pending) && t !in f && c !in pending
    ensures OneFetcherEach(f[t := c], pending + {c})
  {
    var g := f[t := c];
    assert g[t] == c && forall u :: u in f ==> g[u] == f[u];
    forall d | d in pending ensures d in g.Values {
      var u :| u in f && f[u] == d;
      assert g[u] == d;
    }
  }

  lemma FetcherGone(f: map<nat, Coord>, pending: set<Coord>, t: nat)
    requires OneFetcherEach(f, pending) && t in f
    ensures OneFetcherEach(f - {t}, pending - {f[t]})
  {
    var g := f - {t};
    forall d | d in pending - {f[t]} ensures d in g.Values {
      var u :| u in f && f[u] == d;
      assert g[u] == d;
    }
    forall d | d in g.Values ensures d in pending - {f[t]} {
      var u :| u in g && g[u] == d;
      assert f[u] == d;
    }
  }

  /** No call becomes stranded when one call changes that does not stop owing, nor park without cause. */
  lemma StrandedOne(calls: map<nat, Call>, pending: set<Coord>, t: nat, call: Call, more: set<Coord>)
    requires NoneStranded(calls, pending) && pending <= more
    requires t in calls ==> !calls[t].Owing?
    requires call.Parked? ==> call.c in pending
    ensures NoneStranded(calls[t := call], more)
  {
    var n := calls[t := call];
    forall u | u in n && n[u].Parked? && n[u].c !in more ensures OwedOn(n, n[u].c.kind) {
      var v :| v in calls && calls[v].Owing? && calls[v].c.kind == n[u].c.kind;
      assert n[v] == calls[v];
    }
  }

  lemma StrandedLess(calls: map<nat, Call>, pending: set<Coord>, t: nat)
    requires NoneStranded(calls, pending) && (t in calls ==> !calls[t].Owing?)
    ensures NoneStranded(calls - {t}, pending)
  {
    var n := calls - {t};
    forall u | u in n && n[u].Parked? && n[u].c !in pending ensures OwedOn(n, n[u].c.kind) {
      var v :| v in calls && calls[v].Owing? && calls[v].c.kind == n[u].c.kind;
      assert n[v] == calls[v];
    }
  }

  /** A broadcast strands nobody: those on its condition are woken, even if a coordinate of its kind
      stops pending. */
  lemma StrandedWoken(calls: map<nat, Call>, pending: set<Coord>, t: nat, c: Coord)
    requires NoneStranded(calls, pending) && t in calls && calls[t].c.kind == c.kind
    ensures NoneStranded(Wake(calls - {t}, c.kind), pending)
    ensures NoneStranded(Wake(calls - {t}, c.kind), pending - {c})
  {
    var n := Wake(calls - {t}, c.kind);
    forall u | u in n && n[u].Parked? ensures n[u].c in pending - {c} || OwedOn(n, n[u].c.kind) {
      if n[u].c !in pending - {c} {
        assert calls[u] == n[u];
        var v :| v in calls && calls[v].Owing? && calls[v].c.kind == n[u].c.kind;
        assert n[v] == calls[v];
      }
    }
  }

  lemma StrandedOwing(calls: map<nat, Call>, pending: set<Coord>, t: nat, c: Coord)
    requires NoneStranded(calls, pending) && t in calls && calls[t].Fetching?
    ensures NoneStranded(calls[t := Owing(c)], pending - {c})
  {
    var n := calls[t := Owing(c)];
    assert n[t].Owing?;
    forall u | u in n && n[u].Parked? && n[u].c !in pending - {c} ensures OwedOn(n, n[u].c.kind) {
      if n[u].c != c {
        var v :| v in calls && calls[v].Owing? && calls[v].c.kind == n[u].c.kind;
        assert n[v] == calls[v];
      }
    }
  }

  lemma StartFetchKeeps(s: State, t: nat, c: Coord)
    requires OneFetcherEach(Fetchers(s.calls), s.pending) && NoneStranded(s.calls, s.pending)
    requires s.pending !! s.cache.Keys && s.loading == |s.pending| && s.waiting == |Waiters(s.calls) - {t}|
    requires c !in s.pending && c !in s.cache && (t in s.calls ==> s.calls[t].Woken?)
    ensures Inv(StartFetch(s, t, c))
  {
    hide OneFetcherEach, NoneStranded, Fetchers, Waiters;
    NotFetcher(s.calls, t);
    CallChanged(s.calls, t, Fetching(c));
    FetcherAdded(Fetchers(s.calls), s.pending, t, c);
    StrandedOne(s.calls, s.pending, t, Fetching(c), s.pending + {c});
  }

  lemma NotFetcher(calls: map<nat, Call>, t: nat)
    requires t in calls ==> calls[t].Woken?
    ensures t !in Fetchers(calls)
  {
  }

  lemma BeginKeeps(s: State, t: nat, c: Coord)
    requires Inv(s) && t !in s.calls
    ensures Inv(Begin(s, t, c))
  {
    hide OneFetcherEach, NoneStranded, Fetchers, Waiters;
    NotCalling(s.calls, t);
    if c !in s.cache {
      var s1 := s.(misses := s.misses + Packs(c));
      if c in s.pending {
        CallChanged(s.calls, t, Parked(c));
        StrandedOne(s.calls, s.pending, t, Parked(c), s.pending);
      } else {
        StartFetchKeeps(s1, t, c);
      }
    }
  }

  lemma NotCalling(calls: map<nat, Call>, t: nat)
    requires t !in calls
    ensures t !in Waiters(calls) && Waiters(calls) - {t} == Waiters(calls) && Fetchers(calls) - {t} == Fetchers(calls)
  {
  }

  lemma IsWaiter(calls: map<nat, Call>, t: nat)
    requires t in calls && (calls[t].Woken? || calls[t].Parked?)
    ensures t in Waiters(calls) && Waiters(calls) - {t} + {t} == Waiters(calls)
              && Fetchers(calls) - {t} == Fetchers(calls)
    ensures |Waiters(calls) - {t}| == |Waiters(calls)| - 1
  {
  }

  lemma ResumeKeeps(s: State, t: nat)
    requires Inv(s) && t in s.calls && s.calls[t].Woken?
    ensures Inv(Resume(s, t))
  {
    hide OneFetcherEach, NoneStranded, Fetchers, Waiters;
    var c := s.calls[t].c;
    IsWaiter(s.calls, t);
    if c in s.pending {
      CallChanged(s.calls, t, Parked(c));
      StrandedOne(s.calls, s.pending, t, Parked(c), s.pending);
    } else if c in s.cache {
      CallGone(s.calls, t);
      StrandedLess(s.calls, s.pending, t);
    } else {
      StartFetchKeeps(s.(waiting := s.waiting - 1), t, c);
    }
  }

  lemma SpuriousKeeps(s: State, t: nat)
    requires Inv(s) && t in s.calls && s.calls[t].Parked?
    ensures Inv(Spurious(s, t))
  {
    hide OneFetcherEach, NoneStranded, Fetchers, Waiters;
    IsWaiter(s.calls, t);
    CallChanged(s.calls, t, Woken(s.calls[t].c));
    StrandedOne(s.calls, s.pending, t, Woken(s.calls[t].c), s.pending);
  }

  lemma IsFetcher(calls: map<nat, Call>, t: nat)
    requires t in calls && calls[t].Fetching?
    ensures t in Fetchers(calls) && Fetchers(calls)[t] == calls[t].c && Waiters(calls) - {t} == Waiters(calls)
  {
  }

  lemma FetcherPending(f: map<nat, Coord>, pending: set<Coord>, t: nat)
    requires OneFetcherEach(f, pending) && t in f
    ensures f[t] in pending
  {
  }

  lemma FetchFailedKeeps(s: State, t: nat)
    requires Inv(s) && t in s.calls && s.calls[t].Fetching?
    ensures Inv(FetchFailed(s, t))
  {
    hide OneFetcherEach, NoneStranded, Fetchers, Waiters;
    var c := s.calls[t].c;
    IsFetcher(s.calls, t);
    FetcherPending(Fetchers(s.calls), s.pending, t);
    FetcherGone(Fetchers(s.calls), s.pending, t);
    CallGone(s.calls, t);
    CallsWoken(s.calls - {t}, c.kind);
    StrandedWoken(s.calls, s.pending, t, c);
  }

  lemma FetchedKeeps(s: State, t: nat, o: Object)
    requires Inv(s) && t in s.calls && s.calls[t].Fetching?
    ensures s.calls[t].c !in s.cache && Inv(Fetched(s, t, o))
  {
    hide OneFetcherEach, NoneStranded, Fetchers, Waiters;
    var c := s.calls[t].c;
    IsFetcher(s.calls, t);
    FetcherPending(Fetchers(s.calls), s.pending, t);
    FetcherGone(Fetchers(s.calls), s.pending, t);
    CallChanged(s.calls, t, Owing(c));
    StrandedOwing(s.calls, s.pending, t, c);
  }

  lemma IsOwing(calls: map<nat, Call>, t: nat)
    requires t in calls && calls[t].Owing?
    ensures Waiters(calls) - {t} == Waiters(calls) && Fetchers(calls) - {t} == Fetchers(calls)
  {
  }

  lemma BroadcastKeeps(s: State, t: nat)
    requires Inv(s) && t in s.calls && s.calls[t].Owing?
    ensures Inv(Broadcast(s, t))
  {
    hide OneFetcherEach, NoneStranded, Fetchers, Waiters;
    var c := s.calls[t].c;
    IsOwing(s.calls, t);
    CallGone(s.calls, t);
    CallsWoken(s.calls - {t}, c.kind);
    StrandedWoken(s.calls, s.pending, t, c);
  }

  lemma StepKeeps(s: State, a: Step)
    requires Inv(s) && Enabled(s, a)
    ensures Inv(Next(s, a))
  {
    hide OneFetcherEach, NoneStranded, Fetchers, Waiters;
    match a
    case BeginStep(t, c) => BeginKeeps(s, t, c);
    case ResumeStep(t) => ResumeKeeps(s, t);
    case FailStep(t) => FetchFailedKeeps(s, t);
    case FetchedStep(t, o) => FetchedKeeps(s, t, o);
    case BroadcastStep(t) => BroadcastKeeps(s, t);
    case SpuriousStep(t) => SpuriousKeeps(s, t);
    case DropStep(c) =>
    case PutStep(c, o) =>
  }

  /** Runs: any interleaving of enabled steps. */
  ghost predicate Run(s: State, steps: seq<Step>)
    decreases |steps|
  {
    steps == [] || (Enabled(s, steps[0]) && Run(Next(s, steps[0]), steps[1..]))
  }

  ghost function After(s: State, steps: seq<Step>): State
    requires Run(s, steps)
    decreases |steps|
  {
    if steps == [] then s else After(Next(s, steps[0]), steps[1..])
  }

  lemma {:induction false} RunKeeps(s: State, steps: seq<Step>)
    requires Inv(s) && Run(s, steps)
    ensures Inv(After(s, steps))
    decreases |steps|
  {
    hide Inv;
    if steps != [] {
      StepKeeps(s, steps[0]);
      RunKeeps(Next(s, steps[0]), steps[1..]);
    }
  }

  lemma InitInv()
    ensures Inv(Init)
  {
    assert Fetchers(Init.calls) == map[];
    assert Waiters(Init.calls) == {};
  }

  ghost predicate Reachable(s: State) {
    exists steps :: Run(Init, steps) && After(Init, steps) == s
  }

  lemma ReachableInv(s: State)
    requires Reachable(s)
    ensures Inv(s)
  {
    hide Inv;
    var steps :| Run(Init, steps) && After(Init, steps) == s;
    InitInv();
    RunKeeps(Init, steps);
  }

  /** In every reachable state a coordinate is fetched by one call at most, and one that is fetched is
      pending and not cached. */
  lemma SingleFlight(s: State, t: nat, u: nat)
    requires Reachable(s) && t in s.calls && u in s.calls && s.calls[t].Fetching? && s.calls[u].Fetching?
    ensures s.calls[t].c == s.calls[u].c ==> t == u
    ensures s.calls[t].c in s.pending && s.calls[t].c !in s.cache
  {
    ReachableInv(s);
    IsFetcher(s.calls, t);
    IsFetcher(s.calls, u);
  }

  /** A failed fetch leaves its coordinate neither pending nor cached, and nobody fetching it. */
  lemma FailureLeavesNothing(s: State, t: nat)
    requires Reachable(s) && t in s.calls && s.calls[t].Fetching?
    ensures var c, n := s.calls[t].c, Next(s, FailStep(t));
            c !in n.pending && c !in n.cache && forall u :: u in n.calls ==> n.calls[u] != Fetching(c)
  {
    ReachableInv(s);
    StepKeeps(s, FailStep(t));
    SingleFlight(s, t, t);
    var c, n := s.calls[t].c, Next(s, FailStep(t));
    forall u | u in n.calls ensures n.calls[u] != Fetching(c) {
      if n.calls[u] == Fetching(c) {
        IsFetcher(n.calls, u);
        FetcherPending(Fetchers(n.calls), n.pending, u);
      }
    }
  }

  /** In every reachable state the counters tell the parked calls and the pending fetches, and whoever
      is parked waits for a fetch under way or for a broadcast that is owed. */
  lemma NoStrandedWaiter(s: State)
    requires Reachable(s)
    ensures s.waiting == |Waiters(s.calls)| && s.loading == |s.pending| == |Fetchers(s.calls).Keys|
    ensures forall t :: t in s.calls && s.calls[t].Parked? ==>
              || (exists u :: u in s.calls && s.calls[u] == Fetching(s.calls[t].c))
              || (exists u :: u in s.calls && s.calls[u].Owing? && s.calls[u].c.kind == s.calls[t].c.kind)
  {
    ReachableInv(s);
    FetchersCount(Fetchers(s.calls), s.pending);
    forall t | t in s.calls && s.calls[t].Parked? && s.calls[t].c in s.pending
      ensures exists u :: u in s.calls && s.calls[u] == Fetching(s.calls[t].c)
    {
      var u :| u in Fetchers(s.calls) && Fetchers(s.calls)[u] == s.calls[t].c;
      assert s.calls[u] == Fetching(s.calls[t].c);
    }
  }

  lemma {:induction false} FetchersCount(f: map<nat, Coord>, pending: set<Coord>)
    requires OneFetcherEach(f, pending)
    ensures |f.Keys| == |pending|
    decreases |f.Keys|
  {
    if f.Keys != {} {
      var t :| t in f;
      FetcherGone(f, pending, t);
      FetcherPending(f, pending, t);
      FetchersCount(f - {t}, pending - {f[t]});
      assert (f - {t}).Keys == f.Keys - {t};
    } else {
      assert f.Values == {};
    }
  }

  lemma {:induction false} RunSnoc(s: State, steps: seq<Step>)
    requires steps != [] && Run(s, steps)
    ensures var n := |steps| - 1;
            && Run(s, steps[..n]) && Enabled(After(s, steps[..n]), steps[n])
            && After(s, steps) == Next(After(s, steps[..n]), steps[n])
    decreases |steps|
  {
    hide Enabled, Next;
    var n := |steps| - 1;
    if n > 0 {
      RunSnoc(Next(s, steps[0]), steps[1..]);
      assert steps[1..][..n - 1] == steps[..n][1..];
      assert steps[1..][n - 1] == steps[n];
    }
  }

  datatype Asked = Never | Asked(c: Coord)

  /** What call t was last begun for. */
  ghost function LastBegun(steps: seq<Step>, t: nat): Asked {
    if steps == [] then Never
    else
      var n := |steps| - 1;
      if steps[n].BeginStep? && steps[n].t == t then Asked(steps[n].c) else LastBegun(steps[..n], t)
  }

  /** Step i of a run fetches, puts or drops the object of c. */
  ghost predicate Concerns(steps: seq<Step>, i: nat, c: Coord)
    requires i < |steps|
  {
    match steps[i]
    case FetchedStep(t, _) => LastBegun(steps[..i], t) == Asked(c)
    case PutStep(d, _) => d == c
    case DropStep(d) => d == c
    case _ => false
  }

  /** The last step that concerns c is step i, and it stores o. */
  ghost predicate LastStored(steps: seq<Step>, i: nat, c: Coord, o: Object) {
    && i < |steps| && Concerns(steps, i, c) && !steps[i].DropStep? && steps[i].o == o
    && forall j :: i < j < |steps| ==> !Concerns(steps, j, c)
  }

  /** A call under way is about what it was last begun for. */
  lemma {:induction false} CallsBegun(steps: seq<Step>, t: nat)
    requires Run(Init, steps) && t in After(Init, steps).calls
    ensures LastBegun(steps, t) == Asked(After(Init, steps).calls[t].c)
    decreases |steps|
  {
    hide Run, After;
    if steps == [] {
      NothingStored(Coord(0, 0), 0);
    } else {
      var n := |steps| - 1;
      RunSnoc(Init, steps);
      var s := After(Init, steps[..n]);
      CallKept(s, steps[n], t);
      if t in s.calls {
        CallsBegun(steps[..n], t);
      }
    }
  }

  /** A call is begun by a begin only, and keeps its coordinate. */
  lemma CallKept(s: State, a: Step, t: nat)
    requires Enabled(s, a) && t in Next(s, a).calls
    ensures a == BeginStep(t, Next(s, a).calls[t].c) || (t in s.calls && Next(s, a).calls[t].c == s.calls[t].c)
    ensures a.BeginStep? && a.t == t ==> a.c == Next(s, a).calls[t].c
  {
  }

  lemma ConcernsEarlier(steps: seq<Step>, i: nat, c: Coord)
    requires i < |steps| - 1
    ensures Concerns(steps[..|steps| - 1], i, c) <==> Concerns(steps, i, c)
  {
    assert steps[..|steps| - 1][..i] == steps[..i];
  }

  /** What the last step does to a coordinate it does not concern, or does. */
  lemma LastStep(steps: seq<Step>, c: Coord)
    requires steps != [] && Run(Init, steps)
    ensures var n := |steps| - 1;
            && Run(Init, steps[..n])
            && var was, now := After(Init, steps[..n]).cache, After(Init, steps).cache;
            if !Concerns(steps, n, c) then (c in now <==> c in was) && (c in now ==> now[c] == was[c])
            else if steps[n].DropStep? then c !in now else c in now && now[c] == steps[n].o
  {
    hide Run, After, LastBegun;
    var n := |steps| - 1;
    RunSnoc(Init, steps);
    var a := steps[n];
    if a.FetchedStep? {
      CallsBegun(steps[..n], a.t);
    }
  }

  lemma StoredEarlier(steps: seq<Step>, i: nat, c: Coord, o: Object)
    requires steps != []
    ensures var n := |steps| - 1;
            && (i < n ==> (LastStored(steps, i, c, o) <==> LastStored(steps[..n], i, c, o) && !Concerns(steps, n, c)))
            && (i == n ==> (LastStored(steps, i, c, o) <==>
                             Concerns(steps, n, c) && !steps[n].DropStep? && steps[n].o == o))
  {
    hide Concerns;
    var n := |steps| - 1;
    forall j | 0 <= j < n ensures Concerns(steps[..n], j, c) <==> Concerns(steps, j, c) {
      ConcernsEarlier(steps, j, c);
    }
    if i < n && LastStored(steps[..n], i, c, o) && !Concerns(steps, n, c) {
      forall j | i < j < |steps| ensures !Concerns(steps, j, c) {
        assert j < n ==> !Concerns(steps[..n], j, c);
      }
    }
  }

  /** After any run, an object is cached if and only if the last step of the run that fetched, put or dropped
      the object of its coordinate fetched or put this one. */
  lemma {:induction false} CachedIffStored(steps: seq<Step>, c: Coord, o: Object)
    requires Run(Init, steps)
    ensures c in After(Init, steps).cache && After(Init, steps).cache[c] == o
            <==> exists i :: LastStored(steps, i, c, o)
    decreases |steps|
  {
    hide Run, After, Concerns, LastStored;
    if steps == [] {
      NothingStored(c, o);
    } else {
      var n := |steps| - 1;
      LastStep(steps, c);
      CachedIffStored(steps[..n], c, o);
      StoredEarlier(steps, n, c, o);
      if i: nat :| LastStored(steps, i, c, o) {
        StoredInside(steps, i, c, o);
        StoredEarlier(steps, i, c, o);
      }
      if i: nat :| LastStored(steps[..n], i, c, o) {
        StoredInside(steps[..n], i, c, o);
        StoredEarlier(steps, i, c, o);
      }
    }
  }

  lemma NothingStored(c: Coord, o: Object)
    ensures Run(Init, []) && After(Init, []) == Init && forall i :: !LastStored([], i, c, o)
  {
  }

  lemma StoredInside(steps: seq<Step>, i: nat, c: Coord, o: Object)
    requires LastStored(steps, i, c, o)
    ensures i < |steps|
  {
  }

  /** Steps by which calls under way go on, as opposed to calls that begin, spurious wake-ups, and drops
      and puts by others. */
  predicate GoesOn(a: Step) {
    a.ResumeStep? || a.FailStep? || a.FetchedStep? || a.BroadcastStep?
  }

  /** As long as a call is under way, some call can go on. */
  lemma NotStuck(s: State) returns (a: Step)
    requires Inv(s) && s.calls != map[]
    ensures GoesOn(a) && Enabled(s, a)
  {
    var t :| t in s.calls;
    match s.calls[t]
    case Woken(_) => return ResumeStep(t);
    case Fetching(_) => return FailStep(t);
    case Owing(_) => return BroadcastStep(t);
    case Parked(c) =>
      if c in s.pending {
        var u :| u in Fetchers(s.calls) && Fetchers(s.calls)[u] == c;
        return FailStep(u);
      } else {
        var u :| u in s.calls && s.calls[u].Owing? && s.calls[u].c.kind == c.kind;
        return BroadcastStep(u);
      }
  }

  function Busy(calls: map<nat, Call>): set<nat> {
    set t | t in calls && !calls[t].Owing?
  }

  function Owers(calls: map<nat, Call>): set<nat> {
    set t | t in calls && calls[t].Owing?
  }

  function Wakened(calls: map<nat, Call>): set<nat> {
    set t | t in calls && calls[t].Woken?
  }

  /** With n calls under way, how many more steps they can take. */
  function Rank(calls: map<nat, Call>, n: nat): nat {
    Weight(|Busy(calls)|, |Owers(calls)|, |Wakened(calls)|, n)
  }

  function Weight(busy: nat, owers: nat, woken: nat, n: nat): nat {
    busy * (n + 2) + owers * (n + 1) + woken
  }

  lemma CallMoved(calls: map<nat, Call>, t: nat, call: Call)
    requires t in calls
    ensures var m := calls[t := call];
            && m.Keys == calls.Keys
            && Busy(m) == Busy(calls) - {t} + (if call.Owing? then {} else {t})
            && Owers(m) == Owers(calls) - {t} + (if call.Owing? then {t} else {})
            && Wakened(m) == Wakened(calls) - {t} + (if call.Woken? then {t} else {})
  {
  }

  lemma CallReturned(calls: map<nat, Call>, t: nat)
    requires t in calls
    ensures var m := calls - {t};
            m.Keys == calls.Keys - {t} && Busy(m) == Busy(calls) - {t} && Owers(m) == Owers(calls) - {t}
            && Wakened(m) == Wakened(calls) - {t}
  {
  }

  lemma OthersWoken(calls: map<nat, Call>, kind: nat)
    ensures var m := Wake(calls, kind);
            m.Keys == calls.Keys && Busy(m) == Busy(calls) && Owers(m) == Owers(calls) && |Wakened(m)| <= |calls|
  {
    var m := Wake(calls, kind);
    SubsetSize(Wakened(m), calls.Keys);
    assert |calls| == |calls.Keys|;
  }

  lemma RankFalls(busy: nat, owers: nat, woken: nat, busy1: nat, owers1: nat, woken1: nat, n: nat)
    requires || (busy1 == busy && owers1 == owers && woken1 < woken)
             || (busy1 + 1 == busy && owers1 <= owers + 1 && woken1 <= woken)
             || (busy1 + 1 == busy && owers1 == owers && woken1 <= n)
             || (busy1 == busy && owers1 + 1 == owers && woken1 <= n)
    ensures Weight(busy1, owers1, woken1, n) < Weight(busy, owers, woken, n)
  {
    if busy1 + 1 == busy {
      assert busy * (n + 2) == busy1 * (n + 2) + (n + 2);
      MulMonotone(owers1, owers + 1, n + 1);
      assert (owers + 1) * (n + 1) == owers * (n + 1) + (n + 1);
    } else if owers1 + 1 == owers {
      assert owers * (n + 1) == owers1 * (n + 1) + (n + 1);
    }
  }

  /** Each step of a call brings the calls closer to their end. */
  lemma GoingOnDescends(s: State, a: Step, n: nat)
    requires Enabled(s, a) && GoesOn(a) && |s.calls| <= n
    ensures |Next(s, a).calls| <= n && Rank(Next(s, a).calls, n) < Rank(s.calls, n)
  {
    hide Rank, Wake;
    match a
    case ResumeStep(t) => ResumeDescends(s, t, n);
    case FetchedStep(t, o) => MoveDescends(s.calls, t, Owing(s.calls[t].c), n);
    case FailStep(t) => WakingDescends(s.calls, t, s.calls[t].c.kind, n);
    case BroadcastStep(t) => WakingDescends(s.calls, t, s.calls[t].c.kind, n);
  }

  /** A call that stops being woken, or from fetching comes to owe. */
  lemma MoveDescends(calls: map<nat, Call>, t: nat, call: Call, n: nat)
    requires t in calls && |calls| <= n && !call.Woken?
    requires (calls[t].Woken? && !call.Owing?) || (calls[t].Fetching? && call.Owing?)
    ensures |calls[t := call]| <= n && Rank(calls[t := call], n) < Rank(calls, n)
  {
    hide Busy, Owers, Wakened, Weight;
    var m := calls[t := call];
    InOne(calls, t);
    CallMoved(calls, t, call);
    assert |calls| == |calls.Keys| && |m| == |m.Keys|;
    RankFalls(|Busy(calls)|, |Owers(calls)|, |Wakened(calls)|, |Busy(m)|, |Owers(m)|, |Wakened(m)|, n);
  }

  lemma ResumeDescends(s: State, t: nat, n: nat)
    requires t in s.calls && s.calls[t].Woken? && |s.calls| <= n
    ensures |Resume(s, t).calls| <= n && Rank(Resume(s, t).calls, n) < Rank(s.calls, n)
  {
    hide Busy, Owers, Wakened, Weight;
    var c, m := s.calls[t].c, s.calls - {t};
    if c in s.pending {
      MoveDescends(s.calls, t, Parked(c), n);
    } else if c in s.cache {
      InOne(s.calls, t);
      CallReturned(s.calls, t);
      assert |s.calls| == |s.calls.Keys| && |m| == |m.Keys|;
      RankFalls(|Busy(s.calls)|, |Owers(s.calls)|, |Wakened(s.calls)|, |Busy(m)|, |Owers(m)|, |Wakened(m)|, n);
    } else {
      MoveDescends(s.calls, t, Fetching(c), n);
    }
  }

  /** A call that returns and wakes others. */
  lemma WakingDescends(calls: map<nat, Call>, t: nat, kind: nat, n: nat)
    requires t in calls && (calls[t].Fetching? || calls[t].Owing?) && |calls| <= n
    ensures |Wake(calls - {t}, kind)| <= n && Rank(Wake(calls - {t}, kind), n) < Rank(calls, n)
  {
    hide Busy, Owers, Wakened, Weight, Wake;
    var m := Wake(calls - {t}, kind);
    InOne(calls, t);
    CallReturned(calls, t);
    OthersWoken(calls - {t}, kind);
    assert |calls| == |calls.Keys| && |m| == |m.Keys| && |calls - {t}| == |(calls - {t}).Keys|;
    RankFalls(|Busy(calls)|, |Owers(calls)|, |Wakened(calls)|, |Busy(m)|, |Owers(m)|, |Wakened(m)|, n);
  }

  lemma InOne(calls: map<nat, Call>, t: nat)
    requires t in calls
    ensures (t in Busy(calls) <==> !calls[t].Owing?) && (t in Owers(calls) <==> calls[t].Owing?)
    ensures t in Wakened(calls) <==> calls[t].Woken?
  {
  }

  lemma {:induction false} GoingOnEnds(s: State, steps: seq<Step>, n: nat)
    requires Run(s, steps) && (forall i :: 0 <= i < |steps| ==> GoesOn(steps[i])) && |s.calls| <= n
    ensures |steps| + Rank(After(s, steps).calls, n) <= Rank(s.calls, n)
    decreases |steps|
  {
    hide Rank;
    if steps != [] {
      GoingOnDescends(s, steps[0], n);
      GoingOnEnds(Next(s, steps[0]), steps[1..], n);
    }
  }

  /** From any reachable state, however the calls under way go on, they all return within a bounded
      number of steps: a run of their steps is no longer than the rank, and one that cannot be
      continued has left no call behind. */
  lemma AllCallsReturn(s: State, steps: seq<Step>)
    requires Reachable(s) && Run(s, steps) && (forall i :: 0 <= i < |steps| ==> GoesOn(steps[i]))
    ensures |steps| <= Rank(s.calls, |s.calls|)
    ensures (forall a :: GoesOn(a) ==> !Enabled(After(s, steps), a)) ==> After(s, steps).calls == map[]
  {
    hide Inv, Enabled, GoesOn, Rank;
    GoingOnEnds(s, steps, |s.calls|);
    ReachableInv(s);
    RunKeeps(s, steps);
    if After(s, steps).calls != map[] {
      var a := NotStuck(After(s, steps));
      assert GoesOn(a);
    }
  }
}

/** The cache itself: each method is what a call does while it holds the mutexes. */
module DataCaches {
  import opened CacheProtocol

  datatype Answer = Found(o: Object) | Wait | Fetch

  /** Call t has returned; whoever was parked on the condition of the kind is awake, and nobody else has moved. */
  ghost predicate Awake(was: map<nat, Call>, now: map<nat, Call>, t: nat, kind: nat) {
    && now.Keys == was.Keys - {t}
    && forall u :: u in now ==>
         now[u] == if was[u].Parked? && was[u].c.kind == kind then Woken(was[u].c) else was[u]
  }

  class DataCache {
    var calls: map<nat, Call>
    var cache: map<Coord, Object>
    var pending: set<Coord>
    var m_readWaitInProgress: int
    var m_packLoadInProgress: int
    var m_cacheHits: nat
    var m_cacheMisses: nat
    var m_objectsReleased: nat
    var m_readWait: nat
    var m_falseWakeup: nat
    var m_packLoads: nat
    var m_loadErrors: nat

    ghost function View(): State
      reads this
    {
      State(calls, cache, pending, m_readWaitInProgress, m_packLoadInProgress, m_cacheHits, m_cacheMisses,
            m_objectsReleased, m_readWait, m_falseWakeup, m_packLoads, m_loadErrors)
    }

    constructor ()
      ensures View() == Init && Inv(View())
    {
      calls, cache, pending := map[], map[], {};
      m_readWaitInProgress, m_packLoadInProgress := 0, 0;
      m_cacheHits, m_cacheMisses, m_objectsReleased, m_readWait := 0, 0, 0, 0;
      m_falseWakeup, m_packLoads, m_loadErrors := 0, 0, 0;
      new;
      InitInv();
    }

    /** GetObject up to its first wait, its fetch, or its return. */
    method BeginGet(t: nat, c: Coord) returns (r: Answer)
      requires Inv(View()) && t !in calls
      modifies this
      ensures View() == Next(old(View()), BeginStep(t, c)) && Inv(View())
      ensures r.Found? <==> old(c in cache)
      ensures r.Found? ==> old(cache)[c] == r.o
      ensures r.Wait? <==> old(c !in cache && c in pending)
      ensures cache == old(cache)
      ensures c.kind == PACK ==>
                if r.Found? then m_cacheHits == old(m_cacheHits) + 1 && m_cacheMisses == old(m_cacheMisses)
                else m_cacheHits == old(m_cacheHits) && m_cacheMisses == old(m_cacheMisses) + 1
      ensures m_readWait == old(m_readWait) + if r.Wait? then 1 else 0
    {
      hide Inv;
      BeginKeeps(View(), t, c);
      if c in cache {
        if c.kind == PACK {
          m_cacheHits := m_cacheHits + 1;
        }
        return Found(cache[c]);
      }
      if c.kind == PACK {
        m_cacheMisses := m_cacheMisses + 1;
      }
      if c in pending {
        m_readWaitInProgress := m_readWaitInProgress + 1;
        m_readWait := m_readWait + 1;
        calls := calls[t := Parked(c)];
        return Wait;
      }
      Enlist(t, c);
      return Fetch;
    }

    method Enlist(t: nat, c: Coord)
      modifies this
      ensures View() == StartFetch(old(View()), t, c)
    {
      pending := pending + {c};
      m_packLoadInProgress := m_packLoadInProgress + 1;
      calls := calls[t := Fetching(c)];
    }

    /** GetObject once it runs again after a wait. */
    method ResumeGet(t: nat) returns (r: Answer)
      requires Inv(View()) && t in calls && calls[t].Woken?
      modifies this
      ensures View() == Next(old(View()), ResumeStep(t)) && Inv(View())
      ensures r.Wait? <==> old(calls[t].c in pending)
      ensures r.Found? ==> old(calls[t].c in cache && cache[calls[t].c] == r.o)
      ensures r.Fetch? ==> t in calls && calls[t] == Fetching(old(calls[t].c)) && old(calls[t].c !in cache)
      ensures cache == old(cache) && m_falseWakeup == old(m_falseWakeup) + if r.Wait? then 1 else 0
    {
      hide Inv;
      ResumeKeeps(View(), t);
      var c := calls[t].c;
      m_readWaitInProgress := m_readWaitInProgress - 1;
      if c in pending {
        m_readWaitInProgress := m_readWaitInProgress + 1;
        m_falseWakeup := m_falseWakeup + 1;
        calls := calls[t := Parked(c)];
        return Wait;
      }
      if c in cache {
        calls := calls - {t};
        return Found(cache[c]);
      }
      Enlist(t, c);
      return Fetch;
    }

    /** The fetcher has thrown: the wake-up of the others is part of the same section. */
    method FetchFailure(t: nat)
      requires Inv(View()) && t in calls && calls[t].Fetching?
      modifies this
      ensures View() == Next(old(View()), FailStep(t)) && Inv(View())
      ensures old(calls[t].c) !in cache && old(calls[t].c) !in pending
      ensures cache == old(cache) && m_loadErrors == old(m_loadErrors) + 1
      ensures Awake(old(calls), calls, t, old(calls[t].c.kind))
    {
      hide Inv;
      FetchFailedKeeps(View(), t);
      FetchedKeeps(View(), t, 0);
      var c := calls[t].c;
      m_loadErrors := m_loadErrors + 1;
      m_packLoadInProgress := m_packLoadInProgress - 1;
      pending := pending - {c};
      calls := Wake(calls - {t}, c.kind);
    }

    /** The fetch has succeeded. The assertion before the insertion always holds. */
    method FetchSuccess(t: nat, o: Object)
      requires Inv(View()) && t in calls && calls[t].Fetching?
      modifies this
      ensures View() == Next(old(View()), FetchedStep(t, o)) && Inv(View())
      ensures cache == old(cache[calls[t].c := o]) && old(calls[t].c) !in pending
      ensures m_packLoads == old(m_packLoads) + if old(calls[t].c.kind) == PACK then 1 else 0
    {
      hide Inv;
      FetchedKeeps(View(), t, o);
      var c := calls[t].c;
      if c.kind == PACK {
        m_packLoads := m_packLoads + 1;
      }
      m_packLoadInProgress := m_packLoadInProgress - 1;
      assert c !in cache;
      cache := cache[c := o];
      pending := pending - {c};
      calls := calls[t := Owing(c)];
    }

    method BroadcastOwed(t: nat)
      requires Inv(View()) && t in calls && calls[t].Owing?
      modifies this
      ensures View() == Next(old(View()), BroadcastStep(t)) && Inv(View())
      ensures Awake(old(calls), calls, t, old(calls[t].c.kind))
    {
      hide Inv;
      BroadcastKeeps(View(), t);
      calls := Wake(calls - {t}, calls[t].c.kind);
    }

    method DropObject(c: Coord)
      requires Inv(View())
      modifies this
      ensures View() == Next(old(View()), DropStep(c)) && Inv(View()) && cache == old(cache) - {c}
      ensures m_objectsReleased == old(m_objectsReleased) + if c in old(cache) then 1 else 0
    {
      hide Inv;
      StepKeeps(View(), DropStep(c));
      if c in cache {
        cache := cache - {c};
        m_objectsReleased := m_objectsReleased + 1;
      }
    }

    /** An insertion first; if another object is there it is dropped, and the insertion repeated. */
    method PutObject(c: Coord, o: Object)
      requires Inv(View()) && c !in pending
      modifies this
      ensures View() == Next(old(View()), PutStep(c, o)) && Inv(View()) && cache == old(cache)[c := o]
      ensures m_objectsReleased == old(m_objectsReleased) + if c in old(cache) && old(cache)[c] != o then 1 else 0
    {
      hide Inv;
      StepKeeps(View(), PutStep(c, o));
      if c !in cache {
        cache := cache[c := o];
      } else if cache[c] != o {
        ghost var before := cache;
        cache := cache - {c};
        m_objectsReleased := m_objectsReleased + 1;
        cache := cache[c := o];
        assert cache == before[c := o];
      } else {
        assert cache == cache[c := o];
      }
    }

    method HasObject(c: Coord) returns (b: bool)
      ensures b <==> c in cache
    {
      b := c in cache;
    }
  }
}
