/** The handle tables of the service and of the library under it, as one value, and
    what open, download and close requests do to them. `T` identifies transport
    objects, `D` devices. */
module HandleTables {
  import opened LibDfu

  const ATTEMPTS: nat := 5

  datatype Tables<T(==), D> = Tables(
    gHandle: int,             // the last library handle given out
    devices: map<int, D>,     // library handle -> device, the open ones
    gcount: int,              // the next service handle
    server: map<int, T>,      // service handle -> transport
    routes: map<int, T>,      // library handle -> transport its progress goes to
    handleOf: map<T, int>)    // transport -> the library handle it opened

  function Initial<T, D>(): Tables<T, D> {
    Tables(0, map[], 1, map[], map[], map[])
  }

  datatype Event<T, D> =
    | OpenRequest(transport: T, loaded: bool, probes: seq<Probe<D>>)
    | DownloadRequest(handle: int)
    | CloseRequest(handle: int)

  datatype Answer<D> =
    | Opened(handle: int)
    | NotLoaded
    | NoDeviceFound
    | InvalidHandle
    | Reached(dev: D)     // the download is passed on to this device
    | NotReached          // the download fails without touching any device
    | Closed
    | CannotClose

  /** A transport that has opened a library handle. */
  function Attached<T, D>(v: Tables<T, D>, t: T, handle: int): Tables<T, D> {
    v.(routes := v.routes[handle := t], handleOf := v.handleOf[t := handle])
  }

  /** One attempt to open. */
  function Attempt<T, D>(v: Tables<T, D>, t: T, probe: Probe<D>): Tables<T, D> {
    match probe
    case NotOpened(_) => v
    case NullHandle => Attached(v, t, 0)
    case Found(dev) =>
      var handle := v.gHandle + 1;
      Attached(v.(gHandle := handle, devices := v.devices[handle := dev]), t, handle)
  }

  /** The retry loop with `delay` attempts left: the tables, and the counter it
      leaves. */
  function Probing<T, D>(v: Tables<T, D>, t: T, probes: seq<Probe<D>>, delay: nat): (Tables<T, D>, int)
    requires delay <= ATTEMPTS == |probes|
    decreases delay
  {
    if delay == 0 then (v, -1)
    else
      var probe := probes[ATTEMPTS - delay];
      if probe.NotOpened? then Probing(v, t, probes, delay - 1) else (Attempt(v, t, probe), delay - 1)
  }

  function Open<T, D>(v: Tables<T, D>, t: T, loaded: bool, probes: seq<Probe<D>>): (Tables<T, D>, Answer<D>)
    requires |probes| == ATTEMPTS
  {
    if !loaded then (v, NotLoaded)
    else
      var (w, delay) := Probing(v, t, probes, ATTEMPTS);
      if delay <= 0 then (w, NoDeviceFound)
      else (w.(server := w.server[w.gcount := t], gcount := w.gcount + 1), Opened(w.gcount))
  }

  /** Every service handle belongs to a transport with a library handle. */
  predicate Backed<T, D>(v: Tables<T, D>) {
    forall h :: h in v.server ==> v.server[h] in v.handleOf
  }

  function LibraryHandle<T, D>(v: Tables<T, D>, h: int): int
    requires Backed(v) && h in v.server
  {
    v.handleOf[v.server[h]]
  }

  function Download<T, D>(v: Tables<T, D>, h: int): Answer<D>
    requires Backed(v)
  {
    if h !in v.server then InvalidHandle
    else if LibraryHandle(v, h) in v.devices then Reached(v.devices[LibraryHandle(v, h)])
    else NotReached
  }

  function Close<T, D>(v: Tables<T, D>, h: int): (Tables<T, D>, Answer<D>)
    requires Backed(v)
  {
    if h !in v.server then (v, InvalidHandle)
    else
      var d := LibraryHandle(v, h);
      if d in v.devices then (v.(devices := v.devices - {d}), Closed) else (v, CannotClose)
  }

  predicate WellFormedEvent<T, D>(e: Event<T, D>) {
    e.OpenRequest? ==> |e.probes| == ATTEMPTS
  }

  function Step<T, D>(v: Tables<T, D>, e: Event<T, D>): (Tables<T, D>, Answer<D>)
    requires Backed(v) && WellFormedEvent(e)
  {
    match e
    case OpenRequest(t, loaded, probes) => Open(v, t, loaded, probes)
    case DownloadRequest(h) => (v, Download(v, h))
    case CloseRequest(h) => Close(v, h)
  }

  // ----- what every request keeps

  ghost predicate Inv<T, D>(v: Tables<T, D>) {
    && 0 <= v.gHandle && 1 <= v.gcount
    && (forall d :: d in v.devices ==> 1 <= d <= v.gHandle)
    && (forall h :: h in v.server <==> 1 <= h < v.gcount)
    && Backed(v)
    && (forall t :: t in v.handleOf ==> 0 <= v.handleOf[t] <= v.gHandle)
    && (forall h, k :: h in v.server && k in v.server && v.server[h] == v.server[k] ==> h == k)
    && (forall t :: t in v.handleOf ==> v.handleOf[t] in v.routes)
    && (forall t :: t in v.handleOf && v.handleOf[t] != 0 ==> v.routes[v.handleOf[t]] == t)
  }

  lemma InvBacked<T, D>(v: Tables<T, D>)
    requires Inv(v)
    ensures Backed(v)
  {
  }

  lemma InitialInv<T, D>()
    ensures Inv(Initial<T, D>())
  {
  }

  lemma AttemptInv<T, D>(v: Tables<T, D>, t: T, probe: Probe<D>)
    requires Inv(v) && t !in v.handleOf
    ensures Inv(Attempt(v, t, probe))
    ensures Attempt(v, t, probe).server == v.server && Attempt(v, t, probe).gcount == v.gcount
    ensures !probe.NotOpened? ==> t in Attempt(v, t, probe).handleOf
  {
  }

  lemma {:induction false} ProbingInv<T, D>(v: Tables<T, D>, t: T, probes: seq<Probe<D>>, delay: nat)
    requires Inv(v) && t !in v.handleOf && delay <= ATTEMPTS == |probes|
    ensures var (w, left) := Probing(v, t, probes, delay);
            && Inv(w) && w.server == v.server && w.gcount == v.gcount
            && (left > 0 ==> t in w.handleOf)
    decreases delay
  {
    hide Inv, Attempt;
    if delay > 0 {
      if probes[ATTEMPTS - delay].NotOpened? {
        ProbingInv(v, t, probes, delay - 1);
      } else {
        AttemptInv(v, t, probes[ATTEMPTS - delay]);
      }
    }
  }

  lemma StepInv<T, D>(v: Tables<T, D>, e: Event<T, D>)
    requires Inv(v) && WellFormedEvent(e)
    requires e.OpenRequest? ==> e.transport !in v.handleOf
    ensures Inv(Step(v, e).0)
  {
    if e.OpenRequest? && e.loaded {
      ProbingInv(v, e.transport, e.probes, ATTEMPTS);
    }
  }

  // ----- runs

  lemma {:induction false} ProbingKeeps<T, D>(v: Tables<T, D>, t: T, probes: seq<Probe<D>>, delay: nat)
    requires delay <= ATTEMPTS == |probes|
    ensures var (w, left) := Probing(v, t, probes, delay);
            && w.server == v.server && w.gcount == v.gcount
            && v.handleOf.Keys <= w.handleOf.Keys
            && (left > 0 ==> t in w.handleOf)
            && v.gHandle <= w.gHandle <= v.gHandle + 1
            && (forall u :: u in v.handleOf && u != t ==> w.handleOf[u] == v.handleOf[u])
            && (forall d :: d in w.devices && d <= v.gHandle ==> d in v.devices && w.devices[d] == v.devices[d])
            && (forall d :: d in v.devices && d <= v.gHandle ==> d in w.devices)
    decreases delay
  {
    if delay > 0 && probes[ATTEMPTS - delay].NotOpened? {
      ProbingKeeps(v, t, probes, delay - 1);
    }
  }

  lemma StepBacked<T, D>(v: Tables<T, D>, e: Event<T, D>)
    requires Backed(v) && WellFormedEvent(e)
    ensures Backed(Step(v, e).0)
  {
    hide Probing;
    if e.OpenRequest? {
      ProbingKeeps(v, e.transport, e.probes, ATTEMPTS);
    }
  }

  /** The requests answered one after the other. */
  function Run<T, D>(v: Tables<T, D>, events: seq<Event<T, D>>): (r: (Tables<T, D>, seq<Answer<D>>))
    requires Backed(v) && forall e :: e in events ==> WellFormedEvent(e)
    ensures |r.1| == |events|
    decreases |events|
  {
    if events == [] then (v, [])
    else
      StepBacked(v, events[0]);
      var (w, a) := Step(v, events[0]);
      var (x, rest) := Run(w, events[1..]);
      (x, [a] + rest)
  }

  /** Every open request brings a transport object of its own. */
  ghost predicate OwnTransports<T, D>(seen: set<T>, events: seq<Event<T, D>>)
    decreases |events|
  {
    events == [] ||
    (&& WellFormedEvent(events[0])
     && (events[0].OpenRequest? ==> events[0].transport !in seen)
     && OwnTransports(if events[0].OpenRequest? then seen + {events[0].transport} else seen, events[1..]))
  }

  /** A possible history of the service from these tables on. */
  ghost predicate History<T, D>(v: Tables<T, D>, events: seq<Event<T, D>>) {
    && Inv(v)
    && (forall e :: e in events ==> WellFormedEvent(e))
    && OwnTransports(v.handleOf.Keys, events)
  }

  lemma {:induction false} FewerSeen<T, D>(seen: set<T>, more: set<T>, events: seq<Event<T, D>>)
    requires seen <= more && OwnTransports(more, events)
    ensures OwnTransports(seen, events)
    decreases |events|
  {
    if events != [] {
      var e := events[0];
      FewerSeen(if e.OpenRequest? then seen + {e.transport} else seen,
                if e.OpenRequest? then more + {e.transport} else more, events[1..]);
    }
  }

  lemma {:induction false} ProbingSeen<T, D>(v: Tables<T, D>, t: T, probes: seq<Probe<D>>, delay: nat)
    requires delay <= ATTEMPTS == |probes|
    ensures Probing(v, t, probes, delay).0.handleOf.Keys <= v.handleOf.Keys + {t}
    decreases delay
  {
    if delay > 0 && probes[ATTEMPTS - delay].NotOpened? {
      ProbingSeen(v, t, probes, delay - 1);
    }
  }

  /** A history goes on as a history. */
  lemma HistoryStep<T, D>(v: Tables<T, D>, events: seq<Event<T, D>>)
    requires History(v, events) && events != []
    ensures History(Step(v, events[0]).0, events[1..])
  {
    hide Inv, Probing;
    var e := events[0];
    InvBacked(v);
    StepInv(v, e);
    if e.OpenRequest? {
      ProbingSeen(v, e.transport, e.probes, ATTEMPTS);
      FewerSeen(Step(v, e).0.handleOf.Keys, v.handleOf.Keys + {e.transport}, events[1..]);
    }
  }

  /** A fact about the tables that every request of a history keeps, at its end. */
  lemma {:induction false} RunInv<T, D>(v: Tables<T, D>, events: seq<Event<T, D>>)
    requires History(v, events)
    ensures Inv(Run(v, events).0)
    decreases |events|
  {
    if events != [] {
      HistoryStep(v, events);
      RunInv(Step(v, events[0]).0, events[1..]);
    }
  }

  // ----- handles

  /** Two service handles have the same library handle only if both were opened
      without error and without a device. */
  lemma DistinctHandles<T, D>(v: Tables<T, D>, h: int, k: int)
    requires Inv(v) && h in v.server && k in v.server && h != k
    ensures LibraryHandle(v, h) == LibraryHandle(v, k) ==> LibraryHandle(v, h) == 0
    ensures LibraryHandle(v, h) != 0 ==> v.routes[LibraryHandle(v, h)] == v.server[h]
  {
  }

  /** The case in which they do. */
  lemma NullHandlesCollide<T, D>(t: T, u: T, error: ErrorResult)
    requires t != u
    ensures var probes: seq<Probe<D>> := [NullHandle, NotOpened(error), NotOpened(error), NotOpened(error),
                                          NotOpened(error)];
            var events := [OpenRequest(t, true, probes), OpenRequest(u, true, probes)];
            && History(Initial(), events)
            && var (v, answers) := Run(Initial(), events);
            && answers == [Opened(1), Opened(2)]
            && Backed(v) && 1 in v.server && 2 in v.server && LibraryHandle(v, 1) in v.routes
            && LibraryHandle(v, 1) == LibraryHandle(v, 2) == 0
            && v.routes[LibraryHandle(v, 1)] != v.server[1]
  {
    var probes: seq<Probe<D>> := [NullHandle, NotOpened(error), NotOpened(error), NotOpened(error), NotOpened(error)];
    var e0: Event<T, D> := OpenRequest(t, true, probes);
    var e1: Event<T, D> := OpenRequest(u, true, probes);
    var v0 := Initial<T, D>();
    var v1 := Step(v0, e0).0;
    var v2 := Step(v1, e1).0;
    assert Probing(v0, t, probes, ATTEMPTS) == (Attempt(v0, t, NullHandle), 4);
    assert Probing(v1, u, probes, ATTEMPTS) == (Attempt(v1, u, NullHandle), 4);
    assert v1 == Tables(0, map[], 2, map[1 := t], map[0 := t], map[t := 0]);
    assert v2 == Tables(0, map[], 3, map[1 := t, 2 := u], map[0 := u], map[t := 0, u := 0]);
    assert [e0, e1][1..] == [e1];
    assert [e1][1..] == [];
    assert Run(v2, []) == (v2, []);
    var a: Answer<D> := Opened(2);
    assert [a] + [] == [a];
    assert Step(v1, e1) == (v2, a);
    assert Run(v1, [e1]) == (v2, [a]);
  }

  /** The handles the answers give out. */
  function Given<D>(answers: seq<Answer<D>>): seq<int>
    decreases |answers|
  {
    if answers == [] then []
    else (if answers[0].Opened? then [answers[0].handle] else []) + Given(answers[1..])
  }

  /** A service handle is never given out twice: over any history the handles given
      out are consecutive, from the counter on. */
  lemma {:induction false} HandlesConsecutive<T, D>(v: Tables<T, D>, events: seq<Event<T, D>>)
    requires History(v, events)
    ensures var (w, answers) := Run(v, events);
            var given := Given(answers);
            && w.gcount == v.gcount + |given|
            && (forall i :: 0 <= i < |given| ==> given[i] == v.gcount + i)
    decreases |events|
  {
    hide Inv, Probing;
    if events != [] {
      var e := events[0];
      InvBacked(v);
      HistoryStep(v, events);
      if e.OpenRequest? {
        ProbingKeeps(v, e.transport, e.probes, ATTEMPTS);
      }
      var (w, a) := Step(v, e);
      HandlesConsecutive(w, events[1..]);
      var rest := Run(w, events[1..]).1;
      assert ([a] + rest)[1..] == rest;
    }
  }

  /** The library handle an open request obtains together with a device. */
  function Acquired<T, D>(v: Tables<T, D>, e: Event<T, D>): seq<int>
    requires Backed(v) && WellFormedEvent(e)
  {
    var w := Step(v, e).0;
    if e.OpenRequest? && w.devices.Keys != v.devices.Keys
      && e.transport in w.handleOf then [w.handleOf[e.transport]] else []
  }

  /** The library handles a history obtains. */
  function AllAcquired<T, D>(v: Tables<T, D>, events: seq<Event<T, D>>): seq<int>
    requires Backed(v) && forall e :: e in events ==> WellFormedEvent(e)
    decreases |events|
  {
    if events == [] then []
    else
      StepBacked(v, events[0]);
      Acquired(v, events[0]) + AllAcquired(Step(v, events[0]).0, events[1..])
  }

  lemma StepAcquires<T, D>(v: Tables<T, D>, e: Event<T, D>)
    requires Inv(v) && WellFormedEvent(e)
    requires e.OpenRequest? ==> e.transport !in v.handleOf
    ensures Acquired(v, e) == if Step(v, e).0.gHandle == v.gHandle then [] else [v.gHandle + 1]
    ensures Step(v, e).0.gHandle == v.gHandle + |Acquired(v, e)|
  {
    if e.OpenRequest? && e.loaded {
      ProbingIs(v, e.transport, e.probes, ATTEMPTS);
      assert v.gHandle + 1 !in v.devices;
    }
  }

  /** A library handle is never given out twice: over any history the handles obtained
      with a device are consecutive, whatever is closed in between. */
  lemma {:induction false} LibraryHandlesConsecutive<T, D>(v: Tables<T, D>, events: seq<Event<T, D>>)
    requires History(v, events)
    ensures var got := AllAcquired(v, events);
            && Run(v, events).0.gHandle == v.gHandle + |got|
            && (forall i :: 0 <= i < |got| ==> got[i] == v.gHandle + 1 + i)
    decreases |events|
  {
    hide Inv, Step, Acquired;
    if events != [] {
      InvBacked(v);
      HistoryStep(v, events);
      StepAcquires(v, events[0]);
      LibraryHandlesConsecutive(Step(v, events[0]).0, events[1..]);
    }
  }

  // ----- closing

  /** What a request leaves alone: the transport and the library handle of a service
      handle, and every library handle up to the last one given out, except that
      open ones can be closed. */
  ghost predicate Keeps<T, D>(v: Tables<T, D>, w: Tables<T, D>) {
    && Backed(v) && Backed(w)
    && v.gHandle <= w.gHandle
    && (forall h :: h in v.server ==> h in w.server && LibraryHandle(w, h) == LibraryHandle(v, h))
    && (forall d :: d in w.devices && d <= v.gHandle ==> d in v.devices && w.devices[d] == v.devices[d])
  }

  lemma StepKeeps<T, D>(v: Tables<T, D>, e: Event<T, D>)
    requires Inv(v) && WellFormedEvent(e)
    requires e.OpenRequest? ==> e.transport !in v.handleOf
    ensures Keeps(v, Step(v, e).0)
  {
    hide Probing;
    StepBacked(v, e);
    if e.OpenRequest? {
      ProbingKeeps(v, e.transport, e.probes, ATTEMPTS);
    }
  }

  /** Service handle `h` has a library handle that is not open any more. */
  ghost predicate Shut<T, D>(v: Tables<T, D>, h: int) {
    Backed(v) && h in v.server && LibraryHandle(v, h) !in v.devices
  }

  lemma ShutAnswers<T, D>(v: Tables<T, D>, h: int, e: Event<T, D>)
    requires Shut(v, h) && WellFormedEvent(e)
    ensures e == DownloadRequest(h) ==> Step(v, e).1 == NotReached
    ensures e == CloseRequest(h) ==> Step(v, e).1 == CannotClose
  {
  }

  /** A library handle that is closed stays closed: over any history after that, a
      download on the service handle reaches no device, and a close fails. */
  lemma {:induction false} ShutStays<T, D>(v: Tables<T, D>, h: int, events: seq<Event<T, D>>)
    requires History(v, events) && Shut(v, h)
    ensures Shut(Run(v, events).0, h)
    ensures forall i :: 0 <= i < |events| ==>
              && (events[i] == DownloadRequest(h) ==> Run(v, events).1[i] == NotReached)
              && (events[i] == CloseRequest(h) ==> Run(v, events).1[i] == CannotClose)
    decreases |events|
  {
    hide Probing, Step;
    if events != [] {
      var e := events[0];
      HistoryStep(v, events);
      StepKeeps(v, e);
      var (w, a) := Step(v, e);
      assert Shut(w, h);
      ShutStays(w, h, events[1..]);
      ShutAnswers(v, h, e);
      forall i | 0 <= i < |events|
        ensures events[i] == DownloadRequest(h) ==> Run(v, events).1[i] == NotReached
        ensures events[i] == CloseRequest(h) ==> Run(v, events).1[i] == CannotClose
      {
        if i > 0 {
          assert events[i] == events[1..][i - 1];
        }
      }
    }
  }

  /** After a close that succeeded, no download on the handle ever reaches a device. */
  lemma DownloadAfterClose<T, D>(v: Tables<T, D>, h: int, events: seq<Event<T, D>>)
    requires History(v, [CloseRequest(h)] + events)
    requires Step(v, CloseRequest(h)).1 == Closed
    ensures forall i :: 0 <= i < |events| && events[i] == DownloadRequest(h) ==>
              Run(Step(v, CloseRequest(h)).0, events).1[i] == NotReached
    ensures forall i :: 0 <= i < |events| && events[i] == CloseRequest(h) ==>
              Run(Step(v, CloseRequest(h)).0, events).1[i] == CannotClose
  {
    var all := [CloseRequest(h)] + events;
    HistoryStep(v, all);
    assert all[1..] == events;
    ShutStays(Step(v, CloseRequest(h)).0, h, events);
  }

  // ----- opening

  /** The first attempt that opens something, or 5. */
  function FirstHit<D>(probes: seq<Probe<D>>, i: nat): (k: nat)
    requires i <= ATTEMPTS == |probes|
    ensures i <= k <= ATTEMPTS
    ensures forall j :: i <= j < k ==> probes[j].NotOpened?
    ensures k < ATTEMPTS ==> !probes[k].NotOpened?
    decreases ATTEMPTS - i
  {
    if i == ATTEMPTS || !probes[i].NotOpened? then i else FirstHit(probes, i + 1)
  }

  lemma {:induction false} ProbingIs<T, D>(v: Tables<T, D>, t: T, probes: seq<Probe<D>>, delay: nat)
    requires delay <= ATTEMPTS == |probes|
    ensures var k := FirstHit(probes, ATTEMPTS - delay);
            Probing(v, t, probes, delay) == if k == ATTEMPTS then (v, -1)
              else (Attempt(v, t, probes[k]), ATTEMPTS - k - 1)
    decreases delay
  {
    if delay > 0 && probes[ATTEMPTS - delay].NotOpened? {
      ProbingIs(v, t, probes, delay - 1);
    }
  }

  /** An open request succeeds exactly when one of the first four attempts does. The
      fifth is made, and reported as a failure even when it opens a device. */
  lemma OpenSucceeds<T, D>(v: Tables<T, D>, t: T, loaded: bool, probes: seq<Probe<D>>)
    requires |probes| == 5
    ensures Open(v, t, loaded, probes).1.Opened?
      <==> loaded && exists i :: 0 <= i < 4 && !probes[i].NotOpened?
  {
    ProbingIs(v, t, probes, ATTEMPTS);
    var k := FirstHit(probes, 0);
    if k < ATTEMPTS - 1 {
      assert !probes[k].NotOpened?;
    }
  }

  /** Library handle `d` is open and no service handle leads to it. */
  ghost predicate Leaked<T, D>(v: Tables<T, D>, d: int) {
    && Backed(v) && 1 <= d <= v.gHandle && d in v.devices
    && (forall h :: h in v.server ==> LibraryHandle(v, h) != d)
  }

  /** When only the fifth attempt opens the device, it is left open with no service
      handle. */
  lemma FifthAttemptLeaks<T, D>(v: Tables<T, D>, t: T, probes: seq<Probe<D>>)
    requires Inv(v) && t !in v.handleOf && |probes| == ATTEMPTS
    requires (forall i :: 0 <= i < ATTEMPTS - 1 ==> probes[i].NotOpened?) && probes[ATTEMPTS - 1].Found?
    ensures var (w, a) := Open(v, t, true, probes);
            && a == NoDeviceFound
            && w.gHandle == v.gHandle + 1
            && Leaked(w, w.gHandle) && w.devices[w.gHandle] == probes[ATTEMPTS - 1].dev
  {
    ProbingIs(v, t, probes, ATTEMPTS);
    var k := FirstHit(probes, 0);
    assert k == ATTEMPTS - 1;
  }

  /** That is the only way for an unsuccessful open to change which devices are open. */
  lemma LeaksExactly<T, D>(v: Tables<T, D>, t: T, loaded: bool, probes: seq<Probe<D>>)
    requires Inv(v) && t !in v.handleOf && |probes| == ATTEMPTS
    ensures var (w, a) := Open(v, t, loaded, probes);
            !a.Opened? ==>
              (w.devices.Keys != v.devices.Keys <==>
                 loaded && (forall i :: 0 <= i < ATTEMPTS - 1 ==> probes[i].NotOpened?) && probes[ATTEMPTS - 1].Found?)
              && (w.devices.Keys == v.devices.Keys ==> w.devices == v.devices)
  {
    ProbingIs(v, t, probes, ATTEMPTS);
    assert v.gHandle + 1 !in v.devices;
  }

  lemma StepLeaked<T, D>(v: Tables<T, D>, e: Event<T, D>, d: int)
    requires Inv(v) && WellFormedEvent(e) && Leaked(v, d)
    requires e.OpenRequest? ==> e.transport !in v.handleOf
    ensures Leaked(Step(v, e).0, d) && Step(v, e).0.devices[d] == v.devices[d]
  {
    StepBacked(v, e);
    if e.OpenRequest? {
      ProbingIs(v, e.transport, e.probes, ATTEMPTS);
    }
  }

  /** Such a device stays open for good: no request of any history closes it. */
  lemma {:induction false} LeakedForGood<T, D>(v: Tables<T, D>, events: seq<Event<T, D>>, d: int)
    requires History(v, events) && Leaked(v, d)
    ensures Leaked(Run(v, events).0, d) && Run(v, events).0.devices[d] == v.devices[d]
    decreases |events|
  {
    hide Leaked, Inv;
    if events != [] {
      InvBacked(v);
      HistoryStep(v, events);
      StepLeaked(v, events[0], d);
      LeakedForGood(Step(v, events[0]).0, events[1..], d);
    }
  }

  // ----- a handle that is not closed keeps its device

  /** Service handle `h` leads to this open device. */
  ghost predicate Leads<T, D>(v: Tables<T, D>, h: int, dev: D) {
    && Backed(v) && h in v.server
    && LibraryHandle(v, h) in v.devices && v.devices[LibraryHandle(v, h)] == dev
  }

  /** An open that succeeds with a device gives a handle that leads to it. */
  lemma OpenLeads<T, D>(v: Tables<T, D>, t: T, probes: seq<Probe<D>>)
    requires Inv(v) && t !in v.handleOf && |probes| == ATTEMPTS
    requires FirstHit(probes, 0) < ATTEMPTS - 1
    ensures var k := FirstHit(probes, 0);
            var (w, a) := Open(v, t, true, probes);
            && a == Opened(v.gcount)
            && (probes[k].Found? ==> Leads(w, v.gcount, probes[k].dev))
            && (probes[k].NullHandle? ==> Shut(w, v.gcount))
  {
    ProbingIs(v, t, probes, ATTEMPTS);
  }

  lemma StepLeads<T, D>(v: Tables<T, D>, e: Event<T, D>, h: int, dev: D)
    requires Inv(v) && WellFormedEvent(e) && Leads(v, h, dev)
    requires e.OpenRequest? ==> e.transport !in v.handleOf
    requires e != CloseRequest(h)
    ensures Leads(Step(v, e).0, h, dev)
    ensures e == DownloadRequest(h) ==> Step(v, e).1 == Reached(dev)
  {
    StepBacked(v, e);
    if e.OpenRequest? {
      ProbingIs(v, e.transport, e.probes, ATTEMPTS);
    }
  }

  /** Until it is closed, every download on the handle reaches that device. */
  lemma {:induction false} LeadsUntilClosed<T, D>(v: Tables<T, D>, events: seq<Event<T, D>>, h: int, dev: D)
    requires History(v, events) && Leads(v, h, dev)
    requires CloseRequest(h) !in events
    ensures Leads(Run(v, events).0, h, dev)
    ensures forall i :: 0 <= i < |events| && events[i] == DownloadRequest(h) ==> Run(v, events).1[i] == Reached(dev)
    decreases |events|
  {
    hide Leads, Inv, Step;
    if events != [] {
      InvBacked(v);
      HistoryStep(v, events);
      StepLeads(v, events[0], h, dev);
      var w := Step(v, events[0]).0;
      LeadsUntilClosed(w, events[1..], h, dev);
      forall i | 0 <= i < |events| && events[i] == DownloadRequest(h)
        ensures Run(v, events).1[i] == Reached(dev)
      {
        if i > 0 {
          assert events[i] == events[1..][i - 1];
        }
      }
    }
  }

  // ----- which service handles share a library handle

  /** Every service handle stays, with its library handle. */
  ghost predicate Holds<T, D>(v: Tables<T, D>, w: Tables<T, D>) {
    && Backed(v) && Backed(w)
    && (forall h :: h in v.server ==> h in w.server && LibraryHandle(w, h) == LibraryHandle(v, h))
  }

  lemma {:induction false} RunHolds<T, D>(v: Tables<T, D>, events: seq<Event<T, D>>)
    requires History(v, events)
    ensures Holds(v, Run(v, events).0)
    decreases |events|
  {
    hide Inv, Step;
    InvBacked(v);
    if events != [] {
      HistoryStep(v, events);
      StepHolds(v, events[0]) by {
        HistoryOwn(v, events);
      }
      RunHolds(Step(v, events[0]).0, events[1..]);
    }
  }

  lemma HistoryOwn<T, D>(v: Tables<T, D>, events: seq<Event<T, D>>)
    requires History(v, events) && events != []
    ensures Inv(v) && WellFormedEvent(events[0])
    ensures events[0].OpenRequest? ==> events[0].transport !in v.handleOf
  {
    hide Inv;
  }

  lemma StepHolds<T, D>(v: Tables<T, D>, e: Event<T, D>)
    requires Inv(v) && WellFormedEvent(e)
    requires e.OpenRequest? ==> e.transport !in v.handleOf
    ensures Holds(v, Step(v, e).0)
  {
    hide Inv, Step;
    StepKeeps(v, e);
  }

  /** An open request without error and without a device, in the attempt that counts. */
  predicate OpenedNothing<T, D>(e: Event<T, D>) {
    && e.OpenRequest? && |e.probes| == ATTEMPTS
    && var k := FirstHit(e.probes, 0); k < ATTEMPTS && e.probes[k].NullHandle?
  }

  lemma StepOpened<T, D>(v: Tables<T, D>, e: Event<T, D>)
    requires Inv(v) && WellFormedEvent(e) && Step(v, e).1.Opened?
    requires e.OpenRequest? ==> e.transport !in v.handleOf
    ensures var (w, a) := Step(v, e);
            && e.OpenRequest? && a.handle == v.gcount && a.handle !in v.server
            && Backed(w) && a.handle in w.server
            && (LibraryHandle(w, a.handle) == 0 <==> OpenedNothing(e))
  {
    StepBacked(v, e);
    ProbingIs(v, e.transport, e.probes, ATTEMPTS);
  }

  /** Over any history, a service handle holds library handle 0 exactly when the attempt that
      opened it found no device. */
  lemma {:induction false} ZeroExactly<T, D>(v: Tables<T, D>, events: seq<Event<T, D>>, i: nat)
    requires History(v, events) && i < |events| && Run(v, events).1[i].Opened?
    ensures var h, w := Run(v, events).1[i].handle, Run(v, events).0;
            && Backed(w) && h in w.server
            && (LibraryHandle(w, h) == 0 <==> OpenedNothing(events[i]))
    decreases |events|
  {
    hide Inv, Step, Probing, OpenedNothing, History;
    HistoryOwn(v, events);
    HistoryStep(v, events);
    HistoryBacked(v, events);
    var (w, a) := Step(v, events[0]);
    HistoryBacked(w, events[1..]);
    if i == 0 {
      StepOpened(v, events[0]);
      RunHolds(w, events[1..]);
    } else {
      ZeroExactly(w, events[1..], i - 1);
    }
  }

  lemma HistoryBacked<T, D>(v: Tables<T, D>, events: seq<Event<T, D>>)
    requires History(v, events)
    ensures Backed(v) && Inv(v) && forall e :: e in events ==> WellFormedEvent(e)
  {
    hide OwnTransports;
  }

  /** A handle given out later is another one. */
  lemma {:induction false} LaterHandle<T, D>(v: Tables<T, D>, events: seq<Event<T, D>>, j: nat, h: int)
    requires History(v, events) && Backed(v) && h in v.server
    requires j < |events| && Run(v, events).1[j].Opened?
    ensures Run(v, events).1[j].handle != h
    decreases |events|
  {
    hide Inv, Step, Probing, OpenedNothing, History;
    HistoryOwn(v, events);
    HistoryStep(v, events);
    HistoryBacked(v, events);
    var (w, a) := Step(v, events[0]);
    HistoryBacked(w, events[1..]);
    if j == 0 {
      StepOpened(v, events[0]);
    } else {
      StepHolds(v, events[0]);
      LaterHandle(w, events[1..], j - 1, h);
    }
  }

  /** Over any history, two service handles are different, and share a library handle exactly
      when both were opened without a device. */
  lemma {:induction false} SharedExactly<T, D>(v: Tables<T, D>, events: seq<Event<T, D>>, i: nat, j: nat)
    requires History(v, events) && i < j < |events|
    requires Run(v, events).1[i].Opened? && Run(v, events).1[j].Opened?
    ensures var w, h, k := Run(v, events).0, Run(v, events).1[i].handle, Run(v, events).1[j].handle;
            && h != k && Backed(w) && h in w.server && k in w.server
            && (LibraryHandle(w, h) == LibraryHandle(w, k) <==> OpenedNothing(events[i]) && OpenedNothing(events[j]))
  {
    hide Step, Probing, OpenedNothing, History;
    HistoryBacked(v, events);
    HandlesDiffer(v, events, i, j);
    ZeroExactly(v, events, i);
    ZeroExactly(v, events, j);
    RunInv(v, events);
    DistinctHandles(Run(v, events).0, Run(v, events).1[i].handle, Run(v, events).1[j].handle);
  }

  lemma {:induction false} HandlesDiffer<T, D>(v: Tables<T, D>, events: seq<Event<T, D>>, i: nat, j: nat)
    requires History(v, events) && i < j < |events|
    requires Run(v, events).1[i].Opened? && Run(v, events).1[j].Opened?
    ensures Run(v, events).1[i].handle != Run(v, events).1[j].handle
    decreases |events|
  {
    hide Inv, Step, Probing, OpenedNothing, History;
    HistoryOwn(v, events);
    HistoryStep(v, events);
    HistoryBacked(v, events);
    var (w, a) := Step(v, events[0]);
    HistoryBacked(w, events[1..]);
    if i == 0 {
      StepOpened(v, events[0]);
      LaterHandle(w, events[1..], j - 1, a.handle);
    } else {
      HandlesDiffer(w, events[1..], i - 1, j - 1);
    }
  }
}
