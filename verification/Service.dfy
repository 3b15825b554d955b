/** The service: transports, the three commands, and the responses they send. */
module Service {
  import opened DfuMachine
  import opened DfuDevices
  import opened Downloads
  import opened HandleTables
  import opened LibDfu
  import opened Outcomes
  import opened Recovery
  import opened Responses

  /** Which transport the progress of a library handle goes to. */
  class TransMap {
    var routes: map<int, DFUTransport>

    constructor ()
      ensures routes == map[]
    {
      routes := map[];
    }
  }

  class DFUTransport {
    var inited: bool
    var handle: int
    var dlCb: Callback?

    constructor ()
      ensures !inited && handle == -1 && dlCb == null
    {
      inited, handle, dlCb := false, -1, null;
    }

    /** `loaded` says whether the library and its three calls were found. */
    method Init(loaded: bool) returns (ret: int)
      modifies this
      ensures inited == loaded && handle == old(handle) && dlCb == old(dlCb)
      ensures ret == if loaded then 0 else -1
    {
      inited := false;
      if !loaded {
        return -1;
      }
      inited := true;
      return 0;
    }

    method Open(library: Library, transMap: TransMap, probe: Probe<DfuDevice>) returns (ret: int)
      modifies this, library, transMap
      ensures inited == old(inited) && dlCb == old(dlCb)
      ensures !inited || probe.NotOpened? ==>
                && ret == -1 && handle == old(handle) && transMap.routes == old(transMap.routes)
                && library.gHandle == old(library.gHandle) && library.deviceMap == old(library.deviceMap)
      ensures inited && !probe.NotOpened? ==>
                && ret == 0 && transMap.routes == old(transMap.routes)[handle := this]
      ensures inited && probe.NullHandle? ==>
                && handle == 0
                && library.gHandle == old(library.gHandle) && library.deviceMap == old(library.deviceMap)
      ensures inited && probe.Found? ==>
                && handle == library.gHandle == old(library.gHandle) + 1
                && library.deviceMap == old(library.deviceMap)[handle := probe.dev]
    {
      if !inited {
        return -1;
      }
      ret := library.OpenDevice(probe);
      if ret < 0 {
        return -1;
      }
      handle := ret;
      transMap.routes := transMap.routes[handle := this];
      return 0;
    }

    /** Progress goes to the callback of whichever transport the handle is routed to. */
    method Download(library: Library, transMap: TransMap, data: seq<bv8>, claim: int, setAlt: int, cb: Callback)
      returns (r: Outcome<int>)
      requires cb.Valid()
      requires inited && handle in library.deviceMap ==> handle in transMap.routes && transMap.routes[handle] == this
      modifies this, cb, cb.channel
      modifies if handle in library.deviceMap then {library.deviceMap[handle]} else {}
      ensures inited == old(inited) && handle == old(handle) && cb.Valid()
      ensures dlCb == if inited then cb else old(dlCb)
      ensures inited && handle in old(library.deviceMap) && claim >= 0 && setAlt >= 0 ==>
                var dev := old(library.deviceMap[handle]);
                var (n, result, reported) := LibraryRun(old(dev.m), data);
                && dev.m == n
                && r == (if result.Return? && result.value < 0 then Return(-1) else result)
                && cb.heard == old(cb.heard) + Reports(handle, reported, |data|)
      ensures !inited || handle !in old(library.deviceMap) || claim < 0 || setAlt < 0 ==>
                && r == Return(-1) && cb.heard == old(cb.heard)
                && (handle in old(library.deviceMap) ==>
                      old(library.deviceMap[handle]).m == old(library.deviceMap[handle].m))
    {
      if !inited {
        return Return(-1);
      }
      dlCb := cb;
      hide Recover, Transmit, Reports;
      var sink := if handle in transMap.routes then transMap.routes[handle].dlCb else null;
      r := library.Download(handle, data, claim, setAlt, sink);
      if r.Return? && r.value < 0 {
        r := Return(-1);
      }
    }

    method Close(library: Library) returns (ret: int)
      modifies library
      ensures library.gHandle == old(library.gHandle)
      ensures inited ==>
                && library.deviceMap == old(library.deviceMap) - {handle}
                && ret == if handle in old(library.deviceMap) then 0 else -1
      ensures !inited ==> library.deviceMap == old(library.deviceMap) && ret == -1
    {
      if !inited {
        return -1;
      }
      ret := library.CloseDevice(handle);
      if ret < 0 {
        ret := -1;
      }
    }
  }

  // ----- the commands

  /** The last pair reported, 0/0 if there was none. */
  function LastCount(reported: seq<nat>): nat {
    if reported == [] then 0 else reported[|reported| - 1]
  }

  function ProgressResponses(handle: int, reported: seq<nat>, total: nat): (r: seq<Response>)
    ensures |r| == |reported|
    ensures forall i :: 0 <= i < |r| ==> r[i] == DownloadResponse(reported[i], total, handle, false)
  {
    seq(|reported|, i requires 0 <= i < |reported| => DownloadResponse(reported[i], total, handle, false))
  }

  /** What a download request is answered with when the library returned after these
      reports. */
  function Answers(handle: int, reported: seq<nat>, total: nat): seq<Response> {
    ProgressResponses(handle, reported, total)
    + [DownloadResponse(LastCount(reported), if reported == [] then 0 else total, handle, true)]
  }

  lemma NoReports(d: int, total: nat)
    ensures Reports(d, [], total) == []
  {
  }

  lemma RelayedProgress(handle: int, d: int, reported: seq<nat>, total: nat)
    ensures Relayed(handle, Reports(d, reported, total)) == ProgressResponses(handle, reported, total)
    ensures reported != [] ==>
              Reports(d, reported, total)[|reported| - 1] == Report(d, LastCount(reported), total)
  {
  }

  /** The library handle behind a service handle: its progress comes back to the
      transport that opened it, unless no device was opened. */
  lemma RoutedBack<T, D>(v: Tables<T, D>, h: int)
    requires Inv(v) && h in v.server
    ensures Backed(v) && v.server[h] in v.handleOf
    ensures LibraryHandle(v, h) in v.routes
    ensures LibraryHandle(v, h) in v.devices ==> v.routes[LibraryHandle(v, h)] == v.server[h]
  {
  }

  class Server {
    const library: Library
    const transMap: TransMap
    var deviceMap: map<int, DFUTransport>
    var gcount: int
    ghost var attached: set<DFUTransport>

    ghost predicate Valid()
      reads this, library, transMap, attached
    {
      Inv(View()) && Wired()
    }

    /** The transports that have opened a handle are initialized, and progress goes to
        no other. */
    ghost predicate Wired()
      reads this`attached, transMap, attached
    {
      (forall t :: t in attached ==> t.inited) && transMap.routes.Values <= attached
    }

    ghost function View(): Tables<DFUTransport, DfuDevice>
      reads this, library, transMap, attached
    {
      Tables(library.gHandle, library.deviceMap, gcount, deviceMap, transMap.routes,
             map t | t in attached :: t.handle)
    }

    constructor ()
      ensures Valid() && View() == Initial()
      ensures fresh(library) && fresh(transMap) && attached == {}
    {
      library := new Library();
      transMap := new TransMap();
      deviceMap, gcount, attached := map[], 1, {};
    }

    /** Tries for a device, five times at most. */
    method Search(dfu: DFUTransport, probes: seq<Probe<DfuDevice>>) returns (delay: int)
      requires dfu.inited && dfu !in attached && Wired() && |probes| == ATTEMPTS
      modifies this`attached, library, transMap, dfu
      ensures (View(), delay) == Probing(old(View()), dfu, probes, ATTEMPTS)
      ensures Wired()
    {
      delay := ATTEMPTS;
      ghost var v := View();
      while true
        invariant 0 <= delay <= ATTEMPTS
        invariant dfu.inited && attached == old(attached) && Wired() && View() == v
        invariant Probing(v, dfu, probes, ATTEMPTS) == Probing(v, dfu, probes, delay)
        decreases delay
      {
        var tested := delay;
        delay := delay - 1;
        if tested == 0 {
          return;
        }
        var ret := dfu.Open(library, transMap, probes[ATTEMPTS - tested]);
        if ret == 0 {
          attached := attached + {dfu};
          assert View().handleOf == v.handleOf[dfu := dfu.handle];
          return;
        }
      }
    }

    /** A service handle for the transport. */
    method Register(dfu: DFUTransport) returns (handle: int)
      modifies this`gcount, this`deviceMap
      ensures handle == old(gcount)
      ensures var v := old(View()); View() == v.(server := v.server[v.gcount := dfu], gcount := v.gcount + 1)
    {
      handle := gcount;
      gcount := gcount + 1;
      deviceMap := deviceMap[handle := dfu];
    }

    method OpenCommand(loaded: bool, probes: seq<Probe<DfuDevice>>)
      returns (response: Response, ghost t: DFUTransport)
      requires Valid() && |probes| == ATTEMPTS
      modifies this, library, transMap
      ensures Valid() && fresh(t)
      ensures var (w, a) := Step(old(View()), OpenRequest(t, loaded, probes));
              && View() == w
              && response == if a.Opened? then OpenResponse(a.handle) else ErrorResponse
    {
      hide Inv, Probing, Backed, Step, Wired;
      ghost var v := View();
      var dfu := new DFUTransport();
      t := dfu;
      assert View() == v && dfu !in v.handleOf;
      InvBacked(v);
      StepInv(v, OpenRequest(dfu, loaded, probes));
      OpenStep(v, dfu, loaded, probes);
      var ret := dfu.Init(loaded);
      if ret < 0 {
        return ErrorResponse, dfu;
      }
      ghost var (w, a) := Step(v, OpenRequest(dfu, loaded, probes));
      var delay := Search(dfu, probes);
      if delay <= 0 {
        return ErrorResponse, dfu;
      }
      var handle := Register(dfu);
      return OpenResponse(handle), dfu;
    }

    method CloseCommand(handle: int) returns (response: Response)
      requires Valid()
      modifies library
      ensures Valid()
      ensures var (w, a) := Step(old(View()), CloseRequest(handle));
              View() == w && response == if a == Closed then CloseResponse else ErrorResponse
    {
      hide Inv, Step, Backed;
      ghost var v := View();
      CloseStep(v, handle);
      if handle !in deviceMap {
        return ErrorResponse;
      }
      var dfu := deviceMap[handle];
      assert dfu in attached && dfu.handle == v.handleOf[dfu];
      var ret := dfu.Close(library);
      assert View() == v.(devices := v.devices - {dfu.handle});
      if ret != 0 {
        return ErrorResponse;
      }
      return CloseResponse;
    }

    /** The device a request on this handle is passed on to. */
    ghost function Target(handle: int): (devs: set<DfuDevice>)
      reads this, library, transMap, attached
    {
      var v := View();
      if Backed(v) && handle in v.server && LibraryHandle(v, handle) in v.devices
      then {v.devices[LibraryHandle(v, handle)]}
      else {}
    }

    lemma WiredTransport(t: DFUTransport, d: int)
      requires Wired() && t in attached && d in transMap.routes
      ensures t.inited && transMap.routes[d] in attached
    {
      assert transMap.routes[d] in transMap.routes.Values;
    }

    /** The transports' callbacks are not part of the tables. */
    method DownloadCommand(handle: int, data: seq<bv8>, claim: int, setAlt: int, channel: Channel)
      returns (r: Outcome<()>)
      requires Valid()
      modifies attached, channel
      modifies Target(handle)
      ensures Valid() && View() == old(View())
      ensures match HandleTables.Download(old(View()), handle)
              case Reached(dev) =>
                if claim >= 0 && setAlt >= 0 then
                  var (n, result, reported) := LibraryRun(old(dev.m), data);
                  && dev.m == n
                  && r == (if result.Return? then Return(()) else Exit(result.code))
                  && channel.sent == old(channel.sent) + (if result.Return? then Answers(handle, reported, |data|)
                                                          else ProgressResponses(handle, reported, |data|))
                else
                  && dev.m == old(dev.m)
                  && r == Return(()) && channel.sent == old(channel.sent) + Answers(handle, [], |data|)
              case InvalidHandle => r == Return(()) && channel.sent == old(channel.sent) + [ErrorResponse]
              case _ => r == Return(()) && channel.sent == old(channel.sent) + Answers(handle, [], |data|)
    {
      hide Inv, LibraryRun, ProgressResponses, Reports, Relayed;
      ghost var v := View();
      InvBacked(v);
      if handle !in deviceMap {
        channel.Send(ErrorResponse);
        return Return(());
      }
      var dfu := deviceMap[handle];
      RoutedBack(v, handle);
      WiredTransport(dfu, dfu.handle);
      r := Serve(dfu, handle, data, claim, setAlt, channel);
      assert View() == v;
    }

    /** Downloads through a transport; progress and outcome go to the channel. */
    method Serve(dfu: DFUTransport, handle: int, data: seq<bv8>, claim: int, setAlt: int, channel: Channel)
      returns (r: Outcome<()>)
      requires dfu.inited
      requires dfu.handle in library.deviceMap ==>
        dfu.handle in transMap.routes && transMap.routes[dfu.handle] == dfu
      modifies dfu, channel
      modifies if dfu.handle in library.deviceMap then {library.deviceMap[dfu.handle]} else {}
      ensures dfu.inited && dfu.handle == old(dfu.handle)
      ensures dfu.handle in library.deviceMap && claim >= 0 && setAlt >= 0 ==>
        var dev := library.deviceMap[dfu.handle];
        var (n, result, reported) := LibraryRun(old(dev.m), data);
        && dev.m == n
        && r == (if result.Return? then Return(()) else Exit(result.code))
        && channel.sent == old(channel.sent) + (if result.Return? then Answers(handle, reported, |data|)
                                                else ProgressResponses(handle, reported, |data|))
      ensures dfu.handle !in library.deviceMap || claim < 0 || setAlt < 0 ==>
        && r == Return(()) && channel.sent == old(channel.sent) + Answers(handle, [], |data|)
        && (dfu.handle in library.deviceMap ==>
              library.deviceMap[dfu.handle].m == old(library.deviceMap[dfu.handle].m))
    {
      hide LibraryRun, ProgressResponses, Reports, Relayed;
      var downloadCb := new Callback(channel, handle);
      var result := dfu.Download(library, transMap, data, claim, setAlt, downloadCb);
      ghost var reported := if claim >= 0 && setAlt >= 0 && dfu.handle in library.deviceMap
                            then LibraryRun(old(library.deviceMap[dfu.handle].m), data).2 else [];
      NoReports(dfu.handle, |data|);
      assert [] + Reports(dfu.handle, reported, |data|) == Reports(dfu.handle, reported, |data|);
      assert downloadCb.heard == Reports(dfu.handle, reported, |data|);
      RelayedProgress(handle, dfu.handle, reported, |data|);
      if result.Exit? {
        return Exit(result.code);
      }
      channel.Send(DownloadResponse(downloadCb.bytesSent, downloadCb.bytesTotal, handle, true));
      return Return(());
    }
  }

  // ----- the response trace

  /** Counts that follow the progress of one download: multiples of 4096 up to the
      length. */
  ghost predicate CountsClimb(reported: seq<nat>, n: nat) {
    forall i :: 0 <= i < |reported| ==> reported[i] == Min(i * 4096, n)
  }

  lemma ReportsClimb(reported: seq<nat>, data: seq<bv8>)
    requires reported <= [0] + Boundaries(data, 0, 4096)
    ensures CountsClimb(reported, |data|)
  {
    hide Boundaries, Min;
    forall i | 0 <= i < |reported| ensures reported[i] == Min(i * 4096, |data|) {
      ReportClimbs(reported, data, i);
    }
  }

  lemma ReportClimbs(reported: seq<nat>, data: seq<bv8>, i: nat)
    requires reported <= [0] + Boundaries(data, 0, 4096) && i < |reported|
    ensures reported[i] == Min(i * 4096, |data|)
  {
    hide Boundaries;
    var rest := Boundaries(data, 0, 4096);
    assert reported[i] == ([0] + rest)[i];
    if i > 0 {
      BoundaryAt(data, 0, 4096, i - 1);
    }
  }

  /** Progress responses, then exactly one final response. The progress climbs 0,
      min(4096, n), min(8192, n), ...; the total is the same in all of it; and the
      final response repeats the last pair, or says 0/0 when there was none. */
  ghost predicate Trace(responses: seq<Response>, handle: int, n: nat) {
    && responses != []
    && (forall i :: 0 <= i < |responses| - 1 ==>
          responses[i] == DownloadResponse(Min(i * 4096, n), n, handle, false))
    && var last := |responses| - 1;
    responses[last] == if last == 0 then DownloadResponse(0, 0, handle, true)
                       else DownloadResponse(responses[last - 1].sent, responses[last - 1].total, handle, true)
  }

  /** On any conforming device and under any faults, a download that returns is answered with
      such a trace. */
  lemma ResponseTrace(m: Machine, data: seq<bv8>, handle: int)
    requires Conforming(m)
    ensures var (_, result, reported) := LibraryRun(m, data);
            result.Return? ==> Trace(Answers(handle, reported, |data|), handle, |data|)
    ensures Trace(Answers(handle, [], |data|), handle, |data|)
  {
    hide LibraryRun, Boundaries;
    LibraryHonest(m, data);
    ReportsClimb(LibraryRun(m, data).2, data);
  }

  /** In such a trace the counts never go down and never exceed the total. */
  lemma TraceClimbs(responses: seq<Response>, handle: int, n: nat, i: nat, j: nat)
    requires Trace(responses, handle, n) && i <= j < |responses|
    ensures responses[i].DownloadResponse? && responses[j].DownloadResponse?
    ensures responses[i].sent <= responses[j].sent <= responses[j].total
    ensures responses[j].final <==> j == |responses| - 1
  {
    var last := |responses| - 1;
    var i', j' := if i == last && i > 0 then last - 1 else i, if j == last && j > 0 then last - 1 else j;
    assert i' * 4096 <= j' * 4096;
  }

  /** A close request, in terms of the map of open devices. */
  lemma CloseStep<T, D>(v: Tables<T, D>, h: int)
    requires Inv(v)
    ensures Backed(v) && Inv(Step(v, CloseRequest(h)).0)
    ensures h in v.server ==> v.server[h] in v.handleOf
    ensures Step(v, CloseRequest(h))
         == if h !in v.server then (v, InvalidHandle)
            else
              var d := v.handleOf[v.server[h]];
              (v.(devices := v.devices - {d}), if d in v.devices then Closed else CannotClose)
  {
    InvBacked(v);
    StepInv(v, CloseRequest(h));
    if h in v.server && v.handleOf[v.server[h]] !in v.devices {
      assert v.devices - {v.handleOf[v.server[h]]} == v.devices;
    }
  }

  /** An open request, in terms of the retry loop. */
  lemma OpenStep<T, D>(v: Tables<T, D>, t: T, loaded: bool, probes: seq<Probe<D>>)
    requires Backed(v) && |probes| == ATTEMPTS
    ensures Step(v, OpenRequest(t, loaded, probes))
         == if !loaded then (v, NotLoaded)
            else
              var (w, delay) := Probing(v, t, probes, ATTEMPTS);
              if delay <= 0 then (w, NoDeviceFound)
              else (w.(server := w.server[w.gcount := t], gcount := w.gcount + 1), Opened(w.gcount))
  {
  }
}
