/** The library download: the loop that brings a device into dfuIDLE, and the
    transmission after it. */
module Recovery {
  import opened DfuMachine
  import opened Outcomes
  import opened Downloads

  const BLOCK_SIZE: nat := 4096

  /** How the recovery loop ends: the download goes on, or the call returns early. */
  datatype Recovered = GoOn(m: Machine) | GiveUp(m: Machine, ret: int)

  function Recover(m: Machine): Recovered
    decreases m.state != DfuIdle
  {
    var (n, _, dst) := m.ReadStatus();
    var k := n.Elapse(dst.bwPollTimeout);
    if dst.bState == Error then
      var (c, ret) := k.ClearStatus();
      if ret < 0 then GiveUp(c, ret) else Recover(c)
    else if dst.bState == DnloadIdle || dst.bState == UploadIdle then
      var (c, ret) := k.AbortTransfer();
      if ret < 0 then GiveUp(c, ret) else Recover(c)
    else if dst.bStatus != STATUS_OK then
      var c := k.ClearStatus().0;
      var (d, _, again) := c.ReadStatus();
      GoOn(d.Elapse(again.bwPollTimeout))
    else GoOn(k)
  }

  /** The library call on an open handle, once the interface is claimed: the device
      afterwards, the value returned, and the counts reported. */
  function LibraryRun(m: Machine, data: seq<bv8>): (Machine, Outcome<int>, seq<nat>) {
    match Recover(m)
    case GiveUp(n, ret) => (n, Return(ret), [])
    case GoOn(n) =>
      var t := Transmit(n, data, 0, 0, BLOCK_SIZE);
      (t.m, if t.r.Return? then Return(t.r.value) else Exit(t.r.code), [0] + t.reported)
  }

  // ----- recovery

  /** How often the status was read. */
  function StatusReads(requests: seq<Request>): nat
    decreases |requests|
  {
    if requests == [] then 0
    else
      StatusReads(requests[..|requests| - 1]) + if requests[|requests| - 1] == GetStatus then 1 else 0
  }

  lemma StatusReadsSnoc(requests: seq<Request>, r: Request)
    ensures StatusReads(requests + [r]) == StatusReads(requests) + if r == GetStatus then 1 else 0
  {
    assert (requests + [r])[..|requests|] == requests;
  }

  lemma ClearRecord(m: Machine)
    ensures var (n, ret) := m.ClearStatus();
            && n.requests == m.requests + [ClrStatus] && n.script == m.Receive(ClrStatus).script
            && n.blocks == m.blocks && n.tolerant == m.tolerant
            && (ret >= 0 ==> n.state == DfuIdle && n.status == STATUS_OK && n.legal == m.legal)
            && (m.Head() != Broken && m.state == Error ==> ret >= 0)
            && (m.state != Error ==> ret < 0)
            && (m.Head() != Broken && m.state != Error ==> !n.legal)
            && (n.legal ==> m.legal)
  {
  }

  lemma AbortRecord(m: Machine)
    requires m.state == DnloadIdle || m.state == UploadIdle
    ensures var (n, ret) := m.AbortTransfer();
            && n.requests == m.requests + [Abort] && n.script == m.Receive(Abort).script
            && n.blocks == m.blocks && n.tolerant == m.tolerant && n.legal == m.legal
            && n.status == m.status
            && (ret >= 0 ==> n.state == DfuIdle)
            && (m.Head() != Broken ==> ret >= 0)
  {
  }

  lemma OneStatusRead(m: Machine)
    ensures var n := m.ReadStatus().0;
            && StatusReads(n.requests) == StatusReads(m.requests) + 1
            && Dnloads(n.requests) == Dnloads(m.requests)
            && (n.blocks == m.blocks || n.blocks == m.blocks + m.pending)
            && (m.state != DnloadSync ==> n.blocks == m.blocks)
  {
    StatusReadRecord(m);
    StatusReadsSnoc(m.requests, GetStatus);
    DnloadsSnoc(m.requests, GetStatus);
  }

  /** From dfuIDLE with status OK one status read settles it, under any faults. */
  lemma RecoverFromIdle(m: Machine)
    requires m.state == DfuIdle && m.status == STATUS_OK
    ensures var n := Recover(m).m;
            && StatusReads(n.requests) == StatusReads(m.requests) + 1
            && Dnloads(n.requests) == Dnloads(m.requests)
            && n.blocks == m.blocks
            && n.tolerant == m.tolerant
            && (Recover(m).GoOn? ==> n.state == DfuIdle && n.status == STATUS_OK && n.legal == m.legal)
            && (n.legal ==> m.legal)
            && (FaultFree(m.script) ==> Recover(m).GoOn? && FaultFree(n.script))
  {
    hide FaultFree, Dnloads, StatusReads, Machine.ReadStatus, Machine.ClearStatus, Recover;
    RecoverUnfold(m);
    OneStatusRead(m);
    QuietPolled(m);
    ScriptMoves(m, GetStatus);
    var (n, _, dst) := m.ReadStatus();
    var k := n.Elapse(dst.bwPollTimeout);
    if dst.bState == Error {
      ClearRecord(k);
      DnloadsSnoc(k.requests, ClrStatus);
      StatusReadsSnoc(k.requests, ClrStatus);
    }
  }

  /** After the first pass the loop is in dfuIDLE or over: at most two status reads,
      on a device whose status is OK outside dfuERROR and under any faults, and nothing is
      downloaded meanwhile. At most the block that was pending is carried out. */
  lemma RecoverBounded(m: Machine)
    requires Conforming(m)
    ensures var n := Recover(m).m;
            && StatusReads(n.requests) <= StatusReads(m.requests) + 2
            && Dnloads(n.requests) == Dnloads(m.requests)
            && (n.blocks == m.blocks || n.blocks == m.blocks + m.pending)
            && (m.state != DnloadSync ==> n.blocks == m.blocks)
            && n.tolerant == m.tolerant
            && (n.legal ==> m.legal)
            && (Recover(m).GoOn? ==> Conforming(n))
            && (FaultFree(m.script) ==> FaultFree(n.script))
  {
    hide FaultFree, Dnloads, StatusReads, Recover;
    RecoverUnfold(m);
    OneStatusRead(m);
    StatusReadRecord(m);
    StatusReadStatus(m);
    ScriptMoves(m, GetStatus);
    var (n, _, dst) := m.ReadStatus();
    var k := n.Elapse(dst.bwPollTimeout);
    if dst.bState == Error {
      ClearRecord(k);
      ScriptMoves(k, ClrStatus);
      DnloadsSnoc(k.requests, ClrStatus);
      StatusReadsSnoc(k.requests, ClrStatus);
      var (c, ret) := k.ClearStatus();
      if ret >= 0 {
        RecoverFromIdle(c);
      }
    } else if dst.bState == DnloadIdle || dst.bState == UploadIdle {
      AbortRecord(k);
      ScriptMoves(k, Abort);
      DnloadsSnoc(k.requests, Abort);
      StatusReadsSnoc(k.requests, Abort);
      var (c, ret) := k.AbortTransfer();
      if ret >= 0 {
        RecoverFromIdle(c);
      }
    }
  }

  /** Without that about its status there can be one read more, but not two. */
  lemma RecoverBoundedAlways(m: Machine)
    ensures StatusReads(Recover(m).m.requests) <= StatusReads(m.requests) + 3
    ensures Dnloads(Recover(m).m.requests) == Dnloads(m.requests)
  {
    hide Dnloads, StatusReads, Recover, Machine.ReadStatus, Machine.ClearStatus, Machine.AbortTransfer, Machine.Elapse;
    RecoverUnfold(m);
    OneStatusRead(m);
    var (n, _, dst) := m.ReadStatus();
    var k := n.Elapse(dst.bwPollTimeout);
    ElapseRecord(n, dst.bwPollTimeout);
    ReadLeads(m);
    ClearRecord(k);
    DnloadsSnoc(k.requests, ClrStatus);
    StatusReadsSnoc(k.requests, ClrStatus);
    if dst.bState == Error {
      var (c, ret) := k.ClearStatus();
      if ret >= 0 {
        IdleReads(c);
      }
    } else if dst.bState == DnloadIdle || dst.bState == UploadIdle {
      Slept(n, dst.bwPollTimeout);
      QuietSleep(n, dst.bwPollTimeout);
      AbortRecord(k);
      DnloadsSnoc(k.requests, Abort);
      StatusReadsSnoc(k.requests, Abort);
      var (c, ret) := k.AbortTransfer();
      if ret >= 0 {
        IdleReads(c);
      }
    } else {
      SecondRead(k.ClearStatus().0);
    }
  }

  lemma QuietSleep(m: Machine, ms: nat)
    requires m.state != DnBusy && m.state != Manifest
    ensures m.Elapse(ms) == m
  {
  }

  lemma SecondRead(c: Machine)
    ensures var (d, _, again) := c.ReadStatus();
            var e := d.Elapse(again.bwPollTimeout);
            StatusReads(e.requests) == StatusReads(c.requests) + 1 && Dnloads(e.requests) == Dnloads(c.requests)
  {
    hide Dnloads, StatusReads, Machine.ReadStatus, Machine.Elapse;
    OneStatusRead(c);
    var (d, _, again) := c.ReadStatus();
    ElapseRecord(d, again.bwPollTimeout);
  }

  /** From dfuIDLE with any status. */
  lemma IdleReads(m: Machine)
    requires m.state == DfuIdle
    ensures StatusReads(Recover(m).m.requests) <= StatusReads(m.requests) + 2
    ensures Dnloads(Recover(m).m.requests) == Dnloads(m.requests)
  {
    hide Dnloads, StatusReads, Recover, Machine.ReadStatus, Machine.ClearStatus, Machine.AbortTransfer, Machine.Elapse;
    RecoverUnfold(m);
    OneStatusRead(m);
    QuietPolled(m);
    var (n, _, dst) := m.ReadStatus();
    var k := n.Elapse(dst.bwPollTimeout);
    QuietSleep(n, dst.bwPollTimeout);
    ClearRecord(k);
    DnloadsSnoc(k.requests, ClrStatus);
    StatusReadsSnoc(k.requests, ClrStatus);
    if dst.bState != Error {
      SecondRead(k.ClearStatus().0);
    }
  }

  /** A device in a transfer with another status than OK is read three times. */
  lemma ThreeReads(m: Machine)
    requires (m.state == DnloadIdle || m.state == UploadIdle) && m.status != STATUS_OK && m.script == []
    ensures StatusReads(Recover(m).m.requests) == StatusReads(m.requests) + 3
  {
    hide StatusReads, Recover, Machine.ReadStatus, Machine.AbortTransfer, Machine.Elapse;
    RecoverUnfold(m);
    OneStatusRead(m);
    QuietPolled(m);
    var (n, _, dst) := m.ReadStatus();
    QuietSleep(n, dst.bwPollTimeout);
    AbortRecord(n);
    StatusReadsSnoc(n.requests, Abort);
    IdleTwoReads(n.AbortTransfer().0);
  }

  lemma IdleTwoReads(m: Machine)
    requires m.state == DfuIdle && m.status != STATUS_OK && m.script == []
    ensures StatusReads(Recover(m).m.requests) == StatusReads(m.requests) + 2
  {
    hide StatusReads, Recover, Machine.ReadStatus, Machine.ClearStatus, Machine.Elapse;
    RecoverUnfold(m);
    OneStatusRead(m);
    QuietPolled(m);
    var (n, _, dst) := m.ReadStatus();
    QuietSleep(n, dst.bwPollTimeout);
    ClearRecord(n);
    StatusReadsSnoc(n.requests, ClrStatus);
    SecondRead(n.ClearStatus().0);
  }

  /** One pass of the loop. */
  lemma RecoverUnfold(m: Machine)
    ensures var (n, _, dst) := m.ReadStatus();
            var k := n.Elapse(dst.bwPollTimeout);
            && (dst.bState == Error ==>
                  var (c, ret) := k.ClearStatus();
                  Recover(m) == if ret < 0 then GiveUp(c, ret) else Recover(c))
            && (dst.bState == DnloadIdle || dst.bState == UploadIdle ==>
                  var (c, ret) := k.AbortTransfer();
                  Recover(m) == if ret < 0 then GiveUp(c, ret) else Recover(c))
            && (dst.bState != Error && dst.bState != DnloadIdle && dst.bState != UploadIdle
                && dst.bStatus == STATUS_OK ==>
                  Recover(m) == GoOn(k))
            && (dst.bState != Error && dst.bState != DnloadIdle && dst.bState != UploadIdle
                && dst.bStatus != STATUS_OK ==>
                  var (d, _, again) := k.ClearStatus().0.ReadStatus();
                  Recover(m) == GoOn(d.Elapse(again.bwPollTimeout)))
            && (dst.bState != Error && dst.bState != DnloadIdle && dst.bState != UploadIdle ==> Recover(m).GoOn?)
  {
    hide Machine.ReadStatus, Machine.ClearStatus, Machine.AbortTransfer, Machine.Elapse;
  }

  /** What a status read says and leaves. */
  lemma StatusReadStatus(m: Machine)
    requires Conforming(m)
    ensures var (n, ret, dst) := m.ReadStatus();
            var k := n.Elapse(dst.bwPollTimeout);
            && Conforming(n) && Conforming(k)
            && (dst.bState != Error ==> dst.bStatus == STATUS_OK && ret >= 0 && n.state == dst.bState)
            && (n.state != DnBusy && n.state != Manifest ==> k == n)
            && k.requests == n.requests && k.blocks == n.blocks && k.script == n.script
            && k.tolerant == n.tolerant && k.legal == n.legal
  {
  }

  /** What the first status read says, state by state. */
  lemma FirstRead(m: Machine)
    requires FaultFree(m.script)
    ensures var (n, _, dst) := m.ReadStatus();
            match m.state
            case DnloadSync => dst.bState == n.state == if m.Answer().Working? then DnBusy else DnloadIdle
            case ManifestSync =>
              dst.bState == n.state == if m.Answer().Working? || !m.tolerant then Manifest else DfuIdle
            case DnBusy | Manifest | ManifestWaitReset => !n.legal && dst == NO_STATUS
            case _ => dst.bState == n.state == m.state
  {
    hide FaultFree, Machine.ReadStatus;
    ScriptMoves(m, GetStatus);
    if m.state == DnloadSync {
      BlockPolled(m);
    } else if m.state == ManifestSync {
      ManifestPolled(m);
    } else if m.AnswersStatus() {
      QuietPolled(m);
    } else {
      MutePolled(m);
    }
  }

  /** The states from which a legal run is possible: the four at rest, and a pending
      operation that is done when it is asked about. */
  predicate Ready(m: Machine) {
    || m.state in {DfuIdle, DnloadIdle, UploadIdle, Error}
    || (m.state == DnloadSync && !m.Answer().Working?)
    || (m.state == ManifestSync && m.tolerant && !m.Answer().Working?)
  }

  /** Without faults a ready device is brought into dfuIDLE by legal requests. */
  lemma RecoverReady(m: Machine)
    requires Conforming(m) && FaultFree(m.script) && Ready(m)
    ensures Recover(m).GoOn?
    ensures Recover(m).m.state == DfuIdle && Recover(m).m.legal == m.legal
  {
    hide FaultFree, Recover, Machine.ReadStatus, Machine.ClearStatus, Machine.AbortTransfer, Machine.Elapse;
    RecoverUnfold(m);
    FirstRead(m);
    StatusReadRecord(m);
    StatusReadStatus(m);
    ScriptMoves(m, GetStatus);
    var (n, _, dst) := m.ReadStatus();
    var k := n.Elapse(dst.bwPollTimeout);
    if dst.bState == Error {
      ClearRecord(k);
      ScriptMoves(k, ClrStatus);
      RecoverFromIdle(k.ClearStatus().0);
    } else if dst.bState == DnloadIdle || dst.bState == UploadIdle {
      AbortRecord(k);
      ScriptMoves(k, Abort);
      RecoverFromIdle(k.AbortTransfer().0);
    }
  }

  /** From any other state the recovery is illegal, or stops where a block or a
      completion packet is. */
  lemma RecoverNotReady(m: Machine)
    requires Conforming(m) && FaultFree(m.script) && !Ready(m)
    ensures var r := Recover(m);
            !r.m.legal || (r.GoOn? && r.m.state != DfuIdle && r.m.state != DnloadIdle)
  {
    hide FaultFree, Recover, Machine.ReadStatus, Machine.ClearStatus, Machine.AbortTransfer, Machine.Elapse;
    RecoverUnfold(m);
    FirstRead(m);
    StatusReadRecord(m);
    StatusReadStatus(m);
    ScriptMoves(m, GetStatus);
    var (n, _, dst) := m.ReadStatus();
    Slept(n, dst.bwPollTimeout);
    var k := n.Elapse(dst.bwPollTimeout);
    if dst.bState == Error {
      ClearRecord(k);
      var (c, ret) := k.ClearStatus();
      if ret >= 0 {
        RecoverFromIdle(c);
      }
    }
  }

  // ----- whole runs

  lemma {:induction false} LegalKept(m: Machine, data: seq<bv8>, sent: nat, number: nat, size: nat)
    requires sent <= |data| && 0 < size < WRAP && Conforming(m) && !m.legal
    ensures !Transmit(m, data, sent, number, size).m.legal
    decreases |data| - sent
  {
    hide Dnloads, AwaitBlock, Settle, FaultFree, Machine.Download;
    var next := sent + ChunkSize(data, sent, size);
    var b := Block(number, if sent < |data| then data[sent..next] else []);
    var (n, ret) := m.Download(b);
    DownloadRecord(m, b);
    IllegalDownload(m, b);
    if ret >= 0 {
      if sent < |data| {
        AwaitBlockEnds(n);
        var (k, r) := AwaitBlock(n);
        if r.Return? && r.value.bStatus == STATUS_OK {
          LegalKept(k, data, next, (number + 1) % WRAP, size);
        }
      } else {
        IllegalSettle(n);
      }
    }
  }

  lemma IllegalDownload(m: Machine, b: Block)
    requires !m.legal
    ensures !m.Download(b).0.legal
  {
  }

  lemma {:induction false} IllegalSettle(m: Machine)
    requires (m.state == ManifestSync || m.state == ManifestWaitReset) && !m.legal
    ensures !Settle(m).legal
    decreases |m.script|, !m.asked, m.state == ManifestSync
  {
    var (n, ret, dst) := m.ReadStatus();
    if ret >= 0 && (dst.bState == ManifestSync || dst.bState == Manifest) {
      IllegalSettle(n.Elapse(dst.bwPollTimeout).Elapse(1000));
    }
  }

  /** End to end. From any of the four states at rest, on a device without faults
      that comes back from manifestation, a non-empty image arrives whole: cut into
      blocks of at most 4096 bytes, numbered from 0 modulo 65536, followed by exactly
      one completion packet, and installed with no remains of an earlier transfer.
      Every request is legal and the device ends idle. */
  lemma LibraryDownload(m: Machine, data: seq<bv8>)
    requires m.state in {DfuIdle, DnloadIdle, UploadIdle, Error} && Conforming(m)
    requires FaultFree(m.script) && m.tolerant && data != []
    ensures var (n, r, reported) := LibraryRun(m, data);
            var c := Chunks(data, 0, 0, 4096);
            && r == Return(|data|)
            && n.installed == Installed(c) && Joined(c) == data
            && n.blocks == m.blocks + c
            && Dnloads(n.requests) == Dnloads(m.requests) + c + [Block(|c| % 65536, [])]
            && reported == [0] + Boundaries(data, 0, 4096)
            && n.legal == m.legal && n.state == DfuIdle
  {
    hide Dnloads, FaultFree, StatusReads, Recover, Transmit, Chunks, Boundaries, Joined;
    RecoverReady(m);
    RecoverBounded(m);
    var n := Recover(m).m;
    TransmitComplete(n, data, 0, 0, BLOCK_SIZE);
    ChunksJoin(data, 0, 0, BLOCK_SIZE);
    assert data[0..] == data;
    var c := Chunks(data, 0, 0, BLOCK_SIZE);
    assert [] + c == c;
  }

  /** On any conforming device and under any faults: the blocks of the image carried out are
      its leading blocks, once and in order, and no more than its length is reported. */
  lemma LibraryHonest(m: Machine, data: seq<bv8>)
    requires Conforming(m)
    ensures var (n, r, reported) := LibraryRun(m, data);
            && (r.Return? ==> r.value <= |data|)
            && reported <= [0] + Boundaries(data, 0, 4096)
            && (Recover(m).GoOn? ==>
                  CarriedOut(Recover(m).m, n, Chunks(data, 0, 0, 4096)))
            && (Recover(m).GiveUp? ==>
                  r.Return? && r.value < 0 && reported == [] && Dnloads(n.requests) == Dnloads(m.requests))
  {
    hide Dnloads, FaultFree, StatusReads, Recover, Transmit, Chunks, Boundaries, CarriedOut, Joined;
    RecoverBounded(m);
    GivenUpIsNegative(m);
    if Recover(m).GoOn? {
      TransmitHonest(Recover(m).m, data, 0, 0, BLOCK_SIZE);
    }
  }

  /** Without faults, the whole run is legal exactly when the device was ready, there
      is something to send, and the device comes back from manifestation. */
  lemma LibraryLegal(m: Machine, data: seq<bv8>)
    requires Conforming(m) && FaultFree(m.script) && m.legal
    ensures LibraryRun(m, data).0.legal <==> Ready(m) && data != [] && m.tolerant
  {
    hide Dnloads, FaultFree, StatusReads, Recover, Ready, AwaitBlock, Settle, Chunks, Boundaries, Joined,
         Machine.Download;
    RecoverBounded(m);
    var r := Recover(m);
    var n := r.m;
    if !Ready(m) {
      RecoverNotReady(m);
      if r.GoOn? && n.legal {
        var b := Block(0, if data != [] then data[0..ChunkSize(data, 0, BLOCK_SIZE)] else []);
        DownloadRecord(n, b);
      } else if r.GoOn? {
        LegalKept(n, data, 0, 0, BLOCK_SIZE);
      }
    } else {
      RecoverReady(m);
      if data == [] {
        DownloadRecord(n, Block(0, []));
      } else {
        TransmitComplete(n, data, 0, 0, BLOCK_SIZE);
      }
    }
  }

  // ----- which faults a run can stand

  /** The request at this place of the script is lost. */
  predicate LostAt(m: Machine, i: nat) {
    i < |m.script| && m.script[i] == Broken
  }

  /** The second status read, in dfuIDLE, arrives, or the request after it is lost as well. */
  predicate SecondReadSpared(m: Machine) {
    LostAt(m, 2) ==> LostAt(m, 3)
  }

  /** No request of the recovery reaches the device in a state that forbids it, nor does the
      block after it: a condition on the first four entries of the script. Unread, a status
      counts as dfuERROR, and the request that clears it must then be lost as well, unless
      the device is in dfuERROR. */
  predicate Spared(m: Machine) {
    match m.state
    case DfuIdle => LostAt(m, 0) ==> LostAt(m, 1)
    case Error => LostAt(m, 1) || SecondReadSpared(m)
    case DnloadIdle | UploadIdle => LostAt(m, 1) || (!LostAt(m, 0) && SecondReadSpared(m))
    case DnloadSync => LostAt(m, 1) || (!LostAt(m, 0) && !m.Answer().Working? && SecondReadSpared(m))
    case ManifestSync =>
      || LostAt(m, 1)
      || (!LostAt(m, 0) && (m.Answer() == Normal || (m.Answer().Failing? && SecondReadSpared(m))))
    case DnBusy | Manifest | ManifestWaitReset => LostAt(m, 0) && LostAt(m, 1)
    case AppIdle | AppDetach => LostAt(m, 1)
  }

  /** Where the recovery leaves the run legal: it gave up, or the device is idle, or the next
      request is lost. */
  predicate Safe(r: Recovered) {
    r.m.legal && (r.GoOn? ==> r.m.state == DfuIdle || r.m.Head() == Broken)
  }

  lemma ScriptAfter(m: Machine, n: Machine, r: Request, i: nat)
    requires n.script == m.Receive(r).script
    ensures LostAt(n, i) <==> LostAt(m, i + 1)
    ensures (n.Head() == Broken) <==> LostAt(m, 1)
    ensures (m.Head() == Broken) <==> LostAt(m, 0)
  {
  }

  /** From dfuIDLE. */
  lemma IdleSafe(m: Machine)
    requires m.state == DfuIdle && m.status == STATUS_OK
    ensures Safe(Recover(m)) <==> m.legal && (LostAt(m, 0) ==> LostAt(m, 1))
  {
    hide Machine.ReadStatus, Machine.ClearStatus, Recover;
    RecoverUnfold(m);
    RecoverFromIdle(m);
    QuietPolled(m);
    var (n, _, dst) := m.ReadStatus();
    var k := n.Elapse(dst.bwPollTimeout);
    ScriptAfter(m, n, GetStatus, 0);
    if dst.bState == Error {
      ClearRecord(k);
      ClearLost(k);
    }
  }

  lemma ClearLost(m: Machine)
    ensures m.Head() == Broken ==> m.ClearStatus().1 < 0 && m.ClearStatus().0.legal == m.legal
  {
  }

  lemma AbortLost(m: Machine)
    ensures m.Head() == Broken ==> m.AbortTransfer().1 < 0
  {
  }

  /** A status read as dfuERROR. */
  lemma ErrorReadSafe(m: Machine, k: Machine)
    requires k.script == m.Receive(GetStatus).script
    requires var (c, ret) := k.ClearStatus(); Recover(m) == if ret < 0 then GiveUp(c, ret) else Recover(c)
    ensures Safe(Recover(m)) <==> k.legal && (LostAt(m, 1) || (k.state == Error && SecondReadSpared(m)))
  {
    hide Machine.ClearStatus, Recover;
    ClearRecord(k);
    ClearLost(k);
    var (c, ret) := k.ClearStatus();
    ScriptAfter(m, k, GetStatus, 0);
    ScriptAfter(m, k, GetStatus, 1);
    ScriptAfter(m, k, GetStatus, 2);
    ScriptAfter(k, c, ClrStatus, 0);
    ScriptAfter(k, c, ClrStatus, 1);
    if ret >= 0 {
      IdleSafe(c);
    }
  }

  /** A transfer to be aborted. */
  lemma AbortSafe(m: Machine, k: Machine)
    requires k.script == m.Receive(GetStatus).script && k.status == STATUS_OK
    requires k.state == DnloadIdle || k.state == UploadIdle
    requires var (c, ret) := k.AbortTransfer(); Recover(m) == if ret < 0 then GiveUp(c, ret) else Recover(c)
    ensures Safe(Recover(m)) <==> k.legal && (LostAt(m, 1) || SecondReadSpared(m))
  {
    hide Machine.AbortTransfer, Recover;
    AbortRecord(k);
    AbortLost(k);
    var (c, ret) := k.AbortTransfer();
    ScriptAfter(m, k, GetStatus, 0);
    ScriptAfter(m, k, GetStatus, 1);
    ScriptAfter(m, k, GetStatus, 2);
    ScriptAfter(k, c, Abort, 0);
    ScriptAfter(k, c, Abort, 1);
    if ret >= 0 {
      IdleSafe(c);
    }
  }

  /** A first status read that is lost, or must not be answered. */
  lemma FirstReadUnread(m: Machine)
    requires LostAt(m, 0) || !m.AnswersStatus()
    ensures var (n, _, dst) := m.ReadStatus();
            var k := n.Elapse(dst.bwPollTimeout);
            && dst == NO_STATUS
            && k.script == m.Receive(GetStatus).script
            && k.legal == (m.legal && LostAt(m, 0))
            && (LostAt(m, 0) ==> (k.state == Error <==> m.state == Error))
  {
    hide Machine.ReadStatus, Machine.Elapse;
    UnreadRead(m);
    var n := m.ReadStatus().0;
    ErrorLasts(n, 0);
    ElapseRecord(n, 0);
  }

  lemma UnreadRead(m: Machine)
    requires LostAt(m, 0) || !m.AnswersStatus()
    ensures var (n, _, dst) := m.ReadStatus();
            && dst == NO_STATUS && n.script == m.Receive(GetStatus).script && n.legal == (m.legal && LostAt(m, 0))
            && (LostAt(m, 0) ==> n.state == m.state)
  {
    hide Machine.Poll;
  }

  lemma ErrorLasts(m: Machine, ms: nat)
    ensures m.Elapse(ms).state == Error <==> m.state == Error
  {
  }

  lemma ElapseRecord(m: Machine, ms: nat)
    ensures m.Elapse(ms).script == m.script && m.Elapse(ms).legal == m.legal && m.Elapse(ms).requests == m.requests
  {
  }

  /** One that is answered, under any faults. */
  lemma FirstReadAnswered(m: Machine)
    requires Conforming(m) && !LostAt(m, 0) && m.AnswersStatus()
    ensures m.Answer() != Broken
    ensures var (n, _, dst) := m.ReadStatus();
            var k := n.Elapse(dst.bwPollTimeout);
            && k.script == m.Receive(GetStatus).script && k.legal == m.legal && k.status == n.status
            && dst.bState == n.state && dst.bStatus == n.status && (n.state != Error ==> n.status == STATUS_OK)
            && (n.state != DnBusy && n.state != Manifest ==> k == n)
            && (n.state == DnBusy || n.state == Manifest ==> k.state != DfuIdle && k.state != DnloadIdle)
            && n.state == match m.state
                          case DnloadSync =>
                            if m.Answer().Working? then DnBusy else if m.Answer().Failing? then Error else DnloadIdle
                          case ManifestSync =>
                            if m.Answer().Failing? then Error
                            else if m.Answer().Working? || !m.tolerant then Manifest
                            else DfuIdle
                          case _ => m.state
  {
    hide Machine.ReadStatus, Machine.Elapse, Machine.Answer, FaultFree;
    ScriptAfter(m, m.Receive(GetStatus), GetStatus, 0);
    AnsweredRead(m);
    StatusReadRecord(m);
    var (n, _, dst) := m.ReadStatus();
    Slept(n, dst.bwPollTimeout);
    StatusReadStatus(m);
  }

  lemma AnsweredRead(m: Machine)
    requires Conforming(m) && m.Head() != Broken && m.AnswersStatus()
    ensures m.Answer() != Broken
    ensures var (n, _, dst) := m.ReadStatus();
            && dst.bState == n.state && dst.bStatus == n.status && (n.state != Error ==> n.status == STATUS_OK)
            && n.state == match m.state
                          case DnloadSync =>
                            if m.Answer().Working? then DnBusy else if m.Answer().Failing? then Error else DnloadIdle
                          case ManifestSync =>
                            if m.Answer().Failing? then Error
                            else if m.Answer().Working? || !m.tolerant then Manifest
                            else DfuIdle
                          case _ => m.state
  {
  }

  /** For every script: the recovery is safe exactly when it is spared. */
  lemma RecoverySpared(m: Machine)
    requires Conforming(m) && m.legal && m.tolerant
    ensures Safe(Recover(m)) <==> Spared(m)
  {
    hide Machine.ReadStatus, Machine.ClearStatus, Machine.AbortTransfer, Machine.Elapse, Machine.Answer, Recover;
    RecoverUnfold(m);
    if LostAt(m, 0) || !m.AnswersStatus() {
      FirstReadUnread(m);
    } else {
      FirstReadAnswered(m);
    }
    var (n, _, dst) := m.ReadStatus();
    var k := n.Elapse(dst.bwPollTimeout);
    ScriptAfter(m, k, GetStatus, 0);
    if dst.bState == Error {
      ErrorReadSafe(m, k);
    } else if dst.bState == DnloadIdle || dst.bState == UploadIdle {
      AbortSafe(m, k);
    }
  }

  /** A block sent after an unsafe recovery. */
  lemma UnsafeTransmit(m: Machine, data: seq<bv8>)
    requires Conforming(m) && data != [] && m.state != DfuIdle && m.state != DnloadIdle
    ensures Transmit(m, data, 0, 0, BLOCK_SIZE).m.legal <==> m.legal && m.Head() == Broken
  {
    hide Machine.Download, AwaitBlock, Settle;
    var b := Block(0, data[0..ChunkSize(data, 0, BLOCK_SIZE)]);
    DownloadForbidden(m, b);
  }

  lemma DownloadForbidden(m: Machine, b: Block)
    requires m.state != DfuIdle && m.state != DnloadIdle
    ensures m.Download(b).1 < 0
    ensures m.Download(b).0.legal <==> m.legal && m.Head() == Broken
  {
  }

  /** Whatever is lost, delayed or fails: on a device that comes back from manifestation a
      non-empty image makes a legal run exactly when the recovery is spared. */
  lemma LibraryLegalExactly(m: Machine, data: seq<bv8>)
    requires Conforming(m) && m.legal && m.tolerant && data != []
    ensures LibraryRun(m, data).0.legal <==> Spared(m)
  {
    hide Dnloads, FaultFree, StatusReads, Recover, Spared, AwaitBlock, Settle, Transmit;
    RecoverySpared(m);
    RecoverBounded(m);
    RecoverNotDnloadIdle(m);
    var r := Recover(m);
    if r.GoOn? {
      if r.m.state == DfuIdle {
        TransmitLegal(r.m, data, 0, 0, BLOCK_SIZE);
      } else {
        UnsafeTransmit(r.m, data);
      }
    }
  }

  lemma RecoverNotDnloadIdle(m: Machine)
    requires Conforming(m)
    ensures Recover(m).GoOn? ==> Recover(m).m.state != DnloadIdle
  {
    hide Machine.ReadStatus, Machine.ClearStatus, Machine.AbortTransfer, Machine.Elapse, Machine.Answer, Recover;
    RecoverUnfold(m);
    if LostAt(m, 0) || !m.AnswersStatus() {
      FirstReadUnread(m);
    } else {
      FirstReadAnswered(m);
    }
    var (n, _, dst) := m.ReadStatus();
    var k := n.Elapse(dst.bwPollTimeout);
    if dst.bState == Error {
      ClearRecord(k);
      if k.ClearStatus().1 >= 0 {
        RecoverFromIdle(k.ClearStatus().0);
      }
    } else if dst.bState == DnloadIdle || dst.bState == UploadIdle {
      AbortRecord(k);
      if k.AbortTransfer().1 >= 0 {
        RecoverFromIdle(k.AbortTransfer().0);
      }
    }
  }

  /** An idle device whose first status read is lost is asked to clear an error it does not
      have. */
  lemma LostReadStalls()
    ensures var m := Machine(DfuIdle, STATUS_OK, 0, true, false, false, false, [Broken], [], [], [], Nothing, [], true);
            Conforming(m) && !Spared(m) && !LibraryRun(m, [0x01]).0.legal
  {
    var m := Machine(DfuIdle, STATUS_OK, 0, true, false, false, false, [Broken], [], [], [], Nothing, [], true);
    assert LostAt(m, 0) && !LostAt(m, 1);
    LibraryLegalExactly(m, [0x01]);
  }

  /** A run that gives up returns an error. */
  lemma GivenUpIsNegative(m: Machine)
    ensures Recover(m).GiveUp? ==> Recover(m).ret < 0
    decreases m.state != DfuIdle
  {
    hide Recover, Machine.ReadStatus, Machine.ClearStatus, Machine.AbortTransfer, Machine.Elapse;
    RecoverUnfold(m);
    if m.state == DfuIdle {
      QuietPolled(m);
    }
    ReadLeads(m);
    var (n, _, dst) := m.ReadStatus();
    Slept(n, dst.bwPollTimeout);
    var k := n.Elapse(dst.bwPollTimeout);
    if dst.bState == Error {
      ClearRecord(k);
      var (c, ret) := k.ClearStatus();
      if ret >= 0 {
        GivenUpIsNegative(c);
      }
    } else if dst.bState == DnloadIdle || dst.bState == UploadIdle {
      AbortRecord(k);
      var (c, ret) := k.AbortTransfer();
      if ret >= 0 {
        GivenUpIsNegative(c);
      }
    }
  }

  lemma ReadLeads(m: Machine)
    ensures var (n, _, dst) := m.ReadStatus(); dst.bState != Error ==> n.state == dst.bState
    ensures m.state == DfuIdle ==> m.ReadStatus().0.state == DfuIdle
  {
    hide Machine.Poll;
    if m.state == DfuIdle {
      QuietPolled(m);
    }
  }

  /** A device still busy with the last block of an earlier download: the loop goes
      on, and the first block is sent in a state that forbids it. */
  lemma BusyDeviceStallsCounterexample()
    ensures var m := Machine(DnloadSync, STATUS_OK, 0, true, false, false, false, [Working(50)], [Block(7, [0x5a])], [],
                             [], Nothing, [], true);
            && Conforming(m) && FaultFree(m.script) && !Ready(m)
            && !LibraryRun(m, [0x01]).0.legal
            && LibraryRun(m, [0x01]).1 == Return(0)
  {
    var m := Machine(DnloadSync, STATUS_OK, 0, true, false, false, false, [Working(50)], [Block(7, [0x5a])], [], [],
                     Nothing, [], true);
    LibraryLegal(m, [0x01]);
  }
}
