/** A DFU device as its host sees it: the state machine of USB DFU 1.1,
    section 6.1 and Appendix A. What the outside world decides (how long an
    operation keeps the device busy, whether it fails, whether the bus loses a
    transfer) is read from a finite script, one entry a request; once the script
    is used up the device just works. A slow device is busy at the first poll after
    every block, a lingering one at the first poll after a transfer, even where the
    script would let them finish. Every finite run of a device is such a script, and
    its length is what makes the host's polling loops terminate. */
module DfuMachine {

  datatype State =
    | AppIdle
    | AppDetach
    | DfuIdle
    | DnloadSync
    | DnBusy
    | DnloadIdle
    | ManifestSync
    | Manifest
    | ManifestWaitReset
    | UploadIdle
    | Error

  const STATUS_OK: nat := 0x00
  const STATUS_ERR_UNKNOWN: nat := 0x0e
  const STATUS_ERR_STALLEDPKT: nat := 0x0f

  type ErrorCode = c: nat | STATUS_OK < c < STATUS_ERR_STALLEDPKT witness STATUS_ERR_UNKNOWN

  /** The block number and the bytes of a DFU_DNLOAD request. */
  datatype Block = Block(number: nat, data: seq<bv8>)

  datatype Request =
    | Dnload(block: Block)
    | Upload(number: nat, length: nat)
    | GetStatus
    | ClrStatus
    | Abort

  datatype Reply =
    | Normal                  // the request is carried out, a pending operation is finished
    | Working(timeout: nat)   // the pending operation needs that many more milliseconds
    | Failing(code: ErrorCode) // the pending operation has failed
    | Broken                  // the transfer itself fails; the device does not see it

  /** No transfer is lost and no operation fails. */
  predicate FaultFree(script: seq<Reply>) {
    forall i :: 0 <= i < |script| ==> script[i].Normal? || script[i].Working?
  }

  /** What DFU_GETSTATUS tells the host. */
  datatype StatusReply = StatusReply(bStatus: nat, bwPollTimeout: nat, bState: State)

  /** What the host assumes when it could not read a status. */
  const NO_STATUS := StatusReply(STATUS_ERR_UNKNOWN, 0, Error)

  datatype Manifested = Nothing | Installed(blocks: seq<Block>)

  datatype Machine = Machine(
    state: State,
    status: nat,
    poll: nat,                // milliseconds still needed in DnBusy and Manifest
    tolerant: bool,           // bitManifestationTolerant
    slow: bool,               // busy at the first poll after a block
    lingers: bool,            // busy at the first poll after the end of a transfer
    asked: bool,              // the pending operation has been found busy
    script: seq<Reply>,
    pending: seq<Block>,      // received, not yet carried out: at most one
    transfer: seq<Block>,     // carried out since the last DNLOAD in dfuIDLE
    blocks: seq<Block>,       // carried out since power-up
    installed: Manifested,    // what the last manifestation was about
    requests: seq<Request>,   // everything that reached the device or the bus
    legal: bool)              // no request so far came in a state that forbids it

  {
    function Head(): Reply {
      if script == [] then Normal else script[0]
    }

    /** What decides about a poll. */
    function Answer(): Reply {
      if Head() == Normal && !asked
        && ((state == DnloadSync && slow) || (state == ManifestSync && lingers)) then Working(0)
      else Head()
    }

    /** The request is on the record and has used up one script entry. */
    function Receive(r: Request): Machine {
      this.(script := if script == [] then [] else script[1..], requests := requests + [r])
    }

    /** A request the state does not allow: the device stalls the pipe. */
    function Stall(): Machine {
      if state in {AppIdle, AppDetach, ManifestWaitReset}
      then this.(legal := false)
      else this.(state := Error, status := STATUS_ERR_STALLEDPKT, pending := [], legal := false)
    }

    function Accept(b: Block): Machine {
      this.(state := DnloadSync, pending := [b], asked := false, transfer := if state == DfuIdle then [] else transfer)
    }

    /** DFU_DNLOAD. Returns the bytes transferred, negative on failure. */
    function Download(b: Block): (Machine, int) {
      var m := Receive(Dnload(b));
      if Head() == Broken then (m, -1)
      else if b.data != [] && state in {DfuIdle, DnloadIdle} then (m.Accept(b), |b.data|)
      else if b.data == [] && state == DnloadIdle then
        (m.(state := ManifestSync, asked := false, installed := Installed(transfer)), 0)
      else (m.Stall(), -1)
    }

    /** The state DFU_GETSTATUS leads to; it is also the state it reports. */
    function Poll(reply: Reply): Machine {
      match state
      case DnloadSync =>
        (match reply
         case Working(t) => this.(state := DnBusy, poll := t, asked := true)
         case Failing(code) => this.(state := Error, status := code, pending := [])
         case _ => this.(state := DnloadIdle, poll := 0, pending := [],
                         transfer := transfer + pending, blocks := blocks + pending))
      case ManifestSync =>
        (match reply
         case Working(t) => this.(state := Manifest, poll := t, asked := true)
         case Failing(code) => this.(state := Error, status := code)
         case _ => if tolerant then this.(state := DfuIdle, poll := 0) else this.(state := Manifest, poll := 0))
      case _ => this
    }

    predicate AnswersStatus() {
      state !in {DnBusy, Manifest, ManifestWaitReset}
    }

    /** DFU_GETSTATUS, with the defaults of an unread status. */
    function ReadStatus(): (Machine, int, StatusReply) {
      var m := Receive(GetStatus);
      if Head() == Broken then (m, -1, NO_STATUS)
      else if !AnswersStatus() then (m.Stall(), -1, NO_STATUS)
      else
        var n := m.Poll(Answer());
        (n, 6, StatusReply(n.status, if n.state in {DnBusy, Manifest} then n.poll else 0, n.state))
    }

    /** DFU_CLRSTATUS. */
    function ClearStatus(): (Machine, int) {
      var m := Receive(ClrStatus);
      if Head() == Broken then (m, -1)
      else if state == Error then (m.(state := DfuIdle, status := STATUS_OK), 0)
      else (m.Stall(), -1)
    }

    /** DFU_ABORT. */
    function AbortTransfer(): (Machine, int) {
      var m := Receive(Abort);
      if Head() == Broken then (m, -1)
      else if state in {DfuIdle, DnloadIdle, UploadIdle, DnloadSync, ManifestSync}
      then (m.(state := DfuIdle, pending := []), 0)
      else (m.Stall(), -1)
    }

    /** DFU_UPLOAD of at most `length` bytes, when the device has `available`. */
    function UploadBlock(number: nat, length: nat, available: nat): (Machine, int) {
      var m := Receive(Upload(number, length));
      if Head() == Broken then (m, -1)
      else if state in {DfuIdle, UploadIdle}
      then (m.(state := if available < length then DfuIdle else UploadIdle), if available < length then available
              else length)
      else (m.Stall(), -1)
    }

    /** `ms` milliseconds pass. */
    function Elapse(ms: nat): Machine {
      if state == DnBusy && poll <= ms then this.(state := DnloadSync, poll := 0)
      else if state == Manifest && poll <= ms then
        this.(state := if tolerant then ManifestSync else ManifestWaitReset, poll := 0)
      else this
    }
  }

  /** A device without faults that is busy at the first poll after every block, and
      otherwise as long as it likes: the one the DfuSe client expects. */
  predicate Obliging(m: Machine) {
    FaultFree(m.script) && m.slow && (m.state == Error || m.status == STATUS_OK)
  }

  /** No illegal request, and the same kind of device. */
  predicate Kept(m: Machine, n: Machine) {
    n.legal == m.legal && n.tolerant == m.tolerant && n.lingers == m.lingers
  }

  lemma KeptSame(m: Machine)
    ensures Kept(m, m)
  {
  }

  lemma KeptJoin(m: Machine, n: Machine, k: Machine)
    requires Kept(m, n) && Kept(n, k)
    ensures Kept(m, k)
  {
  }

  lemma ScriptMoves(m: Machine, r: Request)
    ensures FaultFree(m.script) ==> FaultFree(m.Receive(r).script) && (m.Head() == Normal || m.Head().Working?)
  {
  }

  /** What no status read changes. */
  predicate Steady(m: Machine, n: Machine) {
    && n.tolerant == m.tolerant && n.slow == m.slow && n.lingers == m.lingers && n.installed == m.installed
    && n.script == (if m.script == [] then [] else m.script[1..])
    && n.requests == m.requests + [GetStatus]
  }

  lemma PollKeeps(m: Machine, reply: Reply)
    requires reply != Broken
    ensures var n := m.Poll(reply);
            && n.script == m.script && n.requests == m.requests && n.tolerant == m.tolerant && n.slow == m.slow
            && n.lingers == m.lingers && n.installed == m.installed && n.legal == m.legal
            && (m.state != DnloadSync ==> n.blocks == m.blocks)
            && (m.state !in {DnloadSync, ManifestSync} ==> n == m)
  {
    if m.state == DnloadSync {
      hide Machine.Poll;
      BlockPoll(m, reply);
    } else if m.state == ManifestSync {
      hide Machine.Poll;
      ManifestPoll(m, reply);
    }
  }

  lemma BlockPoll(m: Machine, reply: Reply)
    requires m.state == DnloadSync && reply != Broken
    ensures var n := m.Poll(reply);
            match reply
            case Working(t) => n == m.(state := DnBusy, poll := t, asked := true)
            case Failing(code) => n == m.(state := Error, status := code, pending := [])
            case _ =>
              n == m.(state := DnloadIdle, poll := 0, pending := [], transfer := m.transfer + m.pending,
                      blocks := m.blocks + m.pending)
  {
  }

  lemma ManifestPoll(m: Machine, reply: Reply)
    requires m.state == ManifestSync && reply != Broken
    ensures var n := m.Poll(reply);
            match reply
            case Working(t) => n == m.(state := Manifest, poll := t, asked := true)
            case Failing(code) => n == m.(state := Error, status := code)
            case _ => n == m.(state := if m.tolerant then DfuIdle else Manifest, poll := 0)
  {
  }

  /** One GETSTATUS, in any state. */
  lemma StatusReadRecord(m: Machine)
    ensures var n := m.ReadStatus().0;
            && Steady(m, n)
            && (m.state != DnloadSync ==> n.blocks == m.blocks)
            && n.legal == (m.legal && (m.Head() == Broken || m.AnswersStatus()))
  {
    hide Machine.Poll;
    if m.Head() != Broken {
      PollKeeps(m.Receive(GetStatus), m.Answer());
    }
  }

  /** One GETSTATUS in a state it does not change. */
  lemma QuietPolled(m: Machine)
    requires m.AnswersStatus() && m.state != DnloadSync && m.state != ManifestSync
    ensures var (n, ret, dst) := m.ReadStatus();
            && n == m.Receive(GetStatus)
            && (ret < 0 <==> m.Head() == Broken)
            && dst == if ret < 0 then NO_STATUS else StatusReply(m.status, 0, m.state)
  {
    hide Machine.Poll;
    if m.Head() != Broken {
      PollKeeps(m.Receive(GetStatus), m.Answer());
    }
  }

  /** One GETSTATUS that the device must not answer. */
  lemma MutePolled(m: Machine)
    requires !m.AnswersStatus()
    ensures var (n, ret, dst) := m.ReadStatus();
            && ret < 0 && dst == NO_STATUS
            && (m.Head() != Broken ==> !n.legal)
  {
    hide Machine.Poll;
  }

  /** A block sent at rest. */
  lemma BlockSent(m: Machine, b: Block)
    requires m.state in {DfuIdle, DnloadIdle} && b.data != []
    ensures var (n, ret) := m.Download(b);
            && Kept(m, n) && n.blocks == m.blocks
            && (ret >= 0 ==> ret == |b.data| && n.state == DnloadSync && n.pending == [b] && !n.asked)
            && (Obliging(m) ==> ret >= 0 && Obliging(n))
  {
    hide FaultFree;
    ScriptMoves(m, Dnload(b));
  }

  /** The zero-length request after a transfer. */
  lemma CompletionSent(m: Machine, b: Block)
    requires m.state == DnloadIdle && b.data == []
    ensures var (n, ret) := m.Download(b);
            && Kept(m, n) && n.blocks == m.blocks
            && (ret >= 0 ==> ret == 0 && n.state == ManifestSync && !n.asked)
            && (Obliging(m) ==> ret >= 0 && Obliging(n))
  {
    hide FaultFree;
    ScriptMoves(m, Dnload(b));
  }

  lemma BlockUploaded(m: Machine, number: nat, length: nat, available: nat)
    requires m.state in {DfuIdle, UploadIdle}
    ensures var (n, ret) := m.UploadBlock(number, length, available);
            && Kept(m, n)
            && (ret >= 0 ==>
                  n.state in {DfuIdle, UploadIdle} && ret == if available < length then available else length)
            && (Obliging(m) ==> ret >= 0 && Obliging(n))
  {
    hide FaultFree;
    ScriptMoves(m, Upload(number, length));
  }

  /** An abort and the status read after it. */
  lemma Aborted(m: Machine)
    requires m.state in {DfuIdle, DnloadIdle, UploadIdle}
    ensures var (a, ret) := m.AbortTransfer();
            && Kept(m, a) && a.blocks == m.blocks
            && (ret >= 0 ==> a.state == DfuIdle)
            && (Obliging(m) ==> ret >= 0 && Obliging(a))
  {
    hide FaultFree;
    ScriptMoves(m, Abort);
  }

  lemma IdlePolled(m: Machine)
    requires m.state == DfuIdle
    ensures var (n, ret, dst) := m.ReadStatus();
            && Kept(m, n) && Steady(m, n) && n.blocks == m.blocks && n.pending == m.pending && n.state == DfuIdle
            && n.status == m.status
            && (ret >= 0 <==> m.Head() != Broken)
            && (ret >= 0 ==> dst == StatusReply(m.status, 0, DfuIdle))
            && (Obliging(m) ==> ret >= 0 && Obliging(n))
  {
    hide Machine.ReadStatus, FaultFree;
    ScriptMoves(m, GetStatus);
    QuietPolled(m);
  }

  /** One poll for a pending block. */
  lemma BlockPolled(m: Machine)
    requires m.state == DnloadSync
    ensures var (n, ret, dst) := m.ReadStatus();
            && Steady(m, n) && n.legal == m.legal
            && (ret < 0 <==> m.Head() == Broken)
            && (ret < 0 ==> n.state == DnloadSync && n.blocks == m.blocks && n.pending == m.pending)
            && (ret >= 0 ==> dst.bState == n.state && dst.bStatus == n.status && n.state in {DnBusy, DnloadIdle, Error})
            && (n.state == DnBusy <==> m.Answer().Working?)
            && (n.state == DnBusy ==>
                  && n.blocks == m.blocks && n.pending == m.pending && n.transfer == m.transfer && n.status == m.status
                  && n.poll == dst.bwPollTimeout && n.asked
                  && (|n.script| < |m.script| || (m.script == [] && !m.asked)))
            && (n.state == DnloadIdle ==>
                  && n.blocks == m.blocks + m.pending && n.transfer == m.transfer + m.pending && n.pending == []
                  && n.status == m.status)
            && (n.state == Error <==> m.Head().Failing?)
            && (n.state == Error ==> n.blocks == m.blocks && n.status != STATUS_OK)
            && (Obliging(m) ==> Obliging(n) && ret >= 0 && n.state != Error && (!m.asked ==> n.state == DnBusy))
  {
    hide FaultFree, Machine.Poll;
    ScriptMoves(m, GetStatus);
    if m.Head() != Broken {
      BlockPoll(m.Receive(GetStatus), m.Answer());
    }
  }

  /** One poll for a manifestation. */
  lemma ManifestPolled(m: Machine)
    requires m.state == ManifestSync
    ensures var (n, ret, dst) := m.ReadStatus();
            && Steady(m, n) && n.legal == m.legal && n.blocks == m.blocks && n.pending == m.pending
            && (ret < 0 <==> m.Head() == Broken)
            && (ret < 0 ==> n.state == ManifestSync)
            && (ret >= 0 ==> dst.bState == n.state && n.state in {Manifest, Error, DfuIdle})
            && (n.state == DfuIdle <==> m.tolerant && m.Answer() == Normal)
            && (n.state == Manifest ==>
                  && n.poll == dst.bwPollTimeout && n.status == m.status
                  && (m.Answer().Working? ==> n.asked) && (!m.Answer().Working? ==> n.asked == m.asked && !m.tolerant)
                  && (|n.script| < |m.script| || (m.script == [] && (m.Answer().Working? ==> !m.asked))))
            && (n.state == Error <==> m.Head().Failing?)
            && (n.state == DfuIdle ==> n.status == m.status && dst.bwPollTimeout == 0)
            && (Obliging(m) ==> Obliging(n) && ret >= 0 && n.state != Error)
  {
    hide FaultFree, Machine.Poll;
    ScriptMoves(m, GetStatus);
    if m.Head() != Broken {
      ManifestPoll(m.Receive(GetStatus), m.Answer());
    }
  }

  /** A loop that polls after the end of a transfer until the device manifests or fails
      comes to an end: the device stays in manifestation, or is not done with it at the
      first poll, or the bus fails later on. */
  predicate LoopEnds(m: Machine) {
    !m.tolerant || m.Answer() != Normal || Broken in m.script
  }

  /** The host sleeps as long as the device asked for, or longer. */
  lemma Slept(n: Machine, ms: nat)
    ensures var k := n.Elapse(ms);
            && k == n.(state := k.state, poll := k.poll)
            && (k.state == n.state || k.state in {DnloadSync, ManifestSync, ManifestWaitReset})
            && (n.state == DnBusy && n.poll <= ms ==> k.state == DnloadSync)
            && (n.state == Manifest && n.poll <= ms ==>
                  k.state == if n.tolerant then ManifestSync else ManifestWaitReset)
            && (n.state != DnBusy && n.state != Manifest ==> k == n)
  {
  }
}
