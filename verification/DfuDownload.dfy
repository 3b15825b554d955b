/** The plain DFU download protocol of USB DFU 1.1, section 6.1: recovery into
    dfuIDLE, the chunk loop with its polling, and the manifest loop. */
module Downloads {
  import opened Arithmetic
  import opened DfuMachine
  import opened Outcomes

  const WRAP: nat := 0x1_0000

  // ----- one specification of the loops

  /** Polling after a block: the device it leaves, and the status that ended it. */
  function AwaitBlock(m: Machine): (Machine, Outcome<StatusReply>)
    requires m.state == DnloadSync
    decreases |m.script|, !m.asked
  {
    var (n, ret, dst) := m.ReadStatus();
    if ret < 0 then (n, Exit(EX_IOERR))
    else if dst.bState == DnloadIdle || dst.bState == Error then (n, Return(dst))
    else AwaitBlock(n.Elapse(dst.bwPollTimeout))
  }

  /** Polling after the completion packet. */
  function Settle(m: Machine): Machine
    requires m.state == ManifestSync || m.state == ManifestWaitReset
    decreases |m.script|, !m.asked, m.state == ManifestSync
  {
    var (n, ret, dst) := m.ReadStatus();
    if ret < 0 then n
    else
      var k := n.Elapse(dst.bwPollTimeout);
      if dst.bState == ManifestSync || dst.bState == Manifest then Settle(k.Elapse(1000)) else k
  }

  function ChunkSize(data: seq<bv8>, sent: nat, size: nat): (n: nat)
    requires sent <= |data|
    ensures n <= size && sent + n <= |data|
    ensures sent < |data| && size > 0 ==> n > 0
  {
    if |data| - sent < size then |data| - sent else size
  }

  /** The device afterwards, the result, and the counts reported on the way. */
  datatype Sent = Sent(m: Machine, r: Outcome<nat>, reported: seq<nat>)

  /** Sending the rest of the data in blocks, then the completion packet. */
  function Transmit(m: Machine, data: seq<bv8>, sent: nat, number: nat, size: nat): Sent
    requires sent <= |data| && 0 < size < WRAP
    decreases |data| - sent
  {
    if sent < |data| then
      var next := sent + ChunkSize(data, sent, size);
      var (n, ret) := m.Download(Block(number, data[sent..next]));
      if ret < 0 then Sent(n, Return(sent), [])
      else
        var (k, r) := AwaitBlock(n);
        if r.Exit? then Sent(k, Exit(r.code), [])
        else if r.value.bStatus != STATUS_OK then Sent(k, Return(next), [])
        else
          var rest := Transmit(k, data, next, (number + 1) % WRAP, size);
          rest.(reported := [next] + rest.reported)
    else
      var (n, ret) := m.Download(Block(number, []));
      if ret < 0 then Sent(n, Exit(EX_IOERR), []) else Sent(Settle(n), Return(sent), [sent])
  }

  // ----- what was on the wire

  /** The DNLOAD requests among the requests. */
  function Dnloads(requests: seq<Request>): seq<Block>
    decreases |requests|
  {
    if requests == [] then []
    else
      var last := requests[|requests| - 1];
      var before := Dnloads(requests[..|requests| - 1]);
      if last.Dnload? then before + [last.block] else before
  }

  lemma DnloadsSnoc(requests: seq<Request>, r: Request)
    ensures Dnloads(requests + [r]) == if r.Dnload? then Dnloads(requests) + [r.block] else Dnloads(requests)
  {
    assert (requests + [r])[..|requests|] == requests;
  }

  /** The blocks the data is cut into. */
  function Chunks(data: seq<bv8>, sent: nat, number: nat, size: nat): seq<Block>
    requires sent <= |data| && 0 < size
    decreases |data| - sent
  {
    if sent == |data| then []
    else
      var next := sent + ChunkSize(data, sent, size);
      [Block(number, data[sent..next])] + Chunks(data, next, (number + 1) % WRAP, size)
  }

  function Joined(blocks: seq<Block>): seq<bv8>
    decreases |blocks|
  {
    if blocks == [] then [] else blocks[0].data + Joined(blocks[1..])
  }

  /** The counts a complete run reports: after every block, and once more at the end. */
  function Boundaries(data: seq<bv8>, sent: nat, size: nat): seq<nat>
    requires sent <= |data| && 0 < size
    decreases |data| - sent
  {
    if sent == |data| then [sent]
    else
      var next := sent + ChunkSize(data, sent, size);
      [next] + Boundaries(data, next, size)
  }

  /** The blocks are numbered from the given number, modulo 65536. */
  lemma {:induction false} ChunkNumbers(data: seq<bv8>, sent: nat, number: nat, size: nat, i: nat)
    requires sent <= |data| && 0 < size && number < WRAP && i < |Chunks(data, sent, number, size)|
    ensures Chunks(data, sent, number, size)[i].number == (number + i) % 65536
    decreases i
  {
    if i > 0 {
      var next := sent + ChunkSize(data, sent, size);
      ChunkNumbers(data, next, (number + 1) % WRAP, size, i - 1);
      NumberMoves(number, i);
    }
  }

  lemma NumberMoves(number: nat, i: nat)
    requires i > 0
    ensures ((number + 1) % WRAP + (i - 1)) % WRAP == (number + i) % WRAP
  {
  }

  /** Every block but the last is full, and none is empty. */
  lemma {:induction false} ChunkSizes(data: seq<bv8>, sent: nat, number: nat, size: nat, i: nat)
    requires sent <= |data| && 0 < size && i < |Chunks(data, sent, number, size)|
    ensures var c := Chunks(data, sent, number, size);
            0 < |c[i].data| <= size && (i < |c| - 1 ==> |c[i].data| == size)
    decreases i
  {
    if i > 0 {
      var next := sent + ChunkSize(data, sent, size);
      ChunkSizes(data, next, (number + 1) % WRAP, size, i - 1);
    }
  }

  /** Joined in order, the blocks are the data. */
  lemma {:induction false} ChunksJoin(data: seq<bv8>, sent: nat, number: nat, size: nat)
    requires sent <= |data| && 0 < size
    ensures Joined(Chunks(data, sent, number, size)) == data[sent..]
    decreases |data| - sent
  {
    if sent < |data| {
      var next := sent + ChunkSize(data, sent, size);
      ChunksJoin(data, next, (number + 1) % WRAP, size);
      assert data[sent..] == data[sent..next] + data[next..];
      assert Chunks(data, sent, number, size)[1..] == Chunks(data, next, (number + 1) % WRAP, size);
    }
  }

  lemma QuotientStep(x: nat, size: nat)
    requires size > 0
    ensures (x + size) / size == x / size + 1
  {
    var q, r := x / size, x % size;
    assert x == size * q + r;
    assert x + size == size * (q + 1) + r by {
      Distribute(size, q, -1);
    }
    RemainderUnique(x + size, size, q + 1, r);
  }

  lemma SmallQuotient(x: nat, size: nat)
    requires x < size
    ensures x / size == 0
  {
    RemainderUnique(x, size, 0, x);
  }

  /** As many blocks as needed for so many bytes. */
  function BlockCount(n: nat, size: nat): nat
    requires size > 0
  {
    (n + size - 1) / size
  }

  lemma BlockCountStep(n: nat, size: nat)
    requires size > 0
    ensures BlockCount(n, size) == if n == 0 then 0 else if n <= size then 1 else BlockCount(n - size, size) + 1
  {
    if n == 0 {
      SmallQuotient(size - 1, size);
    } else {
      QuotientStep(n - 1, size);
      if n <= size {
        SmallQuotient(n - 1, size);
      }
    }
  }

  /** There are as many blocks as needed, and no more. */
  lemma {:induction false} ChunksCount(data: seq<bv8>, sent: nat, number: nat, size: nat)
    requires sent <= |data| && 0 < size
    ensures |Chunks(data, sent, number, size)| == BlockCount(|data| - sent, size)
    decreases |data| - sent
  {
    hide BlockCount;
    BlockCountStep(|data| - sent, size);
    if sent < |data| {
      var next := sent + ChunkSize(data, sent, size);
      ChunksCount(data, next, (number + 1) % WRAP, size);
      BlockCountStep(0, size);
    }
  }

  function Min(a: nat, b: nat): nat {
    if a < b then a else b
  }

  /** The counts are the multiples of the block size, up to the length; one for every
      block, and the last one twice. */
  lemma {:induction false} BoundaryAt(data: seq<bv8>, sent: nat, size: nat, i: nat)
    requires sent <= |data| && 0 < size && i < |Boundaries(data, sent, size)|
    ensures Boundaries(data, sent, size)[i] == Min(sent + (i + 1) * size, |data|)
    decreases i
  {
    var next := sent + ChunkSize(data, sent, size);
    if sent < |data| {
      if i > 0 {
        BoundaryAt(data, next, size, i - 1);
        assert (i + 1) * size == size + i * size;
        if next == |data| {
          assert i * size >= 0;
        }
      }
    } else {
      assert (i + 1) * size >= 0;
    }
  }

  lemma {:induction false} BoundaryCount(data: seq<bv8>, sent: nat, number: nat, size: nat)
    requires sent <= |data| && 0 < size
    ensures |Boundaries(data, sent, size)| == |Chunks(data, sent, number, size)| + 1
    decreases |data| - sent
  {
    if sent < |data| {
      BoundaryCount(data, sent + ChunkSize(data, sent, size), (number + 1) % WRAP, size);
    }
  }

  // ----- one poll loop

  /** The status is OK outside dfuERROR. */
  predicate Conforming(m: Machine) {
    m.state != Error ==> m.status == STATUS_OK
  }

  /** A poll changes neither of these. */
  predicate SameWire(m: Machine, n: Machine) {
    && n.tolerant == m.tolerant
    && Dnloads(n.requests) == Dnloads(m.requests)
    && (FaultFree(m.script) ==> FaultFree(n.script))
  }

  lemma {:induction false} AwaitBlockEnds(m: Machine)
    requires m.state == DnloadSync && m.status == STATUS_OK
    ensures var (n, r) := AwaitBlock(m);
            && SameWire(m, n) && n.legal == m.legal && n.installed == m.installed
            && (FaultFree(m.script) ==> r.Return? && r.value.bStatus == STATUS_OK)
            && (if r.Return? && r.value.bStatus == STATUS_OK
                then n.state == DnloadIdle && n.status == STATUS_OK && n.pending == []
                     && n.blocks == m.blocks + m.pending && n.transfer == m.transfer + m.pending
                else n.blocks == m.blocks && (r.Return? ==> n.state == Error) && (r.Exit? ==> n.state == DnloadSync))
    decreases |m.script|, !m.asked
  {
    hide Machine.ReadStatus, Machine.Elapse, Dnloads, FaultFree;
    BlockPolled(m);
    ScriptMoves(m, GetStatus);
    var (n, ret, dst) := m.ReadStatus();
    DnloadsSnoc(m.requests, GetStatus);
    Slept(n, dst.bwPollTimeout);
    if ret >= 0 && dst.bState != DnloadIdle && dst.bState != Error {
      AwaitBlockEnds(n.Elapse(dst.bwPollTimeout));
    }
  }

  lemma StatusReadKeeps(m: Machine)
    ensures SameWire(m, m.ReadStatus().0)
    ensures FaultFree(m.script) ==> m.Head() == Normal || m.Head().Working?
  {
    hide FaultFree, Dnloads, Machine.ReadStatus;
    StatusReadRecord(m);
    ScriptMoves(m, GetStatus);
    DnloadsSnoc(m.requests, GetStatus);
  }

  lemma {:induction false} SettleEnds(m: Machine)
    requires m.state == ManifestSync || m.state == ManifestWaitReset
    requires m.status == STATUS_OK
    ensures var n := Settle(m);
            && SameWire(m, n) && n.blocks == m.blocks && n.installed == m.installed
            && (m.tolerant && m.state == ManifestSync ==> n.legal == m.legal)
            && (FaultFree(m.script) && !(m.tolerant && m.state == ManifestSync) ==> !n.legal)
            && (FaultFree(m.script) && m.tolerant && m.state == ManifestSync ==>
                  n.state == DfuIdle && n.status == STATUS_OK)
    decreases |m.script|, !m.asked, m.state == ManifestSync
  {
    hide FaultFree, Dnloads, Machine.ReadStatus, Machine.Elapse;
    StatusReadKeeps(m);
    StatusReadRecord(m);
    if m.state == ManifestSync {
      ManifestPolled(m);
    } else {
      MutePolled(m);
    }
    var (n, ret, dst) := m.ReadStatus();
    var k := n.Elapse(dst.bwPollTimeout);
    Slept(n, dst.bwPollTimeout);
    Slept(k, 1000);
    if ret >= 0 && (dst.bState == ManifestSync || dst.bState == Manifest) {
      SettleEnds(k.Elapse(1000));
    }
  }

  // ----- the whole transmission, on any conforming device

  /** The states from which a block is accepted. */
  predicate Takes(m: Machine, b: Block) {
    m.state == DnloadIdle || (m.state == DfuIdle && b.data != [])
  }

  lemma DownloadPlain(m: Machine, b: Block)
    ensures var (n, ret) := m.Download(b);
            && n.requests == m.requests + [Dnload(b)] && n.script == m.Receive(Dnload(b)).script
            && n.tolerant == m.tolerant && n.blocks == m.blocks
            && (ret >= 0 <==> m.Head() != Broken && Takes(m, b))
            && (if ret < 0 then n.installed == m.installed
                else n.status == m.status && n.legal == m.legal
                     && (if b.data != []
                         then n.state == DnloadSync && n.pending == [b] && n.installed == m.installed
                              && n.transfer == if m.state == DfuIdle then [] else m.transfer
                         else n.state == ManifestSync && n.installed == Installed(m.transfer)))
            && n.legal == (m.legal && (m.Head() == Broken || Takes(m, b)))
  {
    hide Machine.Stall;
    Stalled(m.Receive(Dnload(b)));
  }

  lemma Stalled(m: Machine)
    ensures var n := m.Stall();
            && n.requests == m.requests && n.script == m.script && n.tolerant == m.tolerant && n.blocks == m.blocks
            && n.installed == m.installed && !n.legal
  {
  }

  lemma DownloadRecord(m: Machine, b: Block)
    ensures var (n, ret) := m.Download(b);
            && Dnloads(n.requests) == Dnloads(m.requests) + [b]
            && n.tolerant == m.tolerant && n.blocks == m.blocks
            && (FaultFree(m.script) ==> FaultFree(n.script))
            && (ret < 0 ==> n.installed == m.installed)
            && (ret >= 0 && b.data != [] ==>
                  n.state == DnloadSync && n.pending == [b] && n.status == m.status && n.installed == m.installed
                  && n.transfer == if m.state == DfuIdle then [] else m.transfer)
            && (ret >= 0 && b.data == [] ==>
                  n.state == ManifestSync && n.installed == Installed(m.transfer) && n.status == m.status)
            && (ret >= 0 ==> m.state == DfuIdle || m.state == DnloadIdle)
            && (FaultFree(m.script) && (m.state == DnloadIdle || (m.state == DfuIdle && b.data != [])) ==> ret >= 0)
            && (m.state == DnloadIdle || (m.state == DfuIdle && b.data != []) ==> n.legal == m.legal)
            && (FaultFree(m.script) && !(m.state == DnloadIdle || (m.state == DfuIdle && b.data != [])) ==>
                  !n.legal && ret < 0)
  {
    hide FaultFree, Dnloads, Machine.Download;
    DownloadPlain(m, b);
    ScriptMoves(m, Dnload(b));
    DnloadsSnoc(m.requests, Dnload(b));
  }

  /** Of the transmission, on any conforming device and under any faults: the blocks carried
      out are the leading blocks of the data, each once and in order; the DNLOAD
      requests sent are leading requests of the complete run; the counts reported
      are leading counts of it; and the count returned is never more than the
      length of the data. It is the number of bytes carried out, and one block more
      exactly when the run ended with a failed poll for that block. */
  ghost predicate Honest(m: Machine, t: Sent, data: seq<bv8>, sent: nat, number: nat, size: nat)
    requires sent <= |data| && 0 < size
  {
    var c := Chunks(data, sent, number, size);
    && CarriedOut(m, t.m, c)
    && Dnloads(t.m.requests) <= Dnloads(m.requests) + c + [Block((number + |c|) % WRAP, [])]
    && t.reported <= Boundaries(data, sent, size)
    && Counted(t, sent + |Joined(c[..|t.m.blocks| - |m.blocks|])|, Refused(m, t.m), data, size)
    && Consumed(m, t.m)
  }

  ghost predicate CarriedOut(m: Machine, n: Machine, c: seq<Block>) {
    |m.blocks| <= |n.blocks| <= |m.blocks| + |c| && n.blocks == m.blocks + c[..|n.blocks| - |m.blocks|]
  }

  /** The result of a transmission of which so many bytes were carried out. */
  ghost predicate Counted(t: Sent, done: nat, refused: bool, data: seq<bv8>, size: nat) {
    match t.r
    case Exit(code) => code == EX_IOERR
    case Return(n) =>
      if refused then done < |data| && n == done + ChunkSize(data, done, size) else n == done <= |data|
  }

  /** What is left of a script after so many requests. */
  function Dropped(script: seq<Reply>, k: nat): seq<Reply> {
    if k <= |script| then script[k..] else []
  }

  /** Between `m` and `n` the device answered requests, one script entry each. */
  predicate Consumed(m: Machine, n: Machine) {
    |m.requests| < |n.requests| && n.script == Dropped(m.script, |n.requests| - |m.requests|)
  }

  /** The last request was answered Failing. */
  predicate LastFailed(m: Machine, n: Machine) {
    var k := |n.requests| - |m.requests|;
    0 < k <= |m.script| && m.script[k - 1].Failing?
  }

  /** From `m` to `n` the run ended with a poll for a block that was answered Failing:
      the last request is a poll, the reply to it is Failing, and the last DNLOAD
      before it was a block and not the completion packet. */
  predicate Refused(m: Machine, n: Machine) {
    && LastFailed(m, n)
    && n.requests[|n.requests| - 1] == GetStatus
    && var d := Dnloads(n.requests);
    d != [] && d[|d| - 1].data != []
  }

  lemma ConsumedJoin(m: Machine, k: Machine, n: Machine)
    requires Consumed(m, k) && Consumed(k, n)
    ensures Consumed(m, n)
    ensures LastFailed(m, n) <==> LastFailed(k, n)
    ensures Refused(m, n) <==> Refused(k, n)
  {
    hide Dnloads;
    var i, j := |k.requests| - |m.requests|, |n.requests| - |k.requests|;
    if i <= |m.script| {
      if i + j <= |m.script| {
        assert m.script[i..][j..] == m.script[i + j..];
        assert m.script[i..][j - 1] == m.script[i + j - 1];
      }
    }
  }

  lemma ReceiveConsumes(m: Machine, n: Machine, r: Request)
    requires n.script == m.Receive(r).script && n.requests == m.requests + [r]
    ensures Consumed(m, n)
    ensures LastFailed(m, n) <==> m.Head().Failing?
  {
  }

  lemma ElapseConsumes(m: Machine, n: Machine, ms: nat)
    requires Consumed(m, n)
    ensures Consumed(m, n.Elapse(ms)) && (LastFailed(m, n.Elapse(ms)) <==> LastFailed(m, n))
  {
    hide Machine.Elapse;
    Slept(n, ms);
  }

  /** Waiting for a block ends with the poll that failed, if one did. */
  lemma {:induction false} AwaitBlockConsumes(m: Machine)
    requires m.state == DnloadSync && m.status == STATUS_OK
    ensures var (n, r) := AwaitBlock(m);
            && Consumed(m, n)
            && n.requests[|n.requests| - 1] == GetStatus
            && (r.Return? && r.value.bStatus != STATUS_OK <==> LastFailed(m, n))
    decreases |m.script|, !m.asked
  {
    hide Machine.ReadStatus, Machine.Elapse, Consumed, LastFailed;
    BlockPolled(m);
    var (n, ret, dst) := m.ReadStatus();
    ReceiveConsumes(m, n, GetStatus);
    Slept(n, dst.bwPollTimeout);
    if ret >= 0 && dst.bState != DnloadIdle && dst.bState != Error {
      var k := n.Elapse(dst.bwPollTimeout);
      ElapseConsumes(m, n, dst.bwPollTimeout);
      AwaitBlockConsumes(k);
      ConsumedJoin(m, k, AwaitBlock(k).0);
    }
  }

  lemma {:induction false} SettleConsumes(m: Machine)
    requires m.state == ManifestSync || m.state == ManifestWaitReset
    ensures Consumed(m, Settle(m))
    decreases |m.script|, !m.asked, m.state == ManifestSync
  {
    hide Machine.ReadStatus, Machine.Elapse, Consumed, LastFailed, Refused;
    StatusReadRecord(m);
    if m.state == ManifestSync {
      ManifestPolled(m);
    } else {
      MutePolled(m);
    }
    var (n, ret, dst) := m.ReadStatus();
    ReceiveConsumes(m, n, GetStatus);
    var k := n.Elapse(dst.bwPollTimeout);
    Slept(n, dst.bwPollTimeout);
    Slept(k, 1000);
    ElapseConsumes(m, n, dst.bwPollTimeout);
    ElapseConsumes(m, k, 1000);
    if ret >= 0 && (dst.bState == ManifestSync || dst.bState == Manifest) {
      SettleConsumes(k.Elapse(1000));
      ConsumedJoin(m, k.Elapse(1000), Settle(k.Elapse(1000)));
    }
  }

  lemma CarriedOutStep(m: Machine, k: Machine, n: Machine, b: Block, d: seq<Block>)
    requires k.blocks == m.blocks + [b] && CarriedOut(k, n, d)
    ensures |k.blocks| <= |n.blocks| <= |k.blocks| + |d|
    ensures CarriedOut(m, n, [b] + d)
    ensures |Joined(([b] + d)[..|n.blocks| - |m.blocks|])| == |b.data| + |Joined(d[..|n.blocks| - |k.blocks|])|
  {
    var j := |n.blocks| - |k.blocks|;
    var c := [b] + d;
    assert c[..j + 1] == [b] + d[..j];
    assert c[..j + 1][1..] == d[..j];
    assert n.blocks == m.blocks + c[..j + 1];
  }

  lemma RequestsStep(r0: seq<Block>, b: Block, d: seq<Block>, w: seq<Block>)
    ensures (r0 + [b]) + d + w == r0 + ([b] + d) + w
  {
  }

  lemma CompletionNumber(number: nat, d: nat)
    ensures ((number + 1) % WRAP + d) % WRAP == (number + (1 + d)) % WRAP
  {
    NumberMoves(number, 1 + d);
  }

  lemma HonestStep(m: Machine, k: Machine, t: Sent, data: seq<bv8>, sent: nat, number: nat, size: nat)
    requires sent < |data| && 0 < size && number < WRAP
    requires var next := sent + ChunkSize(data, sent, size);
             var b := Block(number, data[sent..next]);
             && k.blocks == m.blocks + [b]
             && Dnloads(k.requests) == Dnloads(m.requests) + [b]
             && Consumed(m, k)
             && Honest(k, t, data, next, (number + 1) % WRAP, size)
    ensures Honest(m, t.(reported := [sent + ChunkSize(data, sent, size)] + t.reported), data, sent, number, size)
  {
    hide CarriedOut, Counted, Joined, Dnloads, Chunks, Boundaries, Consumed, Refused;
    var next := sent + ChunkSize(data, sent, size);
    var b := Block(number, data[sent..next]);
    var d := Chunks(data, next, (number + 1) % WRAP, size);
    var u := t.(reported := [next] + t.reported);
    CutStep(data, sent, number, size);
    CarriedOutStep(m, k, t.m, b, d);
    CompletionNumber(number, |d|);
    RequestsStep(Dnloads(m.requests), b, d, [Block((number + (1 + |d|)) % WRAP, [])]);
    var done := next + |Joined(d[..|t.m.blocks| - |k.blocks|])|;
    ConsumedJoin(m, k, t.m);
    CountedAlike(t, u, done, Refused(m, t.m), data, size);
    PrefixStep(next, t.reported, Boundaries(data, next, size));
  }

  lemma CountedAlike(t: Sent, u: Sent, done: nat, refused: bool, data: seq<bv8>, size: nat)
    requires Counted(t, done, refused, data, size) && u.m == t.m && u.r == t.r
    ensures Counted(u, done, refused, data, size)
  {
  }

  lemma CutStep(data: seq<bv8>, sent: nat, number: nat, size: nat)
    requires sent < |data| && 0 < size
    ensures var next := sent + ChunkSize(data, sent, size);
            && Chunks(data, sent, number, size)
               == [Block(number, data[sent..next])] + Chunks(data, next, (number + 1) % WRAP, size)
            && Boundaries(data, sent, size) == [next] + Boundaries(data, next, size)
  {
  }

  lemma PrefixStep(n: nat, a: seq<nat>, b: seq<nat>)
    requires a <= b
    ensures [n] + a <= [n] + b
  {
  }

  /** A transmission cut short before the next block was carried out. */
  lemma HonestStop(m: Machine, t: Sent, data: seq<bv8>, sent: nat, number: nat, size: nat)
    requires sent < |data| && 0 < size && number < WRAP
    requires t.m.blocks == m.blocks && t.reported == []
    requires var next := sent + ChunkSize(data, sent, size);
             && Dnloads(t.m.requests) == Dnloads(m.requests) + [Block(number, data[sent..next])]
             && (t.r == Exit(EX_IOERR) || t.r == Return(if Refused(m, t.m) then next else sent))
    requires Consumed(m, t.m)
    ensures Honest(m, t, data, sent, number, size)
  {
    hide Refused, Consumed;
    var c := Chunks(data, sent, number, size);
    assert m.blocks + c[..0] == m.blocks;
    assert Dnloads(t.m.requests)
      == (Dnloads(m.requests) + c + [Block((number + |c|) % WRAP, [])])[..|Dnloads(m.requests)| + 1];
    assert Joined(c[..0]) == [];
  }

  lemma HonestEnd(m: Machine, t: Sent, data: seq<bv8>, number: nat, size: nat)
    requires 0 < size && number < WRAP
    requires t.m.blocks == m.blocks
    requires Dnloads(t.m.requests) == Dnloads(m.requests) + [Block(number, [])]
    requires (t.r == Exit(EX_IOERR) && t.reported == []) || (t.r == Return(|data|) && t.reported == [|data|])
    requires Consumed(m, t.m)
    ensures Honest(m, t, data, |data|, number, size)
  {
    assert m.blocks + [] == m.blocks;
    assert CarriedOut(m, t.m, []);
    assert !Refused(m, t.m);
    assert Counted(t, |data|, false, data, size);
    hide Dnloads, CarriedOut, Counted, Refused, Consumed;
    assert Joined([]) == [];
    assert Dnloads(m.requests) + [] + [Block(number, [])] == Dnloads(m.requests) + [Block(number, [])];
    assert number % WRAP == number;
  }

  /** A block, and the polls for it. */
  lemma BlockConsumes(m: Machine, b: Block)
    requires b.data != [] && Conforming(m)
    ensures var (n, ret) := m.Download(b);
            if ret < 0 then Consumed(m, n) && !Refused(m, n)
            else
              && n.state == DnloadSync && n.status == STATUS_OK
              && var (k, r) := AwaitBlock(n);
              Consumed(m, k) && (Refused(m, k) <==> r.Return? && r.value.bStatus != STATUS_OK)
  {
    hide Dnloads, AwaitBlock, FaultFree, Machine.Download, Consumed, LastFailed;
    var (n, ret) := m.Download(b);
    DownloadPlain(m, b);
    DownloadRecord(m, b);
    ReceiveConsumes(m, n, Dnload(b));
    if ret >= 0 {
      AwaitBlockEnds(n);
      AwaitBlockConsumes(n);
      ConsumedJoin(m, n, AwaitBlock(n).0);
    }
  }

  lemma CompletionConsumes(m: Machine, b: Block)
    requires b.data == []
    ensures var (n, ret) := m.Download(b);
            && Consumed(m, n)
            && (ret >= 0 ==> n.state == ManifestSync && Consumed(m, Settle(n)))
  {
    hide Settle, Machine.Download, Consumed, LastFailed, Refused;
    var (n, ret) := m.Download(b);
    DownloadPlain(m, b);
    ReceiveConsumes(m, n, Dnload(b));
    if ret >= 0 {
      SettleConsumes(n);
      ConsumedJoin(m, n, Settle(n));
    }
  }

  lemma {:induction false} TransmitHonest(m: Machine, data: seq<bv8>, sent: nat, number: nat, size: nat)
    requires sent <= |data| && 0 < size < WRAP && number < WRAP && Conforming(m)
    ensures Honest(m, Transmit(m, data, sent, number, size), data, sent, number, size)
    decreases |data| - sent
  {
    hide Honest, Dnloads, AwaitBlock, Settle, FaultFree, Machine.Download, Consumed, Refused;
    var t := Transmit(m, data, sent, number, size);
    if sent < |data| {
      var next := sent + ChunkSize(data, sent, size);
      var b := Block(number, data[sent..next]);
      var (n, ret) := m.Download(b);
      DownloadRecord(m, b);
      BlockConsumes(m, b);
      if ret < 0 {
        HonestStop(m, t, data, sent, number, size);
      } else {
        var (k, r) := AwaitBlock(n);
        AwaitBlockEnds(n);
        if r.Exit? || r.value.bStatus != STATUS_OK {
          ExitCode(n);
          HonestStop(m, t, data, sent, number, size);
        } else {
          TransmitHonest(k, data, next, (number + 1) % WRAP, size);
          HonestStep(m, k, Transmit(k, data, next, (number + 1) % WRAP, size), data, sent, number, size);
        }
      }
    } else {
      var (n, ret) := m.Download(Block(number, []));
      DownloadRecord(m, Block(number, []));
      CompletionConsumes(m, Block(number, []));
      if ret >= 0 {
        SettleEnds(n);
      }
      HonestEnd(m, t, data, number, size);
    }
  }

  lemma {:induction false} ExitCode(m: Machine)
    requires m.state == DnloadSync
    ensures var (n, r) := AwaitBlock(m); r.Exit? ==> r.code == EX_IOERR
    decreases |m.script|, !m.asked
  {
    var (n, ret, dst) := m.ReadStatus();
    if ret >= 0 && dst.bState != DnloadIdle && dst.bState != Error {
      ExitCode(n.Elapse(dst.bwPollTimeout));
    }
  }

  /** Unless an operation fails, the count returned is the number of bytes carried out,
      whatever transfers are lost. */
  lemma CountIsExact(m: Machine, data: seq<bv8>, number: nat, size: nat)
    requires 0 < size < WRAP && number < WRAP && Conforming(m)
    requires forall r :: r in m.script ==> !r.Failing?
    ensures var t := Transmit(m, data, 0, number, size);
            var c := Chunks(data, 0, number, size);
            && |m.blocks| <= |t.m.blocks| <= |m.blocks| + |c|
            && (t.r.Return? ==> t.r.value == |Joined(c[..|t.m.blocks| - |m.blocks|])|)
  {
    hide Transmit, Joined, Chunks, Dnloads;
    TransmitHonest(m, data, 0, number, size);
    assert !LastFailed(m, Transmit(m, data, 0, number, size).m);
  }

  /** One byte to send, and a device that fails on it: one byte is reported as sent,
      and none has been carried out. */
  lemma CountedTooHigh()
    ensures var m := Machine(DfuIdle, STATUS_OK, 0, true, false, false, false, [Normal, Failing(3)], [], [], [],
                             Nothing, [], true);
            var t := Transmit(m, [0x01], 0, 0, 4096);
            && Conforming(m) && t.r == Return(1) && t.m.blocks == [] && t.m.state == Error
  {
    var m := Machine(DfuIdle, STATUS_OK, 0, true, false, false, false, [Normal, Failing(3)], [], [], [], Nothing, [],
                     true);
    var b := Block(0, [0x01]);
    assert [0x01 as bv8][0..1] == [0x01];
    var n := m.Download(b).0;
    assert n.state == DnloadSync && n.script == [Failing(3)];
    var (k, ret, dst) := n.ReadStatus();
    assert k.state == Error && dst.bStatus == 3 && k.blocks == [];
  }

  /** The requests of a transmission are legal, whatever the faults, when it starts
      in dfuIDLE with something to send, or goes on in dfuDNLOAD-IDLE, and the
      device comes back from manifestation. */
  lemma {:induction false} TransmitLegal(m: Machine, data: seq<bv8>, sent: nat, number: nat, size: nat)
    requires sent <= |data| && 0 < size < WRAP && Conforming(m)
    requires m.state == DnloadIdle || (m.state == DfuIdle && sent < |data|)
    requires m.tolerant
    ensures Transmit(m, data, sent, number, size).m.legal == m.legal
    decreases |data| - sent
  {
    hide Dnloads, AwaitBlock, Settle, FaultFree, Machine.Download;
    if sent < |data| {
      var next := sent + ChunkSize(data, sent, size);
      var b := Block(number, data[sent..next]);
      var (n, ret) := m.Download(b);
      DownloadRecord(m, b);
      if ret >= 0 {
        var (k, r) := AwaitBlock(n);
        AwaitBlockEnds(n);
        if r.Return? && r.value.bStatus == STATUS_OK {
          TransmitLegal(k, data, next, (number + 1) % WRAP, size);
        }
      }
    } else {
      var (n, ret) := m.Download(Block(number, []));
      DownloadRecord(m, Block(number, []));
      if ret >= 0 {
        SettleEnds(n);
      }
    }
  }

  /** Without faults the transmission is complete: everything is carried out in
      order and installed, the completion packet is sent once, the count returned
      is the length, and the device, if it comes back from manifestation, is idle. */
  ghost predicate Complete(m: Machine, t: Sent, data: seq<bv8>, sent: nat, number: nat, size: nat)
    requires sent <= |data| && 0 < size
  {
    var c := Chunks(data, sent, number, size);
    && t.r == Return(|data|)
    && t.reported == Boundaries(data, sent, size)
    && t.m.blocks == m.blocks + c
    && t.m.installed == Installed((if m.state == DfuIdle then [] else m.transfer) + c)
    && Dnloads(t.m.requests) == Dnloads(m.requests) + c + [Block((number + |c|) % WRAP, [])]
    && t.m.legal == (m.legal && m.tolerant)
    && (m.tolerant ==> t.m.state == DfuIdle)
  }

  lemma CompleteStep(m: Machine, k: Machine, t: Sent, data: seq<bv8>, sent: nat, number: nat, size: nat)
    requires sent < |data| && 0 < size && number < WRAP
    requires var next := sent + ChunkSize(data, sent, size);
             var b := Block(number, data[sent..next]);
             && k.blocks == m.blocks + [b]
             && Dnloads(k.requests) == Dnloads(m.requests) + [b]
             && k.transfer == (if m.state == DfuIdle then [] else m.transfer) + [b]
             && k.state == DnloadIdle && k.legal == m.legal && k.tolerant == m.tolerant
             && Complete(k, t, data, next, (number + 1) % WRAP, size)
    ensures Complete(m, t.(reported := [sent + ChunkSize(data, sent, size)] + t.reported), data, sent, number, size)
  {
    var next := sent + ChunkSize(data, sent, size);
    var b := Block(number, data[sent..next]);
    var d := Chunks(data, next, (number + 1) % WRAP, size);
    var c := Chunks(data, sent, number, size);
    assert c == [b] + d;
    assert (m.blocks + [b]) + d == m.blocks + c;
    var f := if m.state == DfuIdle then [] else m.transfer;
    assert (f + [b]) + d == f + c;
    var w0 := [Block(((number + 1) % WRAP + |d|) % WRAP, [])];
    var w1 := [Block((number + |c|) % WRAP, [])];
    NumberMoves(number, |c|);
    assert w0 == w1;
    var r0 := Dnloads(m.requests);
    assert (r0 + [b]) + d + w0 == r0 + c + w1;
  }

  lemma CompleteEnd(m: Machine, t: Sent, data: seq<bv8>, number: nat, size: nat)
    requires 0 < size && number < WRAP && m.state == DnloadIdle
    requires t.r == Return(|data|) && t.reported == [|data|] && t.m.blocks == m.blocks
    requires t.m.installed == Installed(m.transfer) && t.m.legal == (m.legal && m.tolerant)
    requires Dnloads(t.m.requests) == Dnloads(m.requests) + [Block(number, [])]
    requires m.tolerant ==> t.m.state == DfuIdle
    ensures Complete(m, t, data, |data|, number, size)
  {
    hide Dnloads;
    assert m.blocks + [] == m.blocks;
    assert m.transfer + [] == m.transfer;
    assert Dnloads(m.requests) + [] == Dnloads(m.requests);
  }

  lemma {:induction false} TransmitComplete(m: Machine, data: seq<bv8>, sent: nat, number: nat, size: nat)
    requires sent <= |data| && 0 < size < WRAP && number < WRAP && Conforming(m)
    requires m.state == DnloadIdle || (m.state == DfuIdle && sent < |data|)
    requires FaultFree(m.script)
    ensures Complete(m, Transmit(m, data, sent, number, size), data, sent, number, size)
    decreases |data| - sent
  {
    hide Complete, Dnloads, AwaitBlock, Settle, FaultFree, Machine.Download;
    if sent < |data| {
      var next := sent + ChunkSize(data, sent, size);
      var b := Block(number, data[sent..next]);
      var (n, ret) := m.Download(b);
      DownloadRecord(m, b);
      var (k, r) := AwaitBlock(n);
      AwaitBlockEnds(n);
      TransmitComplete(k, data, next, (number + 1) % WRAP, size);
      CompleteStep(m, k, Transmit(k, data, next, (number + 1) % WRAP, size), data, sent, number, size);
    } else {
      var (n, ret) := m.Download(Block(number, []));
      DownloadRecord(m, Block(number, []));
      SettleEnds(n);
      CompleteEnd(m, Transmit(m, data, sent, number, size), data, number, size);
    }
  }
}
