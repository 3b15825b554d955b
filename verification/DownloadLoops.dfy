/** The two copies of the plain download loop, each against the one specification. */
module DownloadLoops {
  import opened DfuMachine
  import opened DfuDevices
  import opened DfuFiles
  import opened Downloads
  import opened Outcomes
  import opened Responses

  /** A run of which the first counts have been reported already. */
  function Continued(reported: seq<nat>, t: Sent): Sent {
    t.(reported := reported + t.reported)
  }

  lemma ContinuedStep(reported: seq<nat>, n: nat, t: Sent)
    ensures Continued(reported, Continued([n], t)) == Continued(reported + [n], t)
  {
    assert reported + ([n] + t.reported) == (reported + [n]) + t.reported;
  }

  /** An accepted request leads where the polling starts. */
  lemma AcceptedPolls(m: Machine, b: Block)
    ensures var (n, ret) := m.Download(b);
            && (ret >= 0 && b.data != [] ==> n.state == DnloadSync)
            && (ret >= 0 && b.data == [] ==> n.state == ManifestSync)
  {
  }

  /** One pass of the poll loop. */
  lemma PollStep(m: Machine)
    requires m.state == DnloadSync
    ensures var (n, ret, dst) := m.ReadStatus();
            if ret < 0 then AwaitBlock(m) == (n, Exit(EX_IOERR))
            else if dst.bState == DnloadIdle || dst.bState == Error then AwaitBlock(m) == (n, Return(dst))
            else
              var k := n.Elapse(dst.bwPollTimeout);
              k.state == DnloadSync && AwaitBlock(m) == AwaitBlock(k)
              && (|k.script| < |m.script| || (|k.script| == |m.script| && !m.asked && k.asked))
  {
    hide Machine.ReadStatus, Machine.Elapse, FaultFree;
    BlockPolled(m);
    var (n, ret, dst) := m.ReadStatus();
    Slept(n, dst.bwPollTimeout);
  }

  /** Further on, with the script used up. */
  predicate Later(m: Machine, l: Machine) {
    (!m.asked && l.asked) || (m.asked == l.asked && m.state == ManifestSync && l.state != ManifestSync)
  }

  /** Where a pass of the manifest loop leaves the device. */
  lemma SettleMoves(m: Machine)
    requires m.state == ManifestSync || m.state == ManifestWaitReset
    ensures var (n, ret, dst) := m.ReadStatus();
            ret >= 0 && (dst.bState == ManifestSync || dst.bState == Manifest) ==>
              var l := n.Elapse(dst.bwPollTimeout).Elapse(1000);
              && (l.state == ManifestSync || l.state == ManifestWaitReset)
              && (|l.script| < |m.script|
                  || (|l.script| == |m.script| && Later(m, l)))
  {
    hide Machine.ReadStatus, Machine.Elapse;
    if m.state == ManifestSync {
      ManifestPolled(m);
    } else {
      MutePolled(m);
    }
    var (n, ret, dst) := m.ReadStatus();
    Slept(n, dst.bwPollTimeout);
    Slept(n.Elapse(dst.bwPollTimeout), 1000);
  }

  /** One pass of the manifest loop. */
  lemma SettleStep(m: Machine)
    requires m.state == ManifestSync || m.state == ManifestWaitReset
    ensures var (n, ret, dst) := m.ReadStatus();
            var k := n.Elapse(dst.bwPollTimeout);
            if ret < 0 then Settle(m) == n
            else if dst.bState != ManifestSync && dst.bState != Manifest then Settle(m) == k
            else
              var l := k.Elapse(1000);
              && (l.state == ManifestSync || l.state == ManifestWaitReset)
              && Settle(m) == Settle(l)
              && (|l.script| < |m.script|
                  || (|l.script| == |m.script| && Later(m, l)))
  {
    hide Machine.ReadStatus, Machine.Elapse;
    SettleMoves(m);
  }

  /** Polls until the device is ready for the next block or in dfuERROR. */
  method PollForIdle(dev: DfuDevice) returns (r: Outcome<StatusReply>)
    requires dev.m.state == DnloadSync
    modifies dev
    ensures (dev.m, r) == AwaitBlock(old(dev.m))
  {
    hide Machine.ReadStatus, Machine.Elapse, AwaitBlock;
    while true
      invariant dev.m.state == DnloadSync && AwaitBlock(dev.m) == AwaitBlock(old(dev.m))
      decreases |dev.m.script|, !dev.m.asked
    {
      PollStep(dev.m);
      var ret, dst := dev.ReadStatus();
      if ret < 0 {
        return Exit(EX_IOERR);
      }
      if dst.bState == DnloadIdle || dst.bState == Error {
        return Return(dst);
      }
      dev.MilliSleep(dst.bwPollTimeout);
    }
  }

  lemma PollRecorded(m: Machine)
    ensures |m.ReadStatus().0.requests| == |m.requests| + 1
  {
    hide Machine.ReadStatus;
    StatusReadRecord(m);
  }

  lemma SleepRecorded(m: Machine, ms: nat)
    ensures m.Elapse(ms).requests == m.requests
  {
  }

  /** Polls after the completion packet, with a second between two polls. */
  method FinishManifest(dev: DfuDevice)
    requires dev.m.state == ManifestSync || dev.m.state == ManifestWaitReset
    modifies dev
    ensures dev.m == Settle(old(dev.m))
    ensures |dev.m.requests| > |old(dev.m.requests)|
    ensures dev.slept >= old(dev.slept) + 1000 * (|dev.m.requests| - |old(dev.m.requests)| - 1)
  {
    hide Machine.ReadStatus, Machine.Elapse, Settle;
    while true
      invariant |dev.m.requests| >= |old(dev.m.requests)|
      invariant dev.slept >= old(dev.slept) + 1000 * (|dev.m.requests| - |old(dev.m.requests)|)
      invariant dev.m.state == ManifestSync || dev.m.state == ManifestWaitReset
      invariant Settle(dev.m) == Settle(old(dev.m))
      decreases |dev.m.script|, !dev.m.asked, dev.m.state == ManifestSync
    {
      SettleStep(dev.m);
      PollRecorded(dev.m);
      var ret, dst := dev.ReadStatus();
      if ret < 0 {
        return;
      }
      SleepRecorded(dev.m, dst.bwPollTimeout);
      dev.MilliSleep(dst.bwPollTimeout);
      if dst.bState != ManifestSync && dst.bState != Manifest {
        return;
      }
      SleepRecorded(dev.m, 1000);
      dev.MilliSleep(1000);
    }
  }

  /** What is left of a whole run, `told` having been reported already. */
  ghost predicate RunRemains(whole: Sent, told: seq<nat>, m: Machine, data: seq<bv8>, sent: nat, number: nat, size: nat)
    requires sent <= |data| && 0 < size < WRAP
  {
    whole == Continued(told, Transmit(m, data, sent, number, size))
  }

  lemma RemainsAll(m: Machine, data: seq<bv8>, size: nat)
    requires 0 < size < WRAP
    ensures RunRemains(Transmit(m, data, 0, 0, size), [], m, data, 0, 0, size)
  {
    var t := Transmit(m, data, 0, 0, size);
    assert [] + t.reported == t.reported;
  }

  /** One pass of the chunk loop: where it leaves the run, or how it ends it. */
  lemma ChunkStep(whole: Sent, told: seq<nat>, m: Machine, data: seq<bv8>, sent: nat, number: nat, size: nat)
    requires sent < |data| && 0 < size < WRAP
    requires RunRemains(whole, told, m, data, sent, number, size)
    ensures var next := sent + ChunkSize(data, sent, size);
            var (n, ret) := m.Download(Block(number, data[sent..next]));
            if ret < 0 then whole == Sent(n, Return(sent), told)
            else
              && n.state == DnloadSync
              && var (k, r) := AwaitBlock(n);
              if r.Exit? then whole == Sent(k, Exit(r.code), told)
              else if r.value.bStatus != STATUS_OK then whole == Sent(k, Return(next), told)
              else RunRemains(whole, told + [next], k, data, next, (number + 1) % WRAP, size)
  {
    hide Machine.Download, AwaitBlock, Settle;
    var next := sent + ChunkSize(data, sent, size);
    AcceptedPolls(m, Block(number, data[sent..next]));
    assert told + [] == told;
    var (n, ret) := m.Download(Block(number, data[sent..next]));
    if ret >= 0 {
      ContinuedStep(told, next, Transmit(AwaitBlock(n).0, data, next, (number + 1) % WRAP, size));
    }
  }

  /** The completion packet and what follows it. */
  lemma CompletionStep(whole: Sent, told: seq<nat>, m: Machine, data: seq<bv8>, number: nat, size: nat)
    requires 0 < size < WRAP
    requires RunRemains(whole, told, m, data, |data|, number, size)
    ensures var (n, ret) := m.Download(Block(number, []));
            if ret < 0 then whole == Sent(n, Exit(EX_IOERR), told)
            else n.state == ManifestSync && whole == Sent(Settle(n), Return(|data|), told + [|data|])
  {
    hide Machine.Download, AwaitBlock, Settle;
    AcceptedPolls(m, Block(number, []));
    assert told + [] == told;
  }

  /** The callback, if there is one, has been told these counts. */
  ghost predicate Told(cb: Callback?, before: seq<Report>, handle: int, counts: seq<nat>, total: nat)
    reads cb, if cb != null then {cb.channel} else {}
  {
    cb != null ==> cb.Valid() && cb.heard == before + Reports(handle, counts, total)
  }

  method Tell(cb: Callback?, handle: int, sent: nat, total: nat, ghost before: seq<Report>, ghost counts: seq<nat>)
    requires Told(cb, before, handle, counts, total)
    modifies cb, if cb != null then {cb.channel} else {}
    ensures Told(cb, before, handle, counts + [sent], total)
  {
    if cb != null {
      ReportsSnoc(handle, counts, sent, total);
      cb.Call(handle, sent, total);
    }
  }

  /** The copy of the library, with a progress callback. */
  method LibdfuUtilDownload(dev: DfuDevice, handle: int, blockSize: nat, din: seq<bv8>, cb: Callback?)
    returns (r: Outcome<nat>)
    requires 0 < blockSize < WRAP
    requires cb != null ==> cb.Valid()
    modifies dev, cb, if cb != null then {cb.channel} else {}
    ensures var t := Transmit(old(dev.m), din, 0, 0, blockSize);
            && dev.m == t.m
            && r == t.r
            && Told(cb, if cb != null then old(cb.heard) else [], handle, [0] + t.reported, |din|)
  {
    hide Machine.Download, AwaitBlock, Settle, Reports, Transmit, Told, RunRemains;
    ghost var before := if cb != null then cb.heard else [];
    var bytesSent: nat, transaction: nat, buf := 0, 0, din;
    ghost var whole := Transmit(dev.m, din, 0, 0, blockSize);
    ghost var told: seq<nat> := [];
    RemainsAll(dev.m, din, blockSize);
    NothingTold(cb, before, handle, |din|);
    assert [] + [0] == [0] + told;
    Tell(cb, handle, bytesSent, |din|, before, []);
    while bytesSent < |din|
      invariant bytesSent <= |din| && transaction < WRAP && buf == din[bytesSent..]
      invariant RunRemains(whole, told, dev.m, din, bytesSent, transaction, blockSize)
      invariant Told(cb, before, handle, [0] + told, |din|)
    {
      var bytesLeft := |din| - bytesSent;
      var chunkSize := if bytesLeft < blockSize then bytesLeft else blockSize;
      assert buf[..chunkSize] == din[bytesSent..bytesSent + ChunkSize(din, bytesSent, blockSize)];
      ChunkStep(whole, told, dev.m, din, bytesSent, transaction, blockSize);
      var ret := dev.Download(transaction, buf[..chunkSize]);
      transaction := (transaction + 1) % WRAP;
      if ret < 0 {
        return Return(bytesSent);
      }
      bytesSent := bytesSent + chunkSize;
      buf := buf[chunkSize..];
      var status := PollForIdle(dev);
      if status.Exit? {
        return Exit(status.code);
      }
      if status.value.bStatus != STATUS_OK {
        return Return(bytesSent);
      }
      Tell(cb, handle, bytesSent, |din|, before, [0] + told);
      assert ([0] + told) + [bytesSent] == [0] + (told + [bytesSent]);
      told := told + [bytesSent];
    }
    CompletionStep(whole, told, dev.m, din, transaction, blockSize);
    var ret := dev.Download(transaction, []);
    if ret < 0 {
      return Exit(EX_IOERR);
    }
    Tell(cb, handle, bytesSent, |din|, before, [0] + told);
    assert ([0] + told) + [bytesSent] == [0] + (told + [bytesSent]);
    FinishManifest(dev);
    return Return(bytesSent);
  }

  lemma NothingTold(cb: Callback?, before: seq<Report>, handle: int, total: nat)
    requires cb != null ==> cb.Valid() && cb.heard == before
    ensures Told(cb, before, handle, [], total)
  {
  }

  /** The copy of the command-line program, on a loaded file: everything before the
      suffix is sent. */
  method DfuloadDoDnload(dev: DfuDevice, xferSize: nat, file: DfuFile) returns (r: Outcome<nat>)
    requires 0 < xferSize < WRAP
    requires 0 <= file.suffix <= file.total == |file.firmware|
    modifies dev
    ensures var t := Transmit(old(dev.m), file.firmware[..file.total - file.suffix], 0, 0, xferSize);
            dev.m == t.m && r == t.r
  {
    hide Machine.Download, AwaitBlock, Settle, Transmit, RunRemains;
    var expectedSize := file.total - file.suffix;
    ghost var data := file.firmware[..expectedSize];
    ghost var whole := Transmit(dev.m, data, 0, 0, xferSize);
    ghost var told: seq<nat> := [];
    RemainsAll(dev.m, data, xferSize);
    var bytesSent: nat, transaction: nat, buf := 0, 0, file.firmware;
    while bytesSent < expectedSize
      invariant bytesSent <= expectedSize == |data| && transaction < WRAP
      invariant data <= file.firmware && buf == file.firmware[bytesSent..]
      invariant RunRemains(whole, told, dev.m, data, bytesSent, transaction, xferSize)
    {
      var bytesLeft := expectedSize - bytesSent;
      var chunkSize := if bytesLeft < xferSize then bytesLeft else xferSize;
      assert buf[..chunkSize] == data[bytesSent..bytesSent + ChunkSize(data, bytesSent, xferSize)];
      ChunkStep(whole, told, dev.m, data, bytesSent, transaction, xferSize);
      var ret := dev.Download(transaction, buf[..chunkSize]);
      transaction := (transaction + 1) % WRAP;
      if ret < 0 {
        return Return(bytesSent);
      }
      bytesSent := bytesSent + chunkSize;
      buf := buf[chunkSize..];
      var status := PollForIdle(dev);
      if status.Exit? {
        return Exit(status.code);
      }
      if status.value.bStatus != STATUS_OK {
        return Return(bytesSent);
      }
      told := told + [bytesSent];
    }
    CompletionStep(whole, told, dev.m, data, transaction, xferSize);
    var ret := dev.Download(transaction, []);
    if ret < 0 {
      return Exit(EX_IOERR);
    }
    FinishManifest(dev);
    return Return(bytesSent);
  }
}
