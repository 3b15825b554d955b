/** The device on the other end of the control pipe: the DFU state machine, and
    behind it the memory that its carried-out blocks have produced. */
module DfuDevices {
  import opened Pages
  import opened DfuMachine
  import opened Outcomes
  import opened FlashMemory

  class DfuDevice {
    var m: Machine
    var slept: nat            // milliseconds the host has waited
    const layout: seq<Segment>
    const xferSize: nat
    const initial: Flash

    constructor (m: Machine, layout: seq<Segment>, xferSize: nat, initial: Flash)
      ensures this.m == m && slept == 0 && this.layout == layout && this.xferSize == xferSize && this.initial == initial
    {
      this.m := m;
      slept := 0;
      this.layout := layout;
      this.xferSize := xferSize;
      this.initial := initial;
    }

    ghost predicate Valid() {
      && Sound(initial)
      && WellFormed(layout)
      && 0 < xferSize < 0x1_0000
    }

    /** The memory as it is now. */
    ghost function Memory(): (f: Flash)
      requires Valid()
      reads this
      ensures Sound(f) && |f.mem| == |f.blank| == SPACE
    {
      ReplaySound(layout, xferSize, initial, m.blocks);
      Replay(layout, xferSize, initial, m.blocks)
    }

    method Download(number: nat, data: seq<bv8>) returns (ret: int)
      modifies this`m
      ensures (m, ret) == old(m).Download(Block(number, data))
    {
      var (n, r) := m.Download(Block(number, data));
      m := n;
      ret := r;
    }

    method ReadStatus() returns (ret: int, dst: StatusReply)
      modifies this`m
      ensures (m, ret, dst) == old(m).ReadStatus()
    {
      var (n, r, s) := m.ReadStatus();
      m := n;
      ret, dst := r, s;
    }

    method ClearStatus() returns (ret: int)
      modifies this`m
      ensures (m, ret) == old(m).ClearStatus()
    {
      var (n, r) := m.ClearStatus();
      m := n;
      ret := r;
    }

    method Abort() returns (ret: int)
      modifies this`m
      ensures (m, ret) == old(m).AbortTransfer()
    {
      var (n, r) := m.AbortTransfer();
      m := n;
      ret := r;
    }

    /** Where the device reads an uploaded block from. */
    ghost function UploadAddress(number: nat): (a: nat)
      requires Valid() && number >= 2
      reads this
    {
      Memory().pointer + BlockOffset(number, xferSize)
    }

    /** The device answers with full blocks as far as its address space goes. */
    method Upload(number: nat, length: nat) returns (ret: int, data: seq<bv8>)
      requires Valid() && number >= 2
      modifies this`m
      ensures var a := old(UploadAddress(number));
              && (m, ret) == old(m).UploadBlock(number, length, if a < SPACE then SPACE - a else 0)
              && m.blocks == old(m).blocks
              && (ret > 0 ==> a + ret <= SPACE && data == Memory().mem[a..a + ret])
              && (ret <= 0 ==> data == [])
    {
      assert |initial.mem| == |initial.blank|;
      hide BlockOffset, Replay, Sound, WellFormed;
      UploadRecord(m, number, length, if UploadAddress(number) < SPACE then SPACE - UploadAddress(number) else 0);
      hide Machine.UploadBlock;
      ghost var f := Memory();
      var now := Replay(layout, xferSize, initial, m.blocks);
      var a := now.pointer + BlockOffset(number, xferSize);
      var (n, r) := m.UploadBlock(number, length, if a < SPACE then SPACE - a else 0);
      m := n;
      ret := r;
      data := if r > 0 then now.mem[a..a + r] else [];
    }

    /** The host sleeps. */
    method MilliSleep(ms: nat)
      modifies this
      ensures m == old(m).Elapse(ms) && slept == old(slept) + ms
    {
      m := m.Elapse(ms);
      slept := slept + ms;
    }

    /** Ends a transfer: the device is back in dfuIDLE, or the program exits. */
    method AbortToIdle() returns (r: Outcome<()>)
      requires m.state in {DfuIdle, DnloadIdle, UploadIdle}
      modifies this
      ensures r.Exit? ==> r.code == EX_IOERR
      ensures Kept(old(m), m) && m.blocks == old(m.blocks)
      ensures r.Return? ==> m.state == DfuIdle
      ensures Obliging(old(m)) ==> r.Return? && Obliging(m)
    {
      hide Machine.ReadStatus, Machine.AbortTransfer, Machine.Elapse;
      Aborted(m);
      var ret := Abort();
      if ret < 0 {
        return Exit(EX_IOERR);
      }
      IdlePolled(m);
      var dst;
      ret, dst := ReadStatus();
      if ret < 0 {
        return Exit(EX_IOERR);
      }
      Slept(m, dst.bwPollTimeout);
      if dst.bState != DfuIdle {
        return Exit(EX_IOERR);
      }
      MilliSleep(dst.bwPollTimeout);
      return Return(());
    }
  }

  lemma UploadRecord(m: Machine, number: nat, length: nat, available: nat)
    ensures var (n, ret) := m.UploadBlock(number, length, available);
            n.blocks == m.blocks && ret <= available
  {
    hide Machine.Head, Machine.Stall;
    StallKeeps(m.Receive(Upload(number, length)));
  }

  lemma StallKeeps(m: Machine)
    ensures m.Stall().blocks == m.blocks
  {
  }
}
