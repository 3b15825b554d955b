/** The DfuSe client: special commands, chunks, elements. */
module DfuSeClient {
  import opened Bytes
  import opened Pages
  import opened SegmentLists
  import opened DfuMachine
  import opened Outcomes
  import opened FlashMemory
  import opened Programming
  import opened Containers
  import opened Overlays
  import opened Arithmetic
  import opened Crc32
  import opened MemoryMaps
  import opened DfuDevices

  datatype Command = SetAddress | ErasePageCommand | MassErase | ReadUnprotect

  /** The bytes of a special command. */
  function CommandBytes(command: Command, address: nat): (s: seq<bv8>)
    ensures s != []
  {
    match command
    case SetAddress => [SET_ADDRESS_COMMAND] + QuadBytes(address)
    case ErasePageCommand => [ERASE_COMMAND] + QuadBytes(address)
    case MassErase => [ERASE_COMMAND]
    case ReadUnprotect => [READ_UNPROTECT_COMMAND]
  }

  /** The bytes of each command: a byte that says which, and for two of them an address, low byte
      first. */
  lemma CommandInBytes(command: Command, address: nat)
    requires address < SPACE
    ensures var s := CommandBytes(command, address);
            match command
            case SetAddress => |s| == 5 && s[0] == 0x21 && LowFirst(s[1..]) == address
            case ErasePageCommand => |s| == 5 && s[0] == 0x41 && LowFirst(s[1..]) == address
            case MassErase => s == [0x41]
            case ReadUnprotect => s == [0x92]
  {
    QuadOfBytes(address);
    hide QuadBytes, ToInt;
    var s := CommandBytes(command, address);
    if command in {SetAddress, ErasePageCommand} {
      assert s[1..] == QuadBytes(address);
      QuadValue(s[1..]);
    }
  }

  /** What a carried-out special command means for the memory. */
  function Effect(layout: seq<Segment>, f: Flash, command: Command, address: nat): (g: Flash)
    requires |f.mem| == |f.blank|
    ensures |g.mem| == |g.blank| == |f.mem|
  {
    match command
    case SetAddress => f.(pointer := address)
    case ErasePageCommand => ErasePage(layout, f, address)
    case MassErase => EraseAll(layout, f)
    case ReadUnprotect => EraseAll(layout, f)
  }

  /** The device decodes exactly the command that was meant. */
  lemma CommandDecoded(layout: seq<Segment>, xferSize: nat, f: Flash, command: Command, address: nat)
    requires |f.mem| == |f.blank| && address < SPACE
    ensures Execute(layout, xferSize, f, Block(0, CommandBytes(command, address)))
      == Effect(layout, f, command, address)
  {
    QuadOfBytes(address);
    var s := CommandBytes(command, address);
    if command in {SetAddress, ErasePageCommand} {
      assert s[1..] == QuadBytes(address);
    }
  }

  lemma ChunkExecuted(layout: seq<Segment>, xferSize: nat, f: Flash, data: seq<bv8>)
    requires |f.mem| == |f.blank|
    ensures Execute(layout, xferSize, f, Block(2, data)) == Program(layout, f, f.pointer, data)
  {
  }

  /** Nothing is under way: a command or a chunk may be sent. */
  predicate AtRest(m: Machine) {
    m.state in {DfuIdle, DnloadIdle}
  }

  /** The device has been dealt with as it should since `m`, and nothing is under way. */
  predicate Going(m: Machine, n: Machine) {
    AtRest(n) && Kept(m, n) && (Obliging(m) ==> Obliging(n))
  }

  lemma GoingStart(m: Machine)
    requires AtRest(m)
    ensures Going(m, m)
  {
  }

  lemma GoingRest(m: Machine, n: Machine)
    requires Going(m, n)
    ensures AtRest(n) && Kept(m, n) && (Obliging(m) ==> Obliging(n))
  {
  }

  lemma GoingOn(m: Machine, n: Machine, k: Machine, completed: bool)
    requires Going(m, n) && Kept(n, k) && (completed ==> AtRest(k)) && (Obliging(n) ==> Obliging(k))
    ensures Kept(m, k) && (completed ==> Going(m, k)) && (Obliging(m) ==> Obliging(n) && Obliging(k))
  {
  }

  /** Out of DFU mode for good, still in manifestation, or failed. */
  predicate Left(m: Machine) {
    m.state in {ManifestSync, ManifestWaitReset, Error}
  }

  /** Nothing but status reads since. */
  predicate OnlyPolled(before: seq<Request>, after: seq<Request>) {
    before <= after && forall i :: |before| <= i < |after| ==> after[i] == GetStatus
  }

  /** The last request other than a status read was this block. */
  predicate SentLast(requests: seq<Request>, b: Block) {
    exists k :: 0 <= k < |requests| && requests[k] == Dnload(b) && OnlyPolled(requests[..k + 1], requests)
  }

  lemma SentThenPolled(before: seq<Request>, b: Block, after: seq<Request>)
    requires OnlyPolled(before + [Dnload(b)], after)
    ensures SentLast(after, b)
  {
    assert after[|before|] == (before + [Dnload(b)])[|before|];
    assert after[..|before| + 1] == before + [Dnload(b)];
  }

  lemma DownloadRecord(m: Machine, b: Block)
    ensures m.Download(b).0.requests == m.requests + [Dnload(b)]
  {
    hide Machine.Head, Machine.Stall, Machine.Accept;
    RequestsKept(m.Receive(Dnload(b)), b);
  }

  lemma RequestsKept(m: Machine, b: Block)
    ensures m.Stall().requests == m.requests && m.Accept(b).requests == m.requests
  {
  }

  lemma NothingPolled(requests: seq<Request>)
    ensures OnlyPolled(requests, requests)
  {
  }

  lemma PolledOnce(before: seq<Request>, after: seq<Request>)
    requires OnlyPolled(before, after)
    ensures OnlyPolled(before, after + [GetStatus])
  {
  }

  /** The exit that an ending of the walk over a container calls for. */
  predicate ExitsAs<T>(r: Outcome<T>, ending: Ending) {
    r.Exit? ==> (ending == Corrupt && r.code == EX_IOERR) || (ending == Short && r.code == EX_SOFTWARE)
  }

  lemma CompleteReturns<T>(r: Outcome<T>)
    ensures ExitsAs(r, Complete) ==> r.Return?
  {
  }

  lemma SameExit<T, U>(r: Outcome<T>, s: Outcome<U>, ending: Ending)
    requires r.Exit? && s == Exit(r.code) && ExitsAs(r, ending)
    ensures ExitsAs(s, ending) && MayExit(s, ending)
  {
  }

  /** Every other exit is a failure of the device or of the bus, or a refusal. */
  predicate MayExit<T>(r: Outcome<T>, ending: Ending) {
    r.Exit? ==> r.code == EX_IOERR || (ending == Short && r.code == EX_SOFTWARE)
  }

  /** A DfuSe file for no address, or a plain one for an address. */
  ghost predicate FileOfKind(payload: seq<bv8>, bcdDFU: bv16, address: nat) {
    (bcdDFU == 0x11a <==> address == 0) && (address == 0 ==> WalkContainer(payload).ending == Complete)
  }

  /** A device that can be left: it stays in manifestation, or takes its time over it. */
  predicate Leaves(m: Machine) {
    !m.tolerant || m.lingers
  }

  /** The loop after the end of a transfer goes on, though the device is idle: only a lost
      transfer can end it now. */
  predicate Waiting(before: Machine, m: Machine) {
    before.state == ManifestSync && m.state == DfuIdle && m.status == before.status && Broken in m.script
  }

  /** The read pointer into a container and the bytes that remain behind it. */
  class Cursor {
    const bytes: seq<bv8>
    var data: nat
    var rem: nat

    constructor (bytes: seq<bv8>)
      ensures this.bytes == bytes && Valid() && data == 0
    {
      this.bytes := bytes;
      data := 0;
      rem := |bytes|;
    }

    /** Pointer and remainder always add up to the same. */
    ghost predicate Valid()
      reads this
    {
      data + rem == |bytes|
    }

    ghost function Rest(): seq<bv8>
      requires Valid()
      reads this
    {
      bytes[data..]
    }

    /** Copies `size` bytes and advances, or exits on a container that is too short. */
    method Memcpy(size: nat) returns (r: Outcome<seq<bv8>>)
      requires Valid()
      modifies this
      ensures r.Exit? ==> r.code == EX_IOERR
      ensures Valid()
      ensures r.Return? <==> size <= |old(Rest())|
      ensures r.Return? ==> r.value == old(Rest())[..size] && Rest() == old(Rest())[size..]
      ensures r.Exit? ==> Rest() == old(Rest())
    {
      if size > rem {
        return Exit(EX_IOERR);
      }
      var copy := bytes[data..data + size];
      data := data + size;
      rem := rem - size;
      return Return(copy);
    }
  }

  class Client {
    var lastErasedPage: nat
    var memLayout: SegmentList
    var dfuseAddress: nat
    const dfuseLength: nat
    const dfuseForce: bool
    const dfuseLeave: bool
    const dfuseUnprotect: bool
    const dfuseMassErase: bool
    const dev: DfuDevice

    /** A fresh process, with the options it was started with. */
    constructor (dev: DfuDevice, address: nat, length: nat, force: bool, leave: bool, unprotect: bool, massErase: bool)
      ensures this.dev == dev && lastErasedPage == 1
      ensures dfuseAddress == address && dfuseLength == length && dfuseForce == force && dfuseLeave == leave
      ensures dfuseUnprotect == unprotect && dfuseMassErase == massErase
      ensures fresh(memLayout) && memLayout.Valid() && memLayout.Contents() == [] && memLayout.nodes == []
    {
      this.dev := dev;
      lastErasedPage := 1;
      dfuseAddress, dfuseLength := address, length;
      dfuseForce, dfuseLeave, dfuseUnprotect, dfuseMassErase := force, leave, unprotect, massErase;
      memLayout := new SegmentList();
    }

    ghost predicate Linked()
      reads this`lastErasedPage
    {
      dev.Valid() && lastErasedPage < SPACE
    }

    /** The client's memory map is the device's own. */
    ghost predicate Valid()
      reads this`lastErasedPage, this`memLayout, memLayout, memLayout.nodes
    {
      && Linked()
      && memLayout.Valid()
      && memLayout.Contents() == dev.layout
    }

    lemma DeviceValid()
      requires Valid()
      ensures dev.Valid() && Linked()
    {
      hide DfuDevice.Valid;
    }

    /** The device's memory, and the page erased last as the client believes. */
    ghost function State(): (s: Progress)
      requires dev.Valid()
      reads this`lastErasedPage, dev
      ensures Whole(s)
    {
      Progress(dev.Memory(), lastErasedPage)
    }

    /** Polls until the device has carried out the command just sent; the first
        poll must find it busy. */
    method PollCommand(command: Command, ghost block: Block) returns (r: Outcome<()>)
      requires dev.m.state == DnloadSync && dev.m.pending == [block] && !dev.m.asked
      modifies dev
      ensures r.Exit? ==> r.code == EX_IOERR
      ensures Kept(old(dev.m), dev.m)
      ensures Obliging(old(dev.m)) ==> r.Return? && Obliging(dev.m)
      ensures r.Return? ==> old(dev.m).ReadStatus().2.bState == DnBusy
      ensures r.Return? && command == MassErase && old(dev.m).ReadStatus().2.bwPollTimeout == 100 ==>
        dev.slept >= old(dev.slept) + 35000
      ensures r.Return? && command != ReadUnprotect ==>
        dev.m.state == DnloadIdle && dev.m.blocks == old(dev.m.blocks) + [block]
      ensures r.Return? && command == ReadUnprotect ==> dev.m.state == DnloadSync && dev.m.pending == [block]
      ensures dev.m.blocks == old(dev.m.blocks) || dev.m.blocks == old(dev.m.blocks) + [block]
    {
      hide Machine.ReadStatus, Machine.Elapse, Obliging, Kept;
      ghost var before, slept, first := dev.m, dev.slept, dev.m.ReadStatus().2;
      KeptSame(before);
      var firstpoll := true;
      while true
        invariant Kept(before, dev.m) && (Obliging(before) ==> Obliging(dev.m) && (firstpoll <==> !dev.m.asked))
        invariant dev.m.state == DnloadSync && dev.m.pending == [block] && dev.m.blocks == before.blocks
        invariant dev.slept >= slept && (firstpoll ==> dev.m == before)
        invariant !firstpoll ==> first.bState == DnBusy && command != ReadUnprotect
        invariant !firstpoll && command == MassErase && first.bwPollTimeout == 100 ==> dev.slept >= slept + 35000
        decreases |dev.m.script|, !dev.m.asked
      {
        CommandPolled(before, dev.m);
        var ret, dst := dev.ReadStatus();
        if ret < 0 {
          return Exit(EX_IOERR);
        }
        if firstpoll {
          firstpoll := false;
          if dst.bState != DnBusy {
            return Exit(EX_IOERR);
          }
          if command == MassErase && dst.bwPollTimeout == 100 {
            dst := dst.(bwPollTimeout := 35000);
          }
        }
        dev.MilliSleep(dst.bwPollTimeout);
        if command == ReadUnprotect {
          return Return(());
        }
        if dst.bState != DnBusy {
          if dst.bStatus != STATUS_OK {
            return Exit(EX_IOERR);
          }
          return Return(());
        }
      }
    }

    /** Sends a special command and waits for it. */
    method SpecialCommand(address: nat, command: Command) returns (r: Outcome<()>)
      requires Linked() && AtRest(dev.m) && address < SPACE
      requires command == ErasePageCommand ==> Valid()
      modifies dev, this`lastErasedPage
      ensures r.Exit? ==> r.code == EX_IOERR
      ensures Linked() && (old(Valid()) ==> Valid())
      ensures Kept(old(dev.m), dev.m)
      ensures r.Return? && command != ReadUnprotect ==>
        dev.m.state == DnloadIdle && dev.Memory() == Effect(dev.layout, old(dev.Memory()), command, address)
      ensures r.Return? && command == ReadUnprotect ==> dev.m.pending == [Block(0, CommandBytes(command, address))]
      ensures dev.Memory() in {old(dev.Memory()), Effect(dev.layout, old(dev.Memory()), command, address)}
      ensures r.Return? && command == ErasePageCommand ==>
        IsFlash(dev.layout, address) && lastErasedPage == Base(dev.layout, address)
      ensures command != ErasePageCommand ==> lastErasedPage == old(lastErasedPage)
      ensures Obliging(old(dev.m)) ==>
        Obliging(dev.m) && (r.Return? <==> (command == ErasePageCommand ==> IsFlash(dev.layout, address)))
    {
      hide Replay, Execute, Effect, CommandBytes, Find, WellFormed, Machine.Download, Obliging;
      ghost var f := dev.Memory();
      if command == ErasePageCommand {
        var segment := memLayout.FindSegment(address);
        if segment.None? || !segment.value.Erasable() {
          return Exit(EX_IOERR);
        }
        MaskIsBase(dev.layout, address);
        PageInSegment(dev.layout, address);
        lastErasedPage := Mask(address, segment.value.pagesize);
      }
      var block := Block(0, CommandBytes(command, address));
      CommandDecoded(dev.layout, dev.xferSize, f, command, address);
      ReplayAppend(dev.layout, dev.xferSize, dev.initial, dev.m.blocks, block);
      BlockSent(dev.m, block);
      var ret := dev.Download(0, block.data);
      if ret < 0 {
        return Exit(EX_IOERR);
      }
      r := PollCommand(command, block);
    }

    /** Polls until the device has taken the chunk, failed, or begun to manifest. */
    method PollChunk(ghost block: Block) returns (r: Outcome<StatusReply>)
      requires (dev.m.state == DnloadSync && dev.m.pending == [block])
        || (dev.m.state == ManifestSync && LoopEnds(dev.m))
      modifies dev
      ensures r.Exit? ==> r.code == EX_IOERR
      ensures Kept(old(dev.m), dev.m)
      ensures Obliging(old(dev.m)) ==>
        r.Return? && Obliging(dev.m) && (old(dev.m.state) == DnloadSync ==> r.value.bStatus == STATUS_OK)
      ensures old(dev.m.state) == DnloadSync ==>
        && (r.Return? && r.value.bStatus == STATUS_OK ==>
             dev.m.state == DnloadIdle && dev.m.blocks == old(dev.m.blocks) + [block])
        && (dev.m.blocks == old(dev.m.blocks) || dev.m.blocks == old(dev.m.blocks) + [block])
      ensures old(dev.m.state) == ManifestSync ==>
        && (r.Return? ==> Left(dev.m))
        && dev.m.blocks == old(dev.m.blocks)
      ensures OnlyPolled(old(dev.m.requests), dev.m.requests)
    {
      hide Machine.ReadStatus, Machine.Elapse, OnlyPolled, Obliging, LoopEnds;
      ghost var before := dev.m;
      NothingPolled(before.requests);
      while true
        invariant Kept(before, dev.m) && OnlyPolled(before.requests, dev.m.requests)
        invariant dev.m.pending == before.pending && dev.m.blocks == before.blocks
        invariant Obliging(before) ==> Obliging(dev.m)
        invariant dev.m == before || dev.m.state == before.state == DnloadSync || Waiting(before, dev.m)
        decreases |dev.m.script|, !dev.m.asked
      {
        PollFacts(before, dev.m);
        PolledOnce(before.requests, dev.m.requests);
        var ret, dst := dev.ReadStatus();
        if ret < 0 {
          return Exit(EX_IOERR);
        }
        Slept(dev.m, dst.bwPollTimeout);
        dev.MilliSleep(dst.bwPollTimeout);
        if dst.bState in {DnloadIdle, Error, Manifest} {
          return Return(dst);
        }
      }
    }

    /** Sends a data chunk, or the zero-length request that ends the session; after that
        one the polling must come to an end. A negative value reports a failure of the
        device. */
    method DnloadChunk(data: seq<bv8>, transaction: nat) returns (r: Outcome<int>)
      requires Linked()
      requires if data != [] then AtRest(dev.m)
               else dev.m.state == DnloadIdle
                    && var (n, ret) := dev.m.Download(Block(transaction, data)); ret >= 0 ==> LoopEnds(n)
      modifies dev
      ensures r.Exit? ==> r.code == EX_IOERR
      ensures Linked() && (old(Valid()) ==> Valid())
      ensures Kept(old(dev.m), dev.m)
      ensures data != [] && r.Return? && r.value >= 0 ==>
        && r.value == |data|
        && dev.m.state == DnloadIdle
        && dev.Memory() == Execute(dev.layout, dev.xferSize, old(dev.Memory()), Block(transaction, data))
      ensures data == [] ==>
        && (r.Return? ==> Left(dev.m))
        && dev.Memory() == old(dev.Memory())
      ensures SentLast(dev.m.requests, Block(transaction, data))
      ensures r.Return? ==> r.value == -1 || r.value == |data|
      ensures dev.Memory() in {old(dev.Memory()),
                Execute(dev.layout, dev.xferSize, old(dev.Memory()), Block(transaction, data))}
      ensures Obliging(old(dev.m)) ==> Obliging(dev.m) && r.Return? && (data != [] ==> r.value == |data|)
    {
      hide Replay, Execute, WellFormed, Machine.Download, Obliging, OnlyPolled, SentLast;
      var block := Block(transaction, data);
      ghost var requests := dev.m.requests;
      ReplayAppend(dev.layout, dev.xferSize, dev.initial, dev.m.blocks, block);
      if data != [] {
        BlockSent(dev.m, block);
      } else {
        CompletionSent(dev.m, block);
      }
      DownloadRecord(dev.m, block);
      NothingPolled(requests + [Dnload(block)]);
      SentThenPolled(requests, block, requests + [Dnload(block)]);
      var ret := dev.Download(transaction, data);
      if ret < 0 {
        return Exit(EX_IOERR);
      }
      var polled := PollChunk(block);
      SentThenPolled(requests, block, dev.m.requests);
      if polled.Exit? {
        return Exit(polled.code);
      }
      if polled.value.bStatus != STATUS_OK {
        return Return(-1);
      }
      return Return(ret);
    }

    /** Erases the page around an address, unless its mask is the page erased last. */
    method EraseUnlessLast(address: nat, pageSize: nat) returns (r: Outcome<()>)
      requires Valid() && AtRest(dev.m) && address < SPACE && 0 < pageSize <= SPACE
      modifies dev, this`lastErasedPage
      ensures r.Exit? ==> r.code == EX_IOERR
      ensures Valid() && Kept(old(dev.m), dev.m)
      ensures r.Return? ==> AtRest(dev.m)
      ensures ErasedUnlessLast(dev.layout, old(State()), address, pageSize, State(), r.Return?)
      ensures Obliging(old(dev.m)) ==>
        && Obliging(dev.m)
        && (Mask(address, pageSize) == old(lastErasedPage) || IsFlash(dev.layout, address) ==> r.Return?)
    {
      hide Find, WellFormed, Replay, Mask, Obliging, IsFlash, Base;
      if Mask(address, pageSize) != lastErasedPage {
        r := SpecialCommand(address, ErasePageCommand);
      } else {
        r := Return(());
      }
    }

    /** The erases of a chunk have come to the address `at` since `s`. */
    ghost predicate StridesTo(s: Progress, address: nat, chunkSize: nat, pageSize: nat, at: nat)
      reads this`lastErasedPage, dev
    {
      && dev.Valid() && 0 < chunkSize && 0 < pageSize <= SPACE
      && ErasingAt(dev.layout, s, address, chunkSize, pageSize, at, State())
    }

    /** The device agrees to all of them. */
    ghost predicate StridesInFlash(address: nat, chunkSize: nat, pageSize: nat, last: int) {
      0 < chunkSize && 0 < pageSize <= SPACE
      && AllFlash(dev.layout, EraseRequests(dev.layout, address, address + chunkSize, pageSize, last))
    }

    /** One step of the stride. */
    method EraseStride(address: nat, chunkSize: nat, pageSize: nat, eraseAddress: nat, ghost s: Progress)
      returns (r: Outcome<()>)
      requires Valid() && AtRest(dev.m) && 0 < pageSize
      requires address <= eraseAddress < address + chunkSize <= SPACE
      requires StridesTo(s, address, chunkSize, pageSize, eraseAddress)
      modifies dev, this`lastErasedPage
      ensures r.Exit? ==> r.code == EX_IOERR
      ensures Valid() && Kept(old(dev.m), dev.m)
      ensures r.Return? ==> AtRest(dev.m) && StridesTo(s, address, chunkSize, pageSize, eraseAddress + pageSize)
      ensures Obliging(old(dev.m)) ==>
        Obliging(dev.m) && (StridesInFlash(address, chunkSize, pageSize, s.last) ==> r.Return?)
      ensures Confined(dev.layout, s.flash, dev.Memory(), address, chunkSize)
    {
      hide Find, WellFormed, Replay, Mask, Obliging, IsFlash, Confined, Sound, ErasingAt, EraseRequests, AllFlash,
           ErasedUnlessLast, Kept, AtRest, Client.Valid;
      DeviceValid();
      ghost var now := State();
      r := EraseUnlessLast(eraseAddress, pageSize);
      StrideStep(dev.layout, s, address, chunkSize, pageSize, eraseAddress, now, State(), r.Return?);
    }

    /** Erases at a stride of the page size found where a chunk begins. */
    method EraseStrides(address: nat, chunkSize: nat, pageSize: nat, ghost s: Progress)
      returns (r: Outcome<()>, ghost at: nat)
      requires Valid() && AtRest(dev.m) && 0 < pageSize && address + chunkSize + pageSize <= SPACE
      requires StridesTo(s, address, chunkSize, pageSize, address)
      modifies dev, this`lastErasedPage
      ensures r.Exit? ==> r.code == EX_IOERR
      ensures Valid() && Kept(old(dev.m), dev.m)
      ensures r.Return? ==>
        AtRest(dev.m) && address + chunkSize <= at && StridesTo(s, address, chunkSize, pageSize, at)
      ensures Obliging(old(dev.m)) ==>
        Obliging(dev.m) && (StridesInFlash(address, chunkSize, pageSize, s.last) ==> r.Return?)
      ensures Confined(dev.layout, s.flash, dev.Memory(), address, chunkSize)
    {
      hide Wrap, Find, WellFormed, Replay, Obliging, Confined, Sound, Kept, AtRest, Going, Whole, Client.State,
           Client.StridesTo, Client.StridesInFlash, Client.Valid;
      DeviceValid();
      NoWrap(address + chunkSize);
      GoingStart(dev.m);
      at := address;
      var eraseAddress := address;
      while eraseAddress < Wrap(address + chunkSize)
        invariant Valid() && Going(old(dev.m), dev.m) && address <= eraseAddress
        invariant StridesTo(s, address, chunkSize, pageSize, eraseAddress)
        decreases address + chunkSize - eraseAddress
      {
        ghost var m := dev.m;
        GoingRest(old(dev.m), m);
        r := EraseStride(address, chunkSize, pageSize, eraseAddress, s);
        GoingOn(old(dev.m), m, dev.m, r.Return?);
        if r.Exit? {
          return;
        }
        NoWrap(eraseAddress + pageSize);
        eraseAddress := Wrap(eraseAddress + pageSize);
      }
      GoingRest(old(dev.m), dev.m);
      StridesConfined(address, chunkSize, pageSize, eraseAddress, s);
      return Return(()), eraseAddress;
    }

    lemma StridesConfined(address: nat, chunkSize: nat, pageSize: nat, eraseAddress: nat, s: Progress)
      requires dev.Valid() && StridesTo(s, address, chunkSize, pageSize, eraseAddress)
      ensures Confined(dev.layout, s.flash, dev.Memory(), address, chunkSize)
    {
      hide Confined, ErasingAt, Replay, Sound, WellFormed;
      ErasingConfined(dev.layout, s, address, chunkSize, pageSize, eraseAddress, State());
    }

    /** Erases for a chunk that begins in flash memory: the stride, and the page of the
        last byte. */
    method EraseChunk(address: nat, chunkSize: nat, pageSize: nat) returns (r: Outcome<()>)
      requires Valid() && AtRest(dev.m) && 0 < chunkSize && 0 < pageSize <= SPACE
      requires address + chunkSize + pageSize <= SPACE
      modifies dev, this`lastErasedPage
      ensures r.Exit? ==> r.code == EX_IOERR
      ensures Valid() && Kept(old(dev.m), dev.m)
      ensures var requests := EraseRequests(dev.layout, address, address + chunkSize, pageSize, old(lastErasedPage));
              && (r.Return? ==> AtRest(dev.m) && AllErased(dev.layout, old(State()), requests, State()))
              && (Obliging(old(dev.m)) ==> Obliging(dev.m) && (AllFlash(dev.layout, requests) ==> r.Return?))
      ensures Confined(dev.layout, old(dev.Memory()), dev.Memory(), address, chunkSize)
    {
      hide Find, WellFormed, Replay, Mask, Obliging, IsFlash, Base, Confined, ErasePage, Sound, ErasingAt,
           EraseRequests, AllFlash, AllErased, ErasedUnlessLast, Kept, Client.Valid;
      DeviceValid();
      ghost var s := State();
      ErasingStart(dev.layout, s, address, chunkSize, pageSize);
      ghost var at;
      r, at := EraseStrides(address, chunkSize, pageSize, s);
      if r.Exit? {
        return;
      }
      ghost var now, m := State(), dev.m;
      r := EraseUnlessLast(address + chunkSize - 1, pageSize);
      KeptJoin(old(dev.m), m, dev.m);
      TailStep(dev.layout, s, address, chunkSize, pageSize, at, now, State(), r.Return?);
    }

    /** Erases for a chunk, only for downloads to flash memory. */
    method PrepareChunk(address: nat, chunkSize: nat, segment: Segment) returns (r: Outcome<()>)
      requires Valid() && AtRest(dev.m) && 0 < chunkSize
      requires Find(dev.layout, address) == Some(segment)
      requires segment.Erasable() && !dfuseMassErase ==> address + chunkSize + segment.pagesize <= SPACE
      modifies dev, this`lastErasedPage
      ensures r.Exit? ==> r.code == EX_IOERR
      ensures Valid() && Kept(old(dev.m), dev.m)
      ensures var requests := ChunkRequests(dev.layout, address, chunkSize, !dfuseMassErase, old(lastErasedPage));
              && (r.Return? ==> AtRest(dev.m) && AllErased(dev.layout, old(State()), requests, State()))
              && (Obliging(old(dev.m)) ==> Obliging(dev.m) && (AllFlash(dev.layout, requests) ==> r.Return?))
      ensures Confined(dev.layout, old(dev.Memory()), dev.Memory(), address, chunkSize)
    {
      hide Find, WellFormed, Replay, Sound, Confined, Obliging, EraseRequests;
      ConfinedStart(dev.layout, dev.Memory(), address, chunkSize);
      PageSizeBounds(dev.layout, address);
      if segment.Erasable() && !dfuseMassErase {
        r := EraseChunk(address, chunkSize, segment.pagesize);
      } else {
        r := Return(());
      }
    }

    /** Sets the address pointer and sends one chunk to it, with transaction number
        2 for no offset. */
    method ProgramChunk(address: nat, chunk: seq<bv8>) returns (r: Outcome<()>)
      requires Valid() && AtRest(dev.m)
      requires chunk != [] && address + |chunk| <= SPACE
      modifies dev, this`lastErasedPage
      ensures r.Exit? ==> r.code == EX_IOERR
      ensures Valid() && lastErasedPage == old(lastErasedPage)
      ensures Kept(old(dev.m), dev.m)
      ensures r.Return? ==>
        && dev.m.state == DnloadIdle
        && dev.Memory() == Program(dev.layout, old(dev.Memory()).(pointer := address), address, chunk)
      ensures Confined(dev.layout, old(dev.Memory()), dev.Memory(), address, |chunk|)
      ensures Obliging(old(dev.m)) ==> Obliging(dev.m) && r.Return?
    {
      hide Find, WellFormed, Replay, Sound, Program, Confined, Obliging;
      ghost var f := dev.Memory();
      var pointing := SpecialCommand(address, SetAddress);
      PointerConfined(dev.layout, f, address, address, |chunk|);
      ConfinedStart(dev.layout, f, address, |chunk|);
      if pointing.Exit? {
        return pointing;
      }
      ghost var pointed := dev.Memory();
      ChunkExecuted(dev.layout, dev.xferSize, pointed, chunk);
      ProgramConfined(dev.layout, pointed, address, chunk, address, |chunk|);
      ConfinedJoin(dev.layout, f, pointed, Program(dev.layout, pointed, address, chunk), address, |chunk|);
      var sent := DnloadChunk(chunk, 2);
      if sent.Exit? {
        return Exit(sent.code);
      }
      if sent.value != |chunk| {
        return Exit(EX_IOERR);
      }
      return Return(());
    }

    /** The segment of an address, if it is writeable. */
    method WriteableSegment(address: nat) returns (r: Outcome<Segment>)
      requires Valid()
      ensures r.Exit? ==> r.code == EX_IOERR
      ensures r.Return? <==> CanWrite(dev.layout, address)
      ensures r.Return? ==> Find(dev.layout, address) == Some(r.value)
    {
      hide Find, WellFormed;
      var segment := memLayout.FindSegment(address);
      if segment.None? || !segment.value.Writeable() {
        return Exit(EX_IOERR);
      }
      return Return(segment.value);
    }

    /** Prepares and sends one chunk. */
    method SendChunk(address: nat, chunk: seq<bv8>, segment: Segment) returns (r: Outcome<()>)
      requires Valid() && AtRest(dev.m) && chunk != [] && address + |chunk| <= SPACE
      requires Find(dev.layout, address) == Some(segment)
      requires segment.Erasable() && !dfuseMassErase ==> address + |chunk| + segment.pagesize <= SPACE
      modifies dev, this`lastErasedPage
      ensures r.Exit? ==> r.code == EX_IOERR
      ensures Valid() && Kept(old(dev.m), dev.m)
      ensures r.Return? && CanWrite(dev.layout, address) ==>
        AtRest(dev.m) && ChunkDone(dev.layout, old(State()), address, chunk, !dfuseMassErase, State())
      ensures Obliging(old(dev.m)) ==>
        && Obliging(dev.m)
        && (AllFlash(dev.layout, ChunkRequests(dev.layout, address, |chunk|, !dfuseMassErase, old(lastErasedPage))) ==>
              r.Return?)
      ensures Confined(dev.layout, old(dev.Memory()), dev.Memory(), address, |chunk|)
    {
      hide Find, WellFormed, Replay, Sound, Program, Confined, ChunkRequests, AllErased, AllFlash, Obliging, Kept,
           ChunkDone, CanWrite, Client.Valid;
      DeviceValid();
      ghost var s := State();
      r := PrepareChunk(address, |chunk|, segment);
      if r.Exit? {
        return;
      }
      ghost var mid, m := State(), dev.m;
      r := ProgramChunk(address, chunk);
      KeptJoin(old(dev.m), m, dev.m);
      ConfinedJoin(dev.layout, s.flash, mid.flash, dev.Memory(), address, |chunk|);
      if r.Return? && CanWrite(dev.layout, address) {
        ChunkComplete(dev.layout, s, mid, State(), address, chunk, !dfuseMassErase);
      }
    }

    /** Writes the chunk of an element that starts `p` bytes into it. */
    method WriteChunkAt(address: nat, data: seq<bv8>, p: nat, xferSize: nat) returns (r: Outcome<()>)
      requires Valid() && AtRest(dev.m)
      requires p < |data| && Roomy(dev.layout, address, |data|, xferSize, !dfuseMassErase)
      modifies dev, this`lastErasedPage
      ensures r.Exit? ==> r.code == EX_IOERR
      ensures Valid() && Kept(old(dev.m), dev.m)
      ensures var chunk := ChunkAt(data, p, xferSize);
              && (r.Return? ==>
                    AtRest(dev.m) && ChunkDone(dev.layout, old(State()), address + p, chunk, !dfuseMassErase, State()))
              && (Obliging(old(dev.m)) ==>
                    && Obliging(dev.m)
                    && (ChunkAllowed(dev.layout, old(lastErasedPage), address + p, |chunk|, !dfuseMassErase) ==>
                          r.Return?))
      ensures Confined(dev.layout, old(dev.Memory()), dev.Memory(), address, |data|)
    {
      hide Wrap, Find, WellFormed, Replay, Sound, Confined, ChunkRequests, AllFlash, Obliging, Kept, ChunkDone,
           CanWrite, Roomy, Client.Valid, ChunkLength, ChunkAt;
      DeviceValid();
      RoomySize(dev.layout, address, |data|, xferSize, !dfuseMassErase);
      ConfinedStart(dev.layout, dev.Memory(), address, |data|);
      NoWrap(address + p);
      KeptSame(dev.m);
      var found := WriteableSegment(Wrap(address + p));
      if found.Exit? {
        return Exit(found.code);
      }
      var chunk := CutChunk(data, p, xferSize);
      RoomForChunk(address, |data|, xferSize, address + p, found.value);
      r := SendChunk(address + p, chunk, found.value);
      ConfinedWiden(dev.layout, old(dev.Memory()), dev.Memory(), address, |data|, address + p, |chunk|);
    }

    /** The bytes of the chunk that starts at byte `p`, fewer in the last one. */
    method CutChunk(data: seq<bv8>, p: nat, xferSize: nat) returns (chunk: seq<bv8>)
      requires p < |data| && 0 < xferSize
      ensures chunk == ChunkAt(data, p, xferSize) && chunk != [] && p + |chunk| <= |data|
    {
      var chunkSize := xferSize;
      if p + chunkSize > |data| {
        chunkSize := |data| - p;
      }
      chunk := data[p..p + chunkSize];
    }

    lemma RoomForChunk(address: nat, n: nat, xferSize: nat, at: nat, segment: Segment)
      requires Roomy(dev.layout, address, n, xferSize, !dfuseMassErase)
      requires address <= at < address + n && Find(dev.layout, at) == Some(segment)
      ensures segment.Erasable() && !dfuseMassErase ==> address + n + segment.pagesize <= SPACE
    {
      assert segment.Erasable() ==> IsFlash(dev.layout, at);
    }

    /** One pass of the loop over an element, written from `s` on. */
    method WriteNext(address: nat, data: seq<bv8>, p: nat, xferSize: nat, ghost s: Progress) returns (r: Outcome<()>)
      requires Valid() && AtRest(dev.m)
      requires p < |data| && Roomy(dev.layout, address, |data|, xferSize, !dfuseMassErase)
      requires WritingAt(dev.layout, s, address, data, p, xferSize, !dfuseMassErase, State())
      modifies dev, this`lastErasedPage
      ensures r.Exit? ==> r.code == EX_IOERR
      ensures Valid() && Kept(old(dev.m), dev.m)
      ensures r.Return? ==>
        AtRest(dev.m) && WritingAt(dev.layout, s, address, data, p + xferSize, xferSize, !dfuseMassErase, State())
      ensures Obliging(old(dev.m)) ==>
        && Obliging(dev.m)
        && (Allowed(dev.layout, s.last, address, |data|, 0, xferSize, !dfuseMassErase) ==> r.Return?)
      ensures Confined(dev.layout, s.flash, dev.Memory(), address, |data|)
    {
      hide Find, WellFormed, Replay, Sound, Confined, Obliging, Kept, AtRest, WritingAt, ChunkDone, ChunkAllowed,
           WriteFrom, Allowed, Roomy, ChunkAt, ChunkLength, Client.Valid;
      DeviceValid();
      RoomySize(dev.layout, address, |data|, xferSize, !dfuseMassErase);
      ghost var now := State();
      r := WriteChunkAt(address, data, p, xferSize);
      WritingStep(dev.layout, s, address, data, p, xferSize, !dfuseMassErase, now, State(), r.Return?);
    }

    /** Writes the chunks of an element. */
    method WriteChunks(address: nat, data: seq<bv8>, xferSize: nat) returns (r: Outcome<()>)
      requires Valid() && AtRest(dev.m)
      requires Roomy(dev.layout, address, |data|, xferSize, !dfuseMassErase)
      modifies dev, this`lastErasedPage
      ensures r.Exit? ==> r.code == EX_IOERR
      ensures Valid() && Kept(old(dev.m), dev.m)
      ensures r.Return? ==>
        && AtRest(dev.m)
        && WritingAt(dev.layout, old(State()), address, data, |data|, xferSize, !dfuseMassErase, State())
      ensures Obliging(old(dev.m)) ==>
        && Obliging(dev.m)
        && (Allowed(dev.layout, old(lastErasedPage), address, |data|, 0, xferSize, !dfuseMassErase) ==> r.Return?)
      ensures Confined(dev.layout, old(dev.Memory()), dev.Memory(), address, |data|)
    {
      hide Find, WellFormed, Replay, Sound, Confined, Obliging, Kept, AtRest, Going, WritingAt, Allowed, Roomy,
           Client.Valid;
      DeviceValid();
      RoomySize(dev.layout, address, |data|, xferSize, !dfuseMassErase);
      ghost var s := State();
      WritingStart(dev.layout, s, address, data, xferSize, !dfuseMassErase);
      GoingStart(dev.m);
      var p := 0;
      while p < |data|
        invariant Valid() && Going(old(dev.m), dev.m)
        invariant WritingAt(dev.layout, s, address, data, p, xferSize, !dfuseMassErase, State())
        decreases |data| - p
      {
        ghost var m := dev.m;
        GoingRest(old(dev.m), m);
        r := WriteNext(address, data, p, xferSize, s);
        GoingOn(old(dev.m), m, dev.m, r.Return?);
        if r.Exit? {
          return;
        }
        p := p + xferSize;
      }
      GoingRest(old(dev.m), dev.m);
      WritingConfined(dev.layout, s, address, data, p, xferSize, !dfuseMassErase, State());
      WritingPast(dev.layout, s, address, data, p, xferSize, !dfuseMassErase, State());
      r := Return(());
    }

    /** Writes an element of any size, chunk by chunk, taking care of page erases. */
    method DnloadElement(address: nat, data: seq<bv8>, xferSize: nat) returns (r: Outcome<int>)
      requires Valid() && AtRest(dev.m)
      requires Roomy(dev.layout, address, |data|, xferSize, !dfuseMassErase)
      modifies dev, this`lastErasedPage
      ensures r.Exit? ==> r.code == EX_IOERR
      ensures Valid() && Kept(old(dev.m), dev.m)
      ensures r.Return? ==>
        && r.value == 0
        && AtRest(dev.m)
        && State() == WriteFrom(dev.layout, old(State()), address, data, 0, xferSize, !dfuseMassErase)
        && Accepted(dev.layout, old(lastErasedPage), address, |data|, xferSize, !dfuseMassErase)
      ensures Obliging(old(dev.m)) ==>
        && Obliging(dev.m)
        && (Accepted(dev.layout, old(lastErasedPage), address, |data|, xferSize, !dfuseMassErase) ==> r.Return?)
      ensures Confined(dev.layout, old(dev.Memory()), dev.Memory(), address, |data|)
    {
      hide Wrap, Find, WellFormed, Replay, Sound, Confined, Obliging, Kept, AtRest, WritingAt, CanWrite, WriteFrom,
           Allowed, Roomy, Client.Valid;
      DeviceValid();
      RoomySize(dev.layout, address, |data|, xferSize, !dfuseMassErase);
      ConfinedStart(dev.layout, dev.Memory(), address, |data|);
      KeptSame(dev.m);
      var last := WriteableSegment(Wrap(address + |data| + SPACE - 1));
      if last.Exit? {
        return Exit(last.code);
      }
      var written := WriteChunks(address, data, xferSize);
      if written.Exit? {
        return Exit(written.code);
      }
      WritingEnd(dev.layout, old(State()), address, data, |data|, xferSize, !dfuseMassErase, State());
      return Return(0);
    }

    /** Reads an element header, remembers the first address of the file, and finds
        the element's bytes behind the header. */
    method ReadElement(c: Cursor, alt: nat, ghost count: int, saved: bool) returns (r: Outcome<Element>)
      requires c.Valid() && count > 0 && WalkElements(c.Rest(), alt, count).ending != Negative
      modifies c, this`dfuseAddress
      ensures c.Valid()
      ensures r.Return? ==>
        var data := old(c.Rest());
        && Heads(r.value, data, alt, count) && c.Rest() == data[ELEMENT_SIZE..]
        && dfuseAddress == (if saved then old(dfuseAddress) else r.value.address)
      ensures ExitsAs(r, WalkElements(old(c.Rest()), alt, count).ending)
    {
      hide Quad, WalkElements, Signed, Heads;
      ghost var data := c.Rest();
      CorruptHeader(data, alt, count);
      var header := c.Memcpy(ELEMENT_SIZE);
      if header.Exit? {
        return Exit(header.code);
      }
      assert header.value[..4] == data[..4] && header.value[4..] == data[4..8];
      var address := Quad(header.value[..4]);
      var size := Signed(Quad(header.value[4..]));
      if !saved {
        dfuseAddress := address;
      }
      /* sanity check */
      if size > c.rem {
        return Exit(EX_SOFTWARE);
      }
      HeadsRead(data, alt, count, size);
      var e := Element(alt, address, c.bytes[c.data..c.data + size]);
      assert e.bytes == data[ELEMENT_SIZE..ELEMENT_SIZE + size];
      return Return(e);
    }

    /** Writes an element if its image is for this alternate setting. */
    method WriteSelected(e: Element, altsetting: nat, xferSize: nat, ghost w: Walk,
                         ghost s: Progress, ghost all: seq<Element>, ghost done: seq<Element>)
      returns (r: Outcome<int>, ghost now: seq<Element>)
      requires Valid() && AtRest(dev.m)
      requires NextFits(w, altsetting, all, done) && w.elements != [] && w.elements[0] == e
      requires Whole(s) && AllRoomy(dev.layout, all, xferSize, !dfuseMassErase)
      requires Done(dev.layout, s, done, xferSize, !dfuseMassErase, State())
      requires FileConfined(dev.layout, s.flash, dev.Memory(), all)
      modifies dev, this`lastErasedPage
      ensures r.Exit? ==> r.code == EX_IOERR
      ensures Valid()
      ensures Kept(old(dev.m), dev.m)
      ensures FileConfined(dev.layout, s.flash, dev.Memory(), all)
      ensures r.Return? ==>
        && r.value == 0 && AtRest(dev.m)
        && now == (if e.alt == altsetting then done + [e] else done)
        && Done(dev.layout, s, now, xferSize, !dfuseMassErase, State())
      ensures Obliging(old(dev.m)) ==>
        Obliging(dev.m) && (AllowedAll(dev.layout, s, all, xferSize, !dfuseMassErase) ==> r.Return?)
    {
      hide Replay, WellFormed, Done, AllRoomy, FileConfined, Find, Sound, Confined, ForAlt, Obliging, Accepted,
           AllowedAll, Roomy, WriteFrom, Client.Valid;
      DeviceValid();
      AllRoomySize(dev.layout, all, xferSize, !dfuseMassErase);
      now := done;
      r := Return(0);
      if e.alt == altsetting {
        NextElement(w, altsetting, all, done);
        NextElementRoomy(dev.layout, all, done, e, xferSize, !dfuseMassErase);
        ghost var g, mid := dev.Memory(), State();
        if AllowedAll(dev.layout, s, all, xferSize, !dfuseMassErase) {
          NextElementAllowed(dev.layout, s, all, done, e, xferSize, !dfuseMassErase, mid);
        }
        r := DnloadElement(e.address, e.bytes, xferSize);
        ConfinedFile(dev.layout, s.flash, g, dev.Memory(), all, |done|);
        if r.Return? {
          DoneStep(dev.layout, s, done, e, xferSize, !dfuseMassErase, mid, State());
          now := done + [e];
        }
      }
    }

    /** Reads the next element of an image and writes it if it is wanted. */
    method DnloadNext(c: Cursor, alt: nat, ghost count: int, altsetting: nat, xferSize: nat, saved: bool,
                      ghost s: Progress, ghost all: seq<Element>, ghost done: seq<Element>)
      returns (r: Outcome<int>, ghost now: seq<Element>)
      requires Valid() && AtRest(dev.m) && c.Valid() && count > 0
      requires NextFits(WalkElements(c.Rest(), alt, count), altsetting, all, done)
      requires Whole(s) && AllRoomy(dev.layout, all, xferSize, !dfuseMassErase)
      requires Done(dev.layout, s, done, xferSize, !dfuseMassErase, State())
      requires FileConfined(dev.layout, s.flash, dev.Memory(), all)
      modifies dev, c, this`lastErasedPage, this`dfuseAddress
      ensures Valid() && c.Valid()
      ensures Kept(old(dev.m), dev.m)
      ensures FileConfined(dev.layout, s.flash, dev.Memory(), all)
      ensures r.Return? ==>
        var w := WalkElements(old(c.Rest()), alt, count);
        && r.value == 0 && AtRest(dev.m)
        && w.elements != [] && dfuseAddress == (if saved then old(dfuseAddress) else w.elements[0].address)
        && SameWalk(w, done, WalkElements(c.Rest(), alt, count - 1), now, altsetting)
        && Done(dev.layout, s, now, xferSize, !dfuseMassErase, State())
      ensures Obliging(old(dev.m)) ==>
        && Obliging(dev.m)
        && (AllowedAll(dev.layout, s, all, xferSize, !dfuseMassErase) ==>
              ExitsAs(r, WalkElements(old(c.Rest()), alt, count).ending))
      ensures MayExit(r, WalkElements(old(c.Rest()), alt, count).ending)
    {
      hide Replay, WellFormed, Done, AllRoomy, FileConfined, Whole, Find, Sound, WalkElements, ForAlt, NextFits,
           SameWalk, Heads, Obliging, AllowedAll, Cursor.Valid, Cursor.Rest, AtRest, Kept, Client.Valid;
      KeptSame(dev.m);
      now := done;
      ghost var data := c.Rest();
      ghost var w := WalkElements(data, alt, count);
      StillNonNegative(w, altsetting, all, done);
      var read := ReadElement(c, alt, count, saved);
      if read.Exit? {
        return Exit(read.code), now;
      }
      var e := read.value;
      HeadFacts(e, data, alt, count);
      r, now := WriteSelected(e, altsetting, xferSize, w, s, all, done);
      if r.Return? {
        var advanced := c.Memcpy(|e.bytes|);
        HeadLeft(e, data, alt, count, done, now, altsetting);
      }
    }

    lemma StillNonNegative(w: Walk, altsetting: nat, all: seq<Element>, done: seq<Element>)
      requires NextFits(w, altsetting, all, done)
      ensures w.ending != Negative
    {
    }

    /** Writes the elements of one image. */
    method DnloadElements(c: Cursor, alt: nat, count: int, altsetting: nat, xferSize: nat, saved: bool,
                          ghost s: Progress, ghost all: seq<Element>, ghost done: seq<Element>)
      returns (r: Outcome<int>, savedNow: bool, ghost now: seq<Element>)
      requires Valid() && AtRest(dev.m) && c.Valid()
      requires NextFits(WalkElements(c.Rest(), alt, count), altsetting, all, done)
      requires Whole(s) && AllRoomy(dev.layout, all, xferSize, !dfuseMassErase)
      requires Done(dev.layout, s, done, xferSize, !dfuseMassErase, State())
      requires FileConfined(dev.layout, s.flash, dev.Memory(), all)
      modifies dev, c, this`lastErasedPage, this`dfuseAddress
      ensures Valid() && c.Valid()
      ensures Kept(old(dev.m), dev.m)
      ensures FileConfined(dev.layout, s.flash, dev.Memory(), all)
      ensures r.Return? ==>
        var w := WalkElements(old(c.Rest()), alt, count);
        && r.value == 0 && AtRest(dev.m)
        && w.ending == Complete && c.Rest() == w.rest && now == done + ForAlt(w.elements, altsetting)
        && savedNow == (saved || w.elements != [])
        && dfuseAddress == (if saved || w.elements == [] then old(dfuseAddress) else w.elements[0].address)
        && Done(dev.layout, s, now, xferSize, !dfuseMassErase, State())
      ensures Obliging(old(dev.m)) ==>
        && Obliging(dev.m)
        && (AllowedAll(dev.layout, s, all, xferSize, !dfuseMassErase) ==>
              ExitsAs(r, WalkElements(old(c.Rest()), alt, count).ending))
      ensures MayExit(r, WalkElements(old(c.Rest()), alt, count).ending)
    {
      hide Replay, WellFormed, Done, AllRoomy, FileConfined, Whole, Find, Sound, SameWalk, NextFits, ForAlt,
           WalkElements, AtRest, Obliging, AllowedAll;
      ghost var w0 := WalkElements(c.Rest(), alt, count);
      savedNow, now := saved, done;
      WalkSameStart(w0, done, altsetting);
      var element := 1;
      while element <= count
        invariant 1 <= element && (element == 1 || element <= count + 1)
        invariant Valid() && AtRest(dev.m) && c.Valid()
        invariant Kept(old(dev.m), dev.m)
        invariant Obliging(old(dev.m)) ==> Obliging(dev.m)
        invariant FileConfined(dev.layout, s.flash, dev.Memory(), all)
        invariant SameWalk(w0, done, WalkElements(c.Rest(), alt, count - element + 1), now, altsetting)
        invariant Done(dev.layout, s, now, xferSize, !dfuseMassErase, State())
        invariant element == 1 ==> savedNow == saved && dfuseAddress == old(dfuseAddress) && c.Rest() == old(c.Rest())
        invariant element > 1 ==> savedNow && w0.elements != []
        invariant element > 1 ==> dfuseAddress == (if saved then old(dfuseAddress) else w0.elements[0].address)
        decreases count - element
      {
        ghost var rest := c.Rest();
        SameFits(w0, done, WalkElements(rest, alt, count - element + 1), now, altsetting, all);
        SameEnding(w0, done, WalkElements(rest, alt, count - element + 1), now, altsetting);
        ghost var before := now;
        r, now := DnloadNext(c, alt, count - element + 1, altsetting, xferSize, savedNow, s, all, now);
        if r.Exit? {
          return;
        }
        SameJoin(w0, done, WalkElements(rest, alt, count - element + 1), before,
                 WalkElements(c.Rest(), alt, count - element), now, altsetting);
        savedNow := true;
        element := element + 1;
      }
      WalkNothing(c.Rest(), alt, count - element + 1);
      SameEnd(w0, done, WalkElements(c.Rest(), alt, count - element + 1), now, altsetting);
      r := Return(0);
    }

    /** Reads a target prefix: its alternate setting and number of elements. */
    method ReadTarget(c: Cursor) returns (r: Outcome<(nat, int)>)
      requires c.Valid()
      modifies c
      ensures c.Valid()
      ensures r.Return? ==>
        var data := old(c.Rest());
        && |data| >= TARGET_SIZE && data[..6] == TARGET_SIGNATURE && c.Rest() == data[TARGET_SIZE..]
        && r.value == (ToInt(data[6]), Signed(Quad(data[270..274])))
      ensures r.Exit? ==>
        var data := old(c.Rest());
        r.code == EX_IOERR && (|data| < TARGET_SIZE || data[..6] != TARGET_SIGNATURE)
    {
      hide Quad, ToInt;
      ghost var data := c.Rest();
      var prefix := c.Memcpy(TARGET_SIZE);
      if prefix.Exit? {
        return Exit(prefix.code);
      }
      var p := prefix.value;
      assert p[..6] == data[..6] && p[270..] == data[270..274];
      if p[..6] != TARGET_SIGNATURE {
        return Exit(EX_IOERR);
      }
      return Return((ToInt(p[6]), Signed(Quad(p[270..]))));
    }

    /** Reads one image and writes its elements. */
    method DnloadImage(c: Cursor, ghost count: nat, altsetting: nat, xferSize: nat, saved: bool,
                       ghost s: Progress, ghost all: seq<Element>, ghost done: seq<Element>)
      returns (r: Outcome<int>, savedNow: bool, ghost now: seq<Element>)
      requires Valid() && AtRest(dev.m) && c.Valid() && count > 0
      requires NextFits(WalkImages(c.Rest(), count), altsetting, all, done)
      requires Whole(s) && AllRoomy(dev.layout, all, xferSize, !dfuseMassErase)
      requires Done(dev.layout, s, done, xferSize, !dfuseMassErase, State())
      requires FileConfined(dev.layout, s.flash, dev.Memory(), all)
      modifies dev, c, this`lastErasedPage, this`dfuseAddress
      ensures Valid() && c.Valid()
      ensures Kept(old(dev.m), dev.m)
      ensures FileConfined(dev.layout, s.flash, dev.Memory(), all)
      ensures r.Return? ==>
        && r.value == 0 && AtRest(dev.m)
        && SameWalk(WalkImages(old(c.Rest()), count), done, WalkImages(c.Rest(), count - 1), now, altsetting)
        && FirstAddress(WalkImages(old(c.Rest()), count).elements, WalkImages(c.Rest(), count - 1).elements,
                        saved, savedNow, old(dfuseAddress), dfuseAddress)
        && Done(dev.layout, s, now, xferSize, !dfuseMassErase, State())
      ensures Obliging(old(dev.m)) ==>
        && Obliging(dev.m)
        && (AllowedAll(dev.layout, s, all, xferSize, !dfuseMassErase) ==>
              ExitsAs(r, WalkImages(old(c.Rest()), count).ending))
      ensures MayExit(r, WalkImages(old(c.Rest()), count).ending)
    {
      hide Replay, WellFormed, Done, AllRoomy, FileConfined, Whole, Find, Sound, SameWalk, NextFits, ForAlt,
           WalkElements, WalkImages, AtRest, Quad, ToInt, Signed, FirstAddress, Obliging, AllowedAll;
      ghost var data := c.Rest();
      CorruptTarget(data, count);
      var target := ReadTarget(c);
      if target.Exit? {
        return Exit(target.code), saved, done;
      }
      var (alt, count') := target.value;
      ghost var e := WalkElements(c.Rest(), alt, count');
      ImageEntered(data, count, alt, count', altsetting, all, done);
      ghost var before := dfuseAddress;
      r, savedNow, now := DnloadElements(c, alt, count', altsetting, xferSize, saved, s, all, done);
      if r.Return? {
        ImageLeft(data, count, alt, count', altsetting, done, saved, savedNow, before, dfuseAddress);
      }
    }

    /** Reads the file prefix: the number of images. */
    method ReadPrefix(c: Cursor) returns (r: Outcome<nat>)
      requires c.Valid() && c.data == 0
      modifies c
      ensures c.Valid()
      ensures r.Return? ==>
        && |c.bytes| >= PREFIX_SIZE + TARGET_SIZE + ELEMENT_SIZE
        && c.bytes[..5] == DFUSE_SIGNATURE && c.bytes[5] == 0x01
        && r.value == ToInt(c.bytes[10])
        && c.Rest() == c.bytes[PREFIX_SIZE..]
        && WalkContainer(c.bytes) == WalkImages(c.Rest(), r.value)
      ensures ExitsAs(r, WalkContainer(c.bytes).ending)
    {
      hide ToInt;
      if c.rem < PREFIX_SIZE + TARGET_SIZE + ELEMENT_SIZE {
        return Exit(EX_SOFTWARE);
      }
      var prefix := c.Memcpy(PREFIX_SIZE);
      assert prefix.value[..5] == c.bytes[..5];
      if prefix.value[..5] != DFUSE_SIGNATURE {
        return Exit(EX_IOERR);
      }
      if prefix.value[5] != 0x01 {
        return Exit(EX_IOERR);
      }
      return Return(ToInt(prefix.value[10]));
    }

    /** Writes the images one after the other. */
    method DnloadImages(c: Cursor, targets: nat, altsetting: nat, xferSize: nat,
                        ghost s: Progress, ghost all: seq<Element>)
      returns (r: Outcome<int>)
      requires Valid() && AtRest(dev.m) && c.Valid()
      requires NextFits(WalkImages(c.Rest(), targets), altsetting, all, [])
      requires Whole(s) && AllRoomy(dev.layout, all, xferSize, !dfuseMassErase)
      requires Done(dev.layout, s, [], xferSize, !dfuseMassErase, State())
      requires FileConfined(dev.layout, s.flash, dev.Memory(), all)
      modifies dev, c, this`lastErasedPage, this`dfuseAddress
      ensures Valid()
      ensures Kept(old(dev.m), dev.m)
      ensures FileConfined(dev.layout, s.flash, dev.Memory(), all)
      ensures r.Return? ==>
        var w := WalkImages(old(c.Rest()), targets);
        && r.value == 0 && AtRest(dev.m)
        && w.ending == Complete
        && Done(dev.layout, s, ForAlt(w.elements, altsetting), xferSize, !dfuseMassErase, State())
        && dfuseAddress == (if w.elements == [] then old(dfuseAddress) else w.elements[0].address)
      ensures Obliging(old(dev.m)) ==>
        && Obliging(dev.m)
        && (AllowedAll(dev.layout, s, all, xferSize, !dfuseMassErase) ==>
              ExitsAs(r, WalkImages(old(c.Rest()), targets).ending))
      ensures MayExit(r, WalkImages(old(c.Rest()), targets).ending)
    {
      hide Replay, WellFormed, Done, AllRoomy, FileConfined, Whole, Find, Sound, SameWalk, NextFits, ForAlt,
           WalkImages, AtRest, FirstAddress, Obliging, AllowedAll;
      ghost var w0 := WalkImages(c.Rest(), targets);
      ghost var now: seq<Element> := [];
      WalkSameStart(w0, [], altsetting);
      FirstAddressStart(w0.elements, dfuseAddress);
      var saved := false;
      var image := 1;
      ghost var left := targets;
      while image <= targets
        invariant 1 <= image <= targets + 1 && left == targets + 1 - image
        invariant Valid() && AtRest(dev.m) && c.Valid()
        invariant Kept(old(dev.m), dev.m)
        invariant Obliging(old(dev.m)) ==> Obliging(dev.m)
        invariant FileConfined(dev.layout, s.flash, dev.Memory(), all)
        invariant SameWalk(w0, [], WalkImages(c.Rest(), left), now, altsetting)
        invariant Done(dev.layout, s, now, xferSize, !dfuseMassErase, State())
        invariant FirstAddress(w0.elements, WalkImages(c.Rest(), left).elements,
                               false, saved, old(dfuseAddress), dfuseAddress)
        decreases left
      {
        ghost var w, before := WalkImages(c.Rest(), left), now;
        ghost var savedBefore, addressBefore := saved, dfuseAddress;
        SameFits(w0, [], w, now, altsetting, all);
        SameEnding(w0, [], w, now, altsetting);
        r, saved, now := DnloadImage(c, left, altsetting, xferSize, saved, s, all, now);
        if r.Exit? {
          return;
        }
        left := left - 1;
        SameJoin(w0, [], w, before, WalkImages(c.Rest(), left), now, altsetting);
        FirstAddressStep(w0.elements, w.elements, WalkImages(c.Rest(), left).elements, false, old(dfuseAddress),
                         savedBefore, addressBefore, saved, dfuseAddress);
        image := image + 1;
      }
      WalkNoImages(c.Rest());
      SameEnd(w0, [], WalkImages(c.Rest(), 0), now, altsetting);
      assert now == ForAlt(w0.elements, altsetting);
      FirstAddressEnd(w0.elements, saved, old(dfuseAddress), dfuseAddress);
      r := Return(0);
    }

    /** Goes over the file prefix. */
    method OpenContainer(payload: seq<bv8>) returns (r: Outcome<nat>, c: Cursor)
      ensures fresh(c) && c.Valid()
      ensures r.Return? ==> WalkContainer(payload) == WalkImages(c.Rest(), r.value)
      ensures ExitsAs(r, WalkContainer(payload).ending)
    {
      hide WalkContainer, WalkImages;
      c := new Cursor(payload);
      r := ReadPrefix(c);
    }

    /** Parses a DfuSe file and downloads its contents to the device. */
    method DoDfuseDnload(payload: seq<bv8>, altsetting: nat, xferSize: nat) returns (r: Outcome<int>)
      requires Valid() && AtRest(dev.m)
      requires var w := WalkContainer(payload);
               w.ending != Negative && AllRoomy(dev.layout, ForAlt(w.elements, altsetting), xferSize, !dfuseMassErase)
      modifies dev, this`lastErasedPage, this`dfuseAddress
      ensures Valid()
      ensures Kept(old(dev.m), dev.m)
      ensures FileConfined(dev.layout, old(dev.Memory()), dev.Memory(),
                           ForAlt(WalkContainer(payload).elements, altsetting))
      ensures r.Return? ==>
        var w := WalkContainer(payload);
        && r.value == 0 && AtRest(dev.m)
        && w.ending == Complete
        && Done(dev.layout, old(State()), ForAlt(w.elements, altsetting), xferSize, !dfuseMassErase, State())
        && dfuseAddress == (if w.elements == [] then old(dfuseAddress) else w.elements[0].address)
      ensures Obliging(old(dev.m)) ==>
        var w := WalkContainer(payload);
        && Obliging(dev.m)
        && (AllowedAll(dev.layout, old(State()), ForAlt(w.elements, altsetting), xferSize, !dfuseMassErase) ==>
              ExitsAs(r, w.ending))
      ensures MayExit(r, WalkContainer(payload).ending)
    {
      hide Replay, WellFormed, Done, AllRoomy, FileConfined, Find, Sound, NextFits, ForAlt, WalkImages, AtRest, ToInt,
           Obliging, AllowedAll, WalkContainer, Kept, ExitsAs, MayExit, Whole, Client.Valid;
      DeviceValid();
      ghost var w := WalkContainer(payload);
      AllRoomySize(dev.layout, ForAlt(w.elements, altsetting), xferSize, !dfuseMassErase);
      KeptSame(dev.m);
      NothingConfined(dev.layout, dev.Memory(), ForAlt(w.elements, altsetting));
      var targets, c := OpenContainer(payload);
      if targets.Exit? {
        r := Exit(targets.code);
        SameExit(targets, r, w.ending);
        return;
      }
      assert WalkImages(c.Rest(), targets.value) == w;
      r := DnloadOpened(c, targets.value, altsetting, xferSize);
    }

    /** Writes the images behind a file prefix. */
    method DnloadOpened(c: Cursor, targets: nat, altsetting: nat, xferSize: nat) returns (r: Outcome<int>)
      requires Valid() && AtRest(dev.m) && c.Valid()
      requires var w := WalkImages(c.Rest(), targets);
               w.ending != Negative && AllRoomy(dev.layout, ForAlt(w.elements, altsetting), xferSize, !dfuseMassErase)
      modifies dev, c, this`lastErasedPage, this`dfuseAddress
      ensures Valid()
      ensures Kept(old(dev.m), dev.m)
      ensures FileConfined(dev.layout, old(dev.Memory()), dev.Memory(),
                           ForAlt(WalkImages(old(c.Rest()), targets).elements, altsetting))
      ensures r.Return? ==>
        var w := WalkImages(old(c.Rest()), targets);
        && r.value == 0 && AtRest(dev.m)
        && w.ending == Complete
        && Done(dev.layout, old(State()), ForAlt(w.elements, altsetting), xferSize, !dfuseMassErase, State())
        && dfuseAddress == (if w.elements == [] then old(dfuseAddress) else w.elements[0].address)
      ensures Obliging(old(dev.m)) ==>
        var w := WalkImages(old(c.Rest()), targets);
        && Obliging(dev.m)
        && (AllowedAll(dev.layout, old(State()), ForAlt(w.elements, altsetting), xferSize, !dfuseMassErase) ==>
              ExitsAs(r, w.ending))
      ensures MayExit(r, WalkImages(old(c.Rest()), targets).ending)
    {
      hide Replay, WellFormed, Done, AllRoomy, FileConfined, Find, Sound, NextFits, ForAlt, WalkImages, AtRest,
           Obliging, AllowedAll, Kept, ExitsAs, MayExit, Client.Valid;
      DeviceValid();
      ghost var s := State();
      ghost var all := ForAlt(WalkImages(c.Rest(), targets).elements, altsetting);
      AllRoomySize(dev.layout, all, xferSize, !dfuseMassErase);
      NothingConfined(dev.layout, s.flash, all);
      NothingDone(dev.layout, s, xferSize, !dfuseMassErase);
      AllFits(WalkImages(c.Rest(), targets), all, altsetting);
      r := DnloadImages(c, targets, altsetting, xferSize, s, all);
    }

    /** Downloads a raw binary file to an address. */
    method DoBinDnload(payload: seq<bv8>, startAddress: nat, xferSize: nat) returns (r: Outcome<int>)
      requires Valid() && AtRest(dev.m)
      requires Roomy(dev.layout, startAddress, |payload|, xferSize, !dfuseMassErase)
      modifies dev, this`lastErasedPage
      ensures r.Exit? ==> r.code == EX_IOERR
      ensures Valid()
      ensures Kept(old(dev.m), dev.m)
      ensures r.Return? ==>
        && r.value == |payload| && AtRest(dev.m)
        && State() == WriteFrom(dev.layout, old(State()), startAddress, payload, 0, xferSize, !dfuseMassErase)
        && Accepted(dev.layout, old(lastErasedPage), startAddress, |payload|, xferSize, !dfuseMassErase)
      ensures Confined(dev.layout, old(dev.Memory()), dev.Memory(), startAddress, |payload|)
      ensures Obliging(old(dev.m)) ==>
        && Obliging(dev.m)
        && (Accepted(dev.layout, old(lastErasedPage), startAddress, |payload|, xferSize, !dfuseMassErase) ==> r.Return?)
    {
      hide Replay, WellFormed, WriteFrom, Confined, Find, Sound, Obliging, Accepted, Client.Valid;
      r := DnloadElement(startAddress, payload, xferSize);
      if r.Return? {
        r := Return(|payload|);
      }
    }

    /** How much an upload asks for: the given length, else up to the end of the
        segment, else a fixed short length. */
    ghost function UploadLimit(): nat
      requires dev.Valid()
      reads this`dfuseAddress
    {
      if dfuseLength != 0 then dfuseLength
      else if dfuseAddress == 0 then 0x4000
      else if Mapped(dev.layout, dfuseAddress) then
        PageInSegment(dev.layout, dfuseAddress);
        Find(dev.layout, dfuseAddress).value.end + 1 - dfuseAddress
      else 1
    }

    /** Without a length the limit is where the segment of the address ends. */
    lemma LimitEndsSegment()
      requires dev.Valid() && Mapped(dev.layout, dfuseAddress) && dfuseLength == 0 < dfuseAddress
      ensures dfuseAddress + UploadLimit() <= SPACE
      ensures EndsSegment(dev.layout, dfuseAddress, dfuseAddress + UploadLimit())
    {
      hide Sound, WellFormed, Find, Base, PageEnd;
      PageInSegment(dev.layout, dfuseAddress);
      EndInSpace(dev.layout, Find(dev.layout, dfuseAddress).value);
    }

    /** What is needed before the memory map has been parsed. */
    ghost predicate Started(altName: string)
      reads this`lastErasedPage
    {
      && dev.Valid()
      && ParseMap(altName) == dev.layout
      && lastErasedPage < SPACE
    }

    /** Parses the memory map of the interface. */
    method ReadLayout(altName: string) returns (r: Outcome<()>)
      requires Started(altName)
      modifies this`memLayout
      ensures r.Exit? ==> r.code == EX_IOERR
      ensures Started(altName)
      ensures r.Return? ==> Valid()
      ensures r.Return? <==> dev.layout != []
    {
      hide ParseMap;
      memLayout := ParseMemoryLayout(altName);
      if memLayout.head == null {
        return Exit(EX_IOERR);
      }
      return Return(());
    }

    /** Uploads one block and appends it to the file. */
    method UploadNext(transaction: nat, size: nat, out: OutputFile, ghost at: nat) returns (r: Outcome<nat>)
      requires Linked() && dev.m.state in {DfuIdle, UploadIdle}
      requires 2 <= transaction < 0x1_0000 && 0 < size && at == dev.UploadAddress(transaction) <= SPACE
      modifies dev, out
      ensures r.Exit? ==> r.code == EX_IOERR
      ensures Linked()
      ensures Kept(old(dev.m), dev.m)
      ensures dev.Memory() == old(dev.Memory())
      ensures r.Return? ==>
        && dev.m.state in {DfuIdle, UploadIdle}
        && r.value == (if at + size <= SPACE then size else SPACE - at)
        && out.contents == old(out.contents) + dev.Memory().mem[at..at + r.value]
      ensures Obliging(old(dev.m)) ==> Obliging(dev.m) && r.Return?
    {
      hide Replay, WellFormed, Find, Sound, Reference, Machine.UploadBlock, Obliging;
      BlockUploaded(dev.m, transaction % 0x1_0000, size, if at < SPACE then SPACE - at else 0);
      var rc, data := dev.Upload(transaction % 0x1_0000, size);
      if rc < 0 {
        return Exit(EX_IOERR);
      }
      var crc := WriteCrc(out, 0, data);
      return Return(rc);
    }

    lemma NextAddress(transaction: nat, total: nat)
      requires dev.Valid() && transaction >= 2 && total == BlockOffset(transaction, dev.xferSize)
      ensures dev.UploadAddress(transaction) == dev.Memory().pointer + total
    {
      hide BlockOffset, Replay, Sound;
    }

    /** Uploads block after block until a short block or the limit. */
    method UploadBlocks(limit: nat, xferSize: nat, out: OutputFile) returns (r: Outcome<int>)
      requires Linked() && dev.m.state in {DfuIdle, UploadIdle}
      requires xferSize == dev.xferSize && 0 < limit && FewBlocks(limit, xferSize)
      requires dev.Memory().pointer <= SPACE
      modifies dev, out
      ensures r.Exit? ==> r.code == EX_IOERR
      ensures Linked()
      ensures Kept(old(dev.m), dev.m)
      ensures dev.Memory() == old(dev.Memory())
      ensures r.Return? ==>
        var a := dev.Memory().pointer;
        && dev.m.state in {DfuIdle, UploadIdle}
        && r.value == (if a + limit <= SPACE then limit else SPACE - a)
        && out.contents == old(out.contents) + dev.Memory().mem[a..a + r.value]
      ensures Obliging(old(dev.m)) ==> Obliging(dev.m) && r.Return?
    {
      ghost var f := dev.Memory();
      ghost var a := f.pointer;
      NothingUploaded(out.contents, f.mem, a);
      hide Replay, WellFormed, Find, Sound, BlockOffset, DfuDevice.UploadAddress, Obliging, Kept, Uploaded,
           FewBlocks, Client.Valid;
      KeptSame(dev.m);
      var size := xferSize;
      var total := 0;
      var transaction := 2;
      FirstOffset(xferSize);
      while true
        invariant Linked() && dev.m.state in {DfuIdle, UploadIdle}
        invariant Kept(old(dev.m), dev.m)
        invariant dev.Memory() == f
        invariant Obliging(old(dev.m)) ==> Obliging(dev.m)
        invariant size == xferSize && 2 <= transaction && total == BlockOffset(transaction, xferSize)
        invariant total < limit && a + total <= SPACE
        invariant Uploaded(old(out.contents), f.mem, a, total, out.contents)
        decreases limit - total
      {
        if limit - total < size {
          size := limit - total;
        }
        OffsetBound(transaction, xferSize, total, limit);
        NextAddress(transaction, total);
        ghost var m, before := dev.m, out.contents;
        var next := UploadNext(transaction, size, out, a + total);
        KeptJoin(old(dev.m), m, dev.m);
        if next.Exit? {
          return Exit(next.code);
        }
        var rc := next.value;
        NextOffset(transaction, xferSize);
        transaction := transaction + 1;
        UploadedMore(old(out.contents), f.mem, a, total, before, rc, out.contents);
        total := total + rc;
        if rc < size || total >= limit {
          UploadedAll(old(out.contents), f.mem, a, total, out.contents);
          return Return(total);
        }
      }
    }

    /** The device has been told to start from `address`, by a zero-length request, the last
        one but for the polls after it. */
    ghost predicate LeftFor(address: nat)
      requires dev.Valid()
      reads dev
    {
      Left(dev.m) && dev.Memory().pointer == address && SentLast(dev.m.requests, Block(2, []))
    }

    /** The session is over: the device is left for `address` if asked for, else it is idle. */
    ghost predicate Ended(address: nat)
      requires dev.Valid()
      reads dev
    {
      if dfuseLeave then LeftFor(address) else dev.m.state == DfuIdle
    }

    /** Leaves DFU mode: sets the address to start from and ends the session. */
    method Leave() returns (r: Outcome<()>)
      requires Linked() && AtRest(dev.m) && dfuseAddress < SPACE && Leaves(dev.m)
      modifies dev, this`lastErasedPage
      ensures r.Exit? ==> r.code == EX_IOERR
      ensures Linked() && Kept(old(dev.m), dev.m)
      ensures SameMemory(old(dev.Memory()), dev.Memory())
      ensures r.Return? ==> LeftFor(dfuseAddress)
      ensures Obliging(old(dev.m)) ==> Obliging(dev.m) && r.Return?
    {
      hide Replay, WellFormed, Find, Sound, Execute, Obliging, SentLast;
      r := SpecialCommand(dfuseAddress, SetAddress);
      if r.Exit? {
        return;
      }
      ghost var f := dev.Memory();
      LeavingEnds(dev.m, Block(2, []));
      var sent := DnloadChunk([], 2);
      if sent.Exit? {
        return Exit(sent.code);
      }
    }

    /** Back to dfuIDLE, and on out of DFU mode if asked to. */
    method Finish() returns (r: Outcome<()>)
      requires Linked() && dev.m.state in {DfuIdle, DnloadIdle, UploadIdle}
      requires dfuseAddress < SPACE && (dfuseLeave ==> Leaves(dev.m))
      modifies dev, this`lastErasedPage
      ensures r.Exit? ==> r.code == EX_IOERR
      ensures Linked() && Kept(old(dev.m), dev.m)
      ensures SameMemory(old(dev.Memory()), dev.Memory())
      ensures r.Return? ==> Ended(dfuseAddress)
      ensures Obliging(old(dev.m)) ==> Obliging(dev.m) && r.Return?
    {
      hide Replay, WellFormed, Find, Sound, Obliging, SentLast;
      r := dev.AbortToIdle();
      if r.Return? && dfuseLeave {
        r := Leave();
      }
    }

    /** What an upload is refused without: a memory map, and leave to read. */
    ghost predicate MayUpload()
      reads this`dfuseAddress
    {
      dfuseAddress != 0 ==> dev.layout != [] && (dfuseForce || CanRead(dev.layout, dfuseAddress))
    }

    /** Reads device memory into a file. */
    method DoUpload(altName: string, xferSize: nat, out: OutputFile) returns (r: Outcome<int>)
      requires Started(altName) && dev.m.state == DfuIdle
      requires xferSize == dev.xferSize && 0 < UploadLimit() <= 65534 * xferSize
      requires dfuseAddress < SPACE && (dfuseAddress == 0 ==> dev.Memory().pointer <= SPACE)
      requires dfuseLeave ==> Leaves(dev.m)
      requires dfuseForce && dfuseAddress != 0 && dfuseLength == 0 ==> Mapped(dev.layout, dfuseAddress)
      modifies dev, out, this`memLayout, this`lastErasedPage
      ensures r.Exit? ==> r.code == EX_IOERR
      ensures Linked() && Kept(old(dev.m), dev.m)
      ensures SameMemory(old(dev.Memory()), dev.Memory())
      ensures r.Return? ==>
        var a := if dfuseAddress != 0 then dfuseAddress else old(dev.Memory().pointer);
        && 0 <= r.value && a + r.value <= SPACE
        && out.contents == old(out.contents) + dev.Memory().mem[a..a + r.value]
        && (dfuseLength != 0 ==> r.value == if a + dfuseLength <= SPACE then dfuseLength else SPACE - a)
        && (dfuseLength == 0 && dfuseAddress == 0 ==> r.value == if a + 16384 <= SPACE then 16384 else SPACE - a)
        && (dfuseLength == 0 && dfuseAddress != 0 ==> EndsSegment(dev.layout, a, a + r.value))
        && Ended(dfuseAddress)
      ensures r.Return? ==> MayUpload()
      ensures Obliging(old(dev.m)) ==> Obliging(dev.m) && (MayUpload() ==> r.Return?)
    {
      hide Replay, WellFormed, Sound, ParseMap, Execute, Find, Obliging, SentLast, EndsSegment, Mapped, CanRead,
           Client.Ended, Client.LeftFor;
      var uploadLimit := dfuseLength;
      if dfuseAddress != 0 {
        var pointed := PointUpload(altName, uploadLimit);
        if pointed.Exit? {
          return Exit(pointed.code);
        }
        uploadLimit := pointed.value;
      } else if uploadLimit == 0 {
        uploadLimit := 0x4000;
      }
      if dfuseAddress != 0 && dfuseLength == 0 {
        LimitEndsSegment();
      }
      r := UploadAndFinish(uploadLimit, xferSize, out);
    }

    /** Uploads from where the device points, and ends the session. */
    method UploadAndFinish(limit: nat, xferSize: nat, out: OutputFile) returns (r: Outcome<int>)
      requires Linked() && dev.m.state == DfuIdle
      requires xferSize == dev.xferSize && 0 < limit <= 65534 * xferSize
      requires dev.Memory().pointer <= SPACE && dfuseAddress < SPACE && (dfuseLeave ==> Leaves(dev.m))
      modifies dev, out, this`lastErasedPage
      ensures r.Exit? ==> r.code == EX_IOERR
      ensures Linked() && Kept(old(dev.m), dev.m)
      ensures SameMemory(old(dev.Memory()), dev.Memory())
      ensures r.Return? ==>
        var a := old(dev.Memory().pointer);
        && r.value == (if a + limit <= SPACE then limit else SPACE - a)
        && out.contents == old(out.contents) + dev.Memory().mem[a..a + r.value]
        && Ended(dfuseAddress)
      ensures Obliging(old(dev.m)) ==> Obliging(dev.m) && r.Return?
    {
      hide Replay, WellFormed, Sound, Obliging, Client.Ended;
      r := UploadBlocks(limit, xferSize, out);
      if r.Return? {
        var finished := Finish();
        if finished.Exit? {
          return Exit(finished.code);
        }
      }
    }

    /** Points the device at the upload address and finds the limit. */
    method PointUpload(altName: string, length: nat) returns (r: Outcome<nat>)
      requires Started(altName) && dev.m.state == DfuIdle
      requires 0 < dfuseAddress < SPACE && length == dfuseLength
      requires dfuseForce && length == 0 ==> Mapped(dev.layout, dfuseAddress)
      modifies dev, this`memLayout, this`lastErasedPage
      ensures r.Exit? ==> r.code == EX_IOERR
      ensures Linked() && Kept(old(dev.m), dev.m)
      ensures SameMemory(old(dev.Memory()), dev.Memory())
      ensures r.Return? ==>
        && dev.m.state == DfuIdle && dev.Memory().pointer == dfuseAddress
        && r.value == old(UploadLimit()) && (length == 0 ==> Mapped(dev.layout, dfuseAddress))
      ensures r.Return? ==> MayUpload()
      ensures Obliging(old(dev.m)) ==> Obliging(dev.m) && (MayUpload() ==> r.Return?)
    {
      hide Replay, WellFormed, Sound, ParseMap, Execute, Find, Obliging;
      var parsed := ReadLayout(altName);
      if parsed.Exit? {
        return Exit(parsed.code);
      }
      var segment := memLayout.FindSegment(dfuseAddress);
      if !dfuseForce && (segment.None? || !segment.value.Readable()) {
        return Exit(EX_IOERR);
      }
      var uploadLimit := length;
      if uploadLimit == 0 {
        PageInSegment(dev.layout, dfuseAddress);
        uploadLimit := segment.value.end + 1 - dfuseAddress;
      }
      var pointing := SpecialCommand(dfuseAddress, SetAddress);
      if pointing.Exit? {
        return Exit(pointing.code);
      }
      var idle := dev.AbortToIdle();
      if idle.Exit? {
        return Exit(idle.code);
      }
      return Return(uploadLimit);
    }

    /** What a download is asked to write: a raw file at the given address, or the
        elements of a container for this alternate setting. */
    ghost function Wanted(payload: seq<bv8>, altsetting: nat): seq<Element>
      reads this`dfuseAddress
    {
      if dfuseAddress != 0 then [Element(altsetting, dfuseAddress, payload)]
      else ForAlt(WalkContainer(payload).elements, altsetting)
    }

    /** Where a device is started that has been downloaded to: at the given address, else at that
        of the first element of the container, whatever its setting. */
    ghost function StartOf(payload: seq<bv8>): nat
      reads this`dfuseAddress
    {
      if dfuseAddress != 0 then dfuseAddress
      else
        var elements := WalkContainer(payload).elements;
        if elements == [] then 0 else elements[0].address
    }

    /** A mass erase, if asked for. */
    method MassEraseFirst() returns (r: Outcome<()>)
      requires Valid() && dev.m.state == DfuIdle
      modifies dev, this`lastErasedPage
      ensures r.Exit? ==> r.code == EX_IOERR
      ensures Valid() && Kept(old(dev.m), dev.m)
      ensures lastErasedPage == old(lastErasedPage)
      ensures r.Return? ==>
        AtRest(dev.m) && dev.Memory() == Prepared(dev.layout, old(dev.Memory()), dfuseMassErase)
      ensures r.Return? && dfuseMassErase ==> dfuseForce
      ensures !dfuseMassErase ==> r.Return?
      ensures Obliging(old(dev.m)) ==> Obliging(dev.m) && (dfuseForce ==> r.Return?)
    {
      hide Replay, WellFormed, Sound, Find, EraseAll, Obliging;
      if dfuseMassErase {
        if !dfuseForce {
          return Exit(EX_IOERR);
        }
        r := SpecialCommand(0, MassErase);
      } else {
        r := Return(());
      }
    }

    /** A memory map, no read unprotect, and force for a mass erase. */
    ghost predicate Permitted()
    {
      dev.layout != [] && !dfuseUnprotect && (dfuseMassErase ==> dfuseForce)
    }

    /** A read unprotect ends the program with 0, and with that command sent to the device; without
        force it is refused like anything else. */
    ghost predicate Unprotected<T(!new)>(r: Outcome<T>)
      reads dev
    {
      && (r == Exit(0) ==> dfuseUnprotect && dfuseForce && dev.m.pending == [Block(0, [0x92])])
      && (r.Exit? && dfuseUnprotect ==> r.code in {0, EX_IOERR})
    }

    /** What a download is refused without: a file of the kind the options ask for,
        whole, and leave to write all of it. */
    ghost predicate MayDownload(payload: seq<bv8>, bcdDFU: bv16, altsetting: nat, xferSize: nat)
      requires dev.Valid() && 0 < xferSize
      reads this`dfuseAddress, this`lastErasedPage, dev
    {
      && FileOfKind(payload, bcdDFU, dfuseAddress)
      && AllowedAll(dev.layout, Before(), Wanted(payload, altsetting), xferSize, !dfuseMassErase)
    }

    /** The program and the device agree to all that is wanted, as things are now. */
    ghost predicate Consented(payload: seq<bv8>, altsetting: nat, xferSize: nat)
      requires dev.Valid() && 0 < xferSize
      reads this`dfuseAddress, this`lastErasedPage, dev
    {
      AllowedAll(dev.layout, State(), Wanted(payload, altsetting), xferSize, !dfuseMassErase)
    }

    /** What a download starts from: after a mass erase, if asked for. */
    ghost function Before(): (s: Progress)
      requires dev.Valid()
      reads this`lastErasedPage, dev
      ensures Whole(s)
    {
      Progress(Prepared(dev.layout, dev.Memory(), dfuseMassErase), lastErasedPage)
    }

    /** Writes a raw file or a container. */
    method DnloadWanted(payload: seq<bv8>, bcdDFU: bv16, altsetting: nat, xferSize: nat) returns (r: Outcome<int>)
      requires Valid() && AtRest(dev.m) && dfuseAddress < SPACE
      requires dfuseAddress == 0 ==> WalkContainer(payload).ending != Negative
      requires AllRoomy(dev.layout, Wanted(payload, altsetting), xferSize, !dfuseMassErase)
      modifies dev, this`lastErasedPage, this`dfuseAddress
      ensures r.Exit? ==> r.code == EX_IOERR || (old(dfuseAddress) == 0 && MayExit(r, WalkContainer(payload).ending))
      ensures Valid() && Kept(old(dev.m), dev.m)
      ensures FileConfined(dev.layout, old(dev.Memory()), dev.Memory(), old(Wanted(payload, altsetting)))
      ensures r.Return? ==>
        && AtRest(dev.m) && dfuseAddress == old(StartOf(payload)) < SPACE
        && Done(dev.layout, old(State()), old(Wanted(payload, altsetting)), xferSize, !dfuseMassErase, State())
        && (bcdDFU == 0x11a <==> old(dfuseAddress) == 0)
        && r.value == (if old(dfuseAddress) != 0 then |payload| else 0)
        && (old(dfuseAddress) == 0 ==> WalkContainer(payload).ending == Complete)
      ensures Obliging(old(dev.m)) ==>
        && Obliging(dev.m)
        && (FileOfKind(payload, bcdDFU, old(dfuseAddress)) && old(Consented(payload, altsetting, xferSize)) ==>
              r.Return?)
    {
      hide Replay, WellFormed, Sound, Find, FileConfined, Confined, WalkContainer, Obliging, Accepted, AllowedAll,
           AllRoomy, Done, WriteFrom, ForAlt, Roomy, Client.Valid;
      DeviceValid();
      AllRoomySize(dev.layout, Wanted(payload, altsetting), xferSize, !dfuseMassErase);
      ghost var s := State();
      NothingConfined(dev.layout, s.flash, Wanted(payload, altsetting));
      if dfuseAddress != 0 {
        if bcdDFU == 0x11a {
          return Exit(EX_IOERR);
        }
        ghost var e := Element(altsetting, dfuseAddress, payload);
        OneRoomy(dev.layout, e, xferSize, !dfuseMassErase);
        r := DoBinDnload(payload, dfuseAddress, xferSize);
        OneConfined(dev.layout, s.flash, dev.Memory(), e);
        OneDone(dev.layout, s, e, xferSize, !dfuseMassErase, State());
      } else {
        if bcdDFU != 0x11a {
          return Exit(EX_IOERR);
        }
        ContainerAddresses(payload);
        r := DoDfuseDnload(payload, altsetting, xferSize);
      }
    }

    /** What precedes a download: the memory map, a read unprotect, which ends the program,
        and a mass erase. */
    method BeginDnload(altName: string) returns (r: Outcome<()>)
      requires Started(altName) && dev.m.state == DfuIdle
      modifies dev, this`memLayout, this`lastErasedPage
      ensures dev.m.legal == old(dev.m.legal)
      ensures !dfuseMassErase && !dfuseUnprotect ==> dev.Memory() == old(dev.Memory())
      ensures r.Return? ==>
        Valid() && Kept(old(dev.m), dev.m) && AtRest(dev.m) && State() == old(Before()) && Permitted()
      ensures Unprotected(r)
      ensures r.Exit? ==> r.code == EX_IOERR || dfuseUnprotect
      ensures Obliging(old(dev.m)) ==>
        && Obliging(dev.m) && (Permitted() ==> r.Return?)
        && (dev.layout != [] && dfuseUnprotect && dfuseForce ==> r == Exit(0))
    {
      hide Replay, WellFormed, Sound, Find, ParseMap, EraseAll, Obliging;
      var parsed := ReadLayout(altName);
      if parsed.Exit? {
        return Exit(parsed.code);
      }
      if dfuseUnprotect {
        if !dfuseForce {
          return Exit(EX_IOERR);
        }
        var unprotected := SpecialCommand(0, ReadUnprotect);
        if unprotected.Exit? {
          return Exit(unprotected.code);
        }
        return Exit(0);
      }
      r := MassEraseFirst();
    }

    /** Downloads a file to the device, as the options say. */
    method DoDnload(altName: string, payload: seq<bv8>, bcdDFU: bv16, altsetting: nat, xferSize: nat)
      returns (r: Outcome<int>)
      requires Started(altName) && dev.m.state == DfuIdle && dfuseAddress < SPACE
      requires dfuseAddress == 0 ==> WalkContainer(payload).ending != Negative
      requires AllRoomy(dev.layout, Wanted(payload, altsetting), xferSize, !dfuseMassErase)
      requires dfuseLeave ==> Leaves(dev.m)
      modifies dev, this`memLayout, this`lastErasedPage, this`dfuseAddress
      ensures dev.m.legal == old(dev.m.legal)
      ensures !dfuseMassErase && !dfuseUnprotect ==>
        FileConfined(dev.layout, old(dev.Memory()), dev.Memory(), old(Wanted(payload, altsetting)))
      ensures r.Return? ==>
        && Linked() && dfuseAddress == old(StartOf(payload))
        && Downloaded(old(Before()), old(Wanted(payload, altsetting)), xferSize)
        && Ended(old(StartOf(payload)))
        && Permitted()
        && (bcdDFU == 0x11a <==> old(dfuseAddress) == 0)
        && r.value == (if old(dfuseAddress) != 0 then |payload| else 0)
      ensures r.Return? ==>
        var wanted, last := old(Wanted(payload, altsetting)), old(lastErasedPage);
        Suited(dev.layout, wanted, xferSize, !dfuseMassErase, last) ==>
          (Overlaid(dev.layout, old(Before()).flash, dev.Memory(), wanted, !dfuseMassErase) <==>
             Harmless(dev.layout, wanted, !dfuseMassErase, last))
      ensures Obliging(old(dev.m)) ==>
        && Obliging(dev.m)
        && (Permitted() && old(MayDownload(payload, bcdDFU, altsetting, xferSize)) ==> r.Return?)
      ensures Unprotected(r)
      ensures r.Exit? ==>
        r.code == EX_IOERR || dfuseUnprotect || (old(dfuseAddress) == 0 && MayExit(r, WalkContainer(payload).ending))
      ensures Obliging(old(dev.m)) && dev.layout != [] && dfuseUnprotect && dfuseForce ==> r == Exit(0)
    {
      PreparedBlank(dev.layout, dev.Memory(), dfuseMassErase);
      hide Replay, WellFormed, Sound, Find, ParseMap, EraseAll, Overlaid, WalkContainer, ForAlt, FileConfined,
           FileOfKind, Obliging, Kept, AtRest, AllowedAll, AllRoomy, WriteAll, Suited, Harmless, Prepared, SameMemory,
           Leaves, Client.Wanted, Client.Downloaded, Client.Valid, AllBlank, Whole;
      ghost var before, wanted := Before(), Wanted(payload, altsetting);
      NothingConfined(dev.layout, dev.Memory(), wanted);
      var begun := BeginDnload(altName);
      if begun.Exit? {
        return Exit(begun.code);
      }
      r := DnloadAndFinish(payload, bcdDFU, altsetting, xferSize);
      if r.Return? {
        OverlayOutcome(before, wanted, xferSize);
      }
    }

    /** Writes what is wanted and ends the session. */
    method DnloadAndFinish(payload: seq<bv8>, bcdDFU: bv16, altsetting: nat, xferSize: nat) returns (r: Outcome<int>)
      requires Valid() && AtRest(dev.m) && dfuseAddress < SPACE
      requires dfuseAddress == 0 ==> WalkContainer(payload).ending != Negative
      requires AllRoomy(dev.layout, Wanted(payload, altsetting), xferSize, !dfuseMassErase)
      requires dfuseLeave ==> Leaves(dev.m)
      modifies dev, this`lastErasedPage, this`dfuseAddress
      ensures r.Exit? ==> r.code == EX_IOERR || (old(dfuseAddress) == 0 && MayExit(r, WalkContainer(payload).ending))
      ensures Linked() && Kept(old(dev.m), dev.m)
      ensures FileConfined(dev.layout, old(dev.Memory()), dev.Memory(), old(Wanted(payload, altsetting)))
      ensures r.Return? ==>
        && dfuseAddress == old(StartOf(payload))
        && Downloaded(old(State()), old(Wanted(payload, altsetting)), xferSize)
        && Ended(old(StartOf(payload)))
        && (bcdDFU == 0x11a <==> old(dfuseAddress) == 0)
        && r.value == (if old(dfuseAddress) != 0 then |payload| else 0)
      ensures Obliging(old(dev.m)) ==>
        && Obliging(dev.m)
        && (FileOfKind(payload, bcdDFU, old(dfuseAddress)) && old(Consented(payload, altsetting, xferSize)) ==>
              r.Return?)
    {
      assert 0 < xferSize;
      hide Replay, WellFormed, Sound, Find, WalkContainer, ForAlt, FileConfined, FileOfKind, Obliging, AllowedAll,
           AllRoomy, WriteAll, SameMemory, Client.Wanted;
      ghost var s, wanted := State(), Wanted(payload, altsetting);
      r := DnloadWanted(payload, bcdDFU, altsetting, xferSize);
      if r.Exit? {
        return;
      }
      ghost var written := dev.Memory();
      var finished := Finish();
      ConfinedSame(dev.layout, s.flash, written, dev.Memory(), wanted);
      if finished.Exit? {
        return Exit(finished.code);
      }
    }

    /** The memory holds what writing these elements leads to, and all of it was agreed to. */
    ghost predicate Downloaded(before: Progress, wanted: seq<Element>, xferSize: nat)
      requires dev.Valid()
      reads dev
    {
      && Whole(before) && 0 < xferSize
      && AllowedAll(dev.layout, before, wanted, xferSize, !dfuseMassErase)
      && SameMemory(WriteAll(dev.layout, before, wanted, xferSize, !dfuseMassErase).flash, dev.Memory())
    }

    /** The whole of what was written is the overlay of the elements exactly when none of
        them harms another. */
    lemma OverlayOutcome(before: Progress, wanted: seq<Element>, xferSize: nat)
      requires dev.Valid() && Sound(before.flash) && Downloaded(before, wanted, xferSize)
      requires dfuseMassErase ==> AllBlank(dev.layout, before.flash)
      ensures Suited(dev.layout, wanted, xferSize, !dfuseMassErase, before.last) ==>
        (Overlaid(dev.layout, before.flash, dev.Memory(), wanted, !dfuseMassErase)
         <==> Harmless(dev.layout, wanted, !dfuseMassErase, before.last))
    {
      hide Overlaid, Harmless, Suited, AllowedAll, AllRoomy, WriteAll, Prepared;
      if Suited(dev.layout, wanted, xferSize, !dfuseMassErase, before.last) {
        var written := WriteAll(dev.layout, before, wanted, xferSize, !dfuseMassErase).flash;
        OverlayExact(dev.layout, before, wanted, xferSize, !dfuseMassErase);
        OverlaidSameMemory(dev.layout, before.flash, written, dev.Memory(), wanted, !dfuseMassErase);
      }
    }

    /** Downloads a raw file and uploads the same range: the file comes back. */
    method DownloadThenUpload(altName: string, payload: seq<bv8>, xferSize: nat, out: OutputFile)
      returns (r: Outcome<int>)
      requires Started(altName) && dev.m.state == DfuIdle
      requires 0 < dfuseAddress < SPACE && 0 < |payload| == dfuseLength <= 65534 * xferSize
      requires !dfuseLeave && xferSize == dev.xferSize
      requires AllRoomy(dev.layout, [Element(0, dfuseAddress, payload)], xferSize, !dfuseMassErase)
      modifies dev, out, this`memLayout, this`lastErasedPage, this`dfuseAddress
      ensures dev.m.legal == old(dev.m.legal)
      ensures r.Return? ==> r.value == |payload|
      ensures r.Return? ==>
        var wanted := [Element(0, old(dfuseAddress), payload)];
        Suited(dev.layout, wanted, xferSize, !dfuseMassErase, old(lastErasedPage)) ==>
          out.contents == old(out.contents) + payload
      ensures Obliging(old(dev.m)) && Permitted() && old(MayDownload(payload, 0, 0, xferSize)) && old(MayUpload()) ==>
        r.Return?
    {
      hide Replay, WellFormed, Sound, Find, ParseMap, EraseAll, Overlaid, WalkContainer, ForAlt, FileConfined,
           Obliging, AllowedAll, AllRoomy, WriteAll, Suited, Harmless, Prepared;
      ghost var before, e, last := Before(), Element(0, dfuseAddress, payload), lastErasedPage;
      assert Wanted(payload, 0) == [e];
      OneRoomy(dev.layout, e, xferSize, !dfuseMassErase);
      var down := DoDnload(altName, payload, 0, 0, xferSize);
      if down.Exit? {
        return Exit(down.code);
      }
      PayloadThere(before, e, last);
      r := DoUpload(altName, xferSize, out);
    }

    lemma PayloadThere(before: Progress, e: Element, last: int)
      requires dev.Valid() && EndOf(e) <= SPACE
      requires Whole(before)
      ensures Harmless(dev.layout, [e], !dfuseMassErase, last)
      ensures Overlaid(dev.layout, before.flash, dev.Memory(), [e], !dfuseMassErase) ==>
        dev.Memory().mem[e.address..EndOf(e)] == e.bytes
    {
      hide Overlaid;
      OneHarmless(dev.layout, e, !dfuseMassErase, last);
      if Overlaid(dev.layout, before.flash, dev.Memory(), [e], !dfuseMassErase) {
        OverlaidBytes(dev.layout, before.flash, dev.Memory(), e, !dfuseMassErase);
      }
    }
  }

  // ----- leaving DFU mode

  /** After `k` polls the loop that follows the zero-length request still goes on. */
  ghost predicate StillPolling(m: Machine, k: nat)
    decreases k
  {
    k == 0 ||
    var (n, ret, dst) := m.ReadStatus();
    ret >= 0 && dst.bState !in {DnloadIdle, Error, Manifest} && StillPolling(n.Elapse(dst.bwPollTimeout), k - 1)
  }

  lemma {:induction false} IdleForever(m: Machine, k: nat)
    requires m.state == DfuIdle && Broken !in m.script
    ensures StillPolling(m, k)
    decreases k
  {
    hide Machine.ReadStatus, Machine.Elapse;
    if k > 0 {
      QuietPolled(m);
      Slept(m.ReadStatus().0, 0);
      IdleForever(m.ReadStatus().0, k - 1);
    }
  }

  /** A lost transfer ends the loop. */
  lemma {:induction false} LostTransferEnds(m: Machine) returns (k: nat)
    requires m.state == DfuIdle && Broken in m.script
    ensures !StillPolling(m, k)
    decreases |m.script|
  {
    hide Machine.ReadStatus, Machine.Elapse;
    QuietPolled(m);
    var n := m.ReadStatus().0;
    Slept(n, 0);
    if m.Head() == Broken {
      k := 1;
    } else {
      var j := LostTransferEnds(n);
      k := j + 1;
    }
  }

  /** That loop goes on forever exactly when the device comes back from manifestation, is
      done with it at the first poll, and no later transfer is lost: dfuIDLE is not among
      the states the loop stops at. */
  lemma LeavingNeverEnds(m: Machine)
    requires m.state == ManifestSync
    ensures (forall k: nat :: StillPolling(m, k)) <==> !LoopEnds(m)
  {
    hide Machine.ReadStatus, Machine.Elapse;
    ManifestPolled(m);
    var (n, ret, dst) := m.ReadStatus();
    Slept(n, dst.bwPollTimeout);
    if m.tolerant && m.Answer() == Normal {
      if Broken in m.script {
        var j := LostTransferEnds(n);
        assert !StillPolling(m, j + 1);
      } else {
        forall k: nat ensures StillPolling(m, k) {
          if k > 0 {
            IdleForever(n, k - 1);
          }
        }
      }
    } else {
      Stops(m, 1);
    }
  }

  lemma Stops(m: Machine, k: nat)
    requires !StillPolling(m, k)
    ensures !forall j: nat :: StillPolling(m, j)
  {
  }

  lemma LeavingEnds(m: Machine, b: Block)
    requires m.state == DnloadIdle && b.data == [] && Leaves(m)
    ensures var (n, ret) := m.Download(b); ret >= 0 ==> LoopEnds(n)
  {
  }

  /** One poll of the loop after a command, and a sleep at least as long as asked for. */
  lemma CommandPolled(before: Machine, m: Machine)
    requires m.state == DnloadSync && Kept(before, m) && (Obliging(before) ==> Obliging(m))
    ensures var (n, ret, dst) := m.ReadStatus();
            && Kept(before, n)
            && (n.blocks == m.blocks || n.blocks == m.blocks + m.pending)
            && (Obliging(before) ==>
                  && ret >= 0 && Obliging(n)
                  && (!m.asked ==> dst.bState == DnBusy) && (dst.bState != DnBusy ==> dst.bStatus == STATUS_OK))
            && (ret >= 0 && dst.bState != DnBusy && dst.bStatus == STATUS_OK ==>
                  n.state == DnloadIdle && n.blocks == m.blocks + m.pending)
            && forall ms: nat ::
                 var k := n.Elapse(ms);
                 && Kept(before, k) && k.blocks == n.blocks
                 && (Obliging(before) ==> Obliging(k))
                 && (ret >= 0 && dst.bState != DnBusy ==> k == n)
                 && (ret >= 0 && dst.bState == DnBusy && dst.bwPollTimeout <= ms ==>
                       && k.state == DnloadSync && k.pending == m.pending && k.blocks == m.blocks && k.asked
                       && (|k.script| < |m.script| || (|k.script| == |m.script| && !m.asked)))
  {
    hide Machine.ReadStatus, Machine.Elapse, FaultFree;
    BlockPolled(m);
    var n := m.ReadStatus().0;
    forall ms: nat
      ensures var k := n.Elapse(ms);
              && k == n.(state := k.state, poll := k.poll)
              && (n.state == DnBusy && n.poll <= ms ==> k.state == DnloadSync)
              && (n.state != DnBusy && n.state != Manifest ==> k == n)
              && (k.state == Error ==> n.state == Error)
    {
      Slept(n, ms);
    }
  }

  /** One poll of the loop after a chunk or after the end of a transfer. */
  lemma PollFacts(before: Machine, m: Machine)
    requires m == before || m.state == before.state == DnloadSync || Waiting(before, m)
    requires before.state == DnloadSync || (before.state == ManifestSync && LoopEnds(before))
    ensures var (n, ret, dst) := m.ReadStatus();
            var k := n.Elapse(dst.bwPollTimeout);
            && Kept(m, n) && Kept(m, k)
            && n.requests == k.requests == m.requests + [GetStatus]
            && (Obliging(m) ==> ret >= 0 && Obliging(k))
            && (m.state == DnloadSync ==>
                  && (n.blocks == m.blocks || n.blocks == m.blocks + m.pending)
                  && (ret >= 0 && dst.bState !in {DnloadIdle, Error} ==>
                        && dst.bState == DnBusy && k.state == DnloadSync && k.blocks == m.blocks
                          && k.pending == m.pending)
                  && (ret >= 0 && dst.bState == DnloadIdle ==>
                        k.state == DnloadIdle && k.blocks == m.blocks + m.pending)
                  && (ret >= 0 && dst.bState == Error ==> dst.bStatus != STATUS_OK)
                  && (Obliging(m) ==> dst.bState != Error && (dst.bState == DnloadIdle ==> dst.bStatus == STATUS_OK))
                  && k.blocks == n.blocks)
            && (m.state != DnloadSync ==>
                  && n.blocks == m.blocks && k.blocks == m.blocks && k.pending == m.pending
                  && (ret >= 0 && dst.bState in {Error, Manifest} ==> Left(k))
                  && (ret >= 0 && dst.bState !in {Error, Manifest} ==> dst.bState == DfuIdle && Waiting(before, k)))
            && (ret >= 0 && dst.bState !in {DnloadIdle, Error, Manifest} ==>
                  |k.script| < |m.script| || (|k.script| == |m.script| && !m.asked && k.asked))
  {
    hide Machine.ReadStatus, Machine.Elapse, FaultFree;
    if m.state == DnloadSync {
      BlockPolled(m);
    } else if m.state == ManifestSync {
      ManifestPolled(m);
    } else {
      IdlePolled(m);
    }
    var (n, ret, dst) := m.ReadStatus();
    Slept(n, dst.bwPollTimeout);
  }

  lemma EndInSpace(layout: seq<Segment>, s: Segment)
    requires WellFormed(layout) && s in layout
    ensures s.end < SPACE
  {
    hide PowerOfTwo, Multiple;
  }

  /** The bytes from `a` up to `end` end with the segment that `a` lies in. */
  ghost predicate EndsSegment(layout: seq<Segment>, a: int, end: int) {
    && Mapped(layout, a)
    && Find(layout, a).value.Covers(end - 1) && !Find(layout, a).value.Covers(end)
  }

  /** Two states of the device with the same contents. */
  ghost predicate SameMemory(f: Flash, g: Flash) {
    g.mem == f.mem && g.blank == f.blank && g.spoiled == f.spoiled && g.erases == f.erases
  }

  /** The elements done, and those for this setting still to come, begin `all`. */
  ghost predicate NextFits(w: Walk, altsetting: nat, all: seq<Element>, done: seq<Element>) {
    w.ending != Negative && done + ForAlt(w.elements, altsetting) <= all
  }

  /** Two walks with the elements done before them end alike, having met the same. */
  ghost predicate SameWalk(w: Walk, done: seq<Element>, v: Walk, now: seq<Element>, altsetting: nat) {
    && w.ending == v.ending && w.rest == v.rest
    && done + ForAlt(w.elements, altsetting) == now + ForAlt(v.elements, altsetting)
  }

  lemma NextElement(w: Walk, altsetting: nat, all: seq<Element>, done: seq<Element>)
    requires NextFits(w, altsetting, all, done) && w.elements != [] && w.elements[0].alt == altsetting
    ensures done + [w.elements[0]] <= all && |done| < |all| && all[|done|] == w.elements[0]
  {
    var s := ForAlt(w.elements, altsetting);
    assert s[0] == w.elements[0];
    assert (done + s)[|done|] == s[0];
    assert done + [s[0]] <= done + s;
  }

  lemma WalkSame(w: Walk, done: seq<Element>, v: Walk, now: seq<Element>, e: Element, altsetting: nat)
    requires w.ending == v.ending && w.rest == v.rest && w.elements == [e] + v.elements
    requires now == if e.alt == altsetting then done + [e] else done
    ensures SameWalk(w, done, v, now, altsetting)
  {
    assert w.elements[1..] == v.elements;
  }

  /** `e` is the first element of these bytes. */
  ghost predicate Heads(e: Element, data: seq<bv8>, alt: nat, count: int) {
    var w := WalkElements(data, alt, count);
    && ELEMENT_SIZE + |e.bytes| <= |data| && e.alt == alt
    && var v := WalkElements(data[ELEMENT_SIZE + |e.bytes|..], alt, count - 1);
       w.ending == v.ending && w.rest == v.rest && w.elements == [e] + v.elements
  }

  lemma HeadsRead(data: seq<bv8>, alt: nat, count: int, size: int)
    requires count > 0 && WalkElements(data, alt, count).ending != Negative && |data| >= ELEMENT_SIZE
    requires size == Signed(Quad(data[4..8])) <= |data| - ELEMENT_SIZE
    ensures 0 <= size
    ensures Heads(Element(alt, Quad(data[..4]), data[ELEMENT_SIZE..ELEMENT_SIZE + size]), data, alt, count)
  {
    hide Quad, WalkElements, Signed;
    WalkStep(data, alt, count);
  }

  lemma HeadFacts(e: Element, data: seq<bv8>, alt: nat, count: int)
    requires Heads(e, data, alt, count)
    ensures var w := WalkElements(data, alt, count);
            ELEMENT_SIZE + |e.bytes| <= |data| && e.alt == alt && w.elements != [] && w.elements[0] == e
  {
    hide WalkElements;
  }

  /** Behind it the rest of them begins. */
  lemma HeadLeft(e: Element, data: seq<bv8>, alt: nat, count: int, done: seq<Element>, now: seq<Element>,
                 altsetting: nat)
    requires Heads(e, data, alt, count) && now == if e.alt == altsetting then done + [e] else done
    ensures ELEMENT_SIZE + |e.bytes| <= |data|
    ensures SameWalk(WalkElements(data, alt, count), done,
                     WalkElements(data[ELEMENT_SIZE..][|e.bytes|..], alt, count - 1), now, altsetting)
  {
    hide WalkElements, SameWalk;
    DropTwice(data, ELEMENT_SIZE, |e.bytes|);
    WalkSame(WalkElements(data, alt, count), done, WalkElements(data[ELEMENT_SIZE + |e.bytes|..], alt, count - 1), now,
             e, altsetting);
  }

  lemma WalkSameStart(w: Walk, done: seq<Element>, altsetting: nat)
    ensures SameWalk(w, done, w, done, altsetting)
  {
  }

  lemma SameFits(w0: Walk, done: seq<Element>, w: Walk, now: seq<Element>, altsetting: nat, all: seq<Element>)
    requires SameWalk(w0, done, w, now, altsetting) && NextFits(w0, altsetting, all, done)
    ensures NextFits(w, altsetting, all, now)
  {
  }

  lemma SameEnding(w0: Walk, done: seq<Element>, w: Walk, now: seq<Element>, altsetting: nat)
    requires SameWalk(w0, done, w, now, altsetting)
    ensures w.ending == w0.ending
  {
  }

  lemma SameJoin(w0: Walk, done: seq<Element>, w: Walk, mid: seq<Element>, v: Walk, now: seq<Element>, altsetting: nat)
    requires SameWalk(w0, done, w, mid, altsetting) && SameWalk(w, mid, v, now, altsetting)
    ensures SameWalk(w0, done, v, now, altsetting)
  {
  }

  lemma SameEnd(w0: Walk, done: seq<Element>, w: Walk, now: seq<Element>, altsetting: nat)
    requires SameWalk(w0, done, w, now, altsetting) && w.elements == [] && w.ending == Complete
    ensures w0.ending == Complete && w0.rest == w.rest && now == done + ForAlt(w0.elements, altsetting)
  {
  }

  /** A header that is cut off or promises too much ends a walk. */
  lemma CorruptHeader(data: seq<bv8>, alt: nat, count: int)
    requires count > 0 && WalkElements(data, alt, count).ending != Negative
    ensures |data| < ELEMENT_SIZE ==> WalkElements(data, alt, count).ending == Corrupt
    ensures |data| >= ELEMENT_SIZE && Signed(Quad(data[4..8])) > |data| - ELEMENT_SIZE ==>
              WalkElements(data, alt, count).ending == Short
  {
    hide Quad;
  }

  /** The file has grown by the first `n` bytes of the memory at `a`. */
  ghost predicate Uploaded(before: seq<bv8>, mem: seq<bv8>, a: nat, n: nat, now: seq<bv8>) {
    a + n <= |mem| && now == before + mem[a..a + n]
  }

  lemma NothingUploaded(before: seq<bv8>, mem: seq<bv8>, a: nat)
    requires a <= |mem|
    ensures Uploaded(before, mem, a, 0, before)
  {
  }

  lemma UploadedMore(before: seq<bv8>, mem: seq<bv8>, a: nat, m: nat, mid: seq<bv8>, n: nat, now: seq<bv8>)
    requires Uploaded(before, mem, a, m, mid) && a + m + n <= |mem| && now == mid + mem[a + m..a + m + n]
    ensures Uploaded(before, mem, a, m + n, now)
  {
    assert mem[a..a + m] + mem[a + m..a + m + n] == mem[a..a + (m + n)];
  }

  lemma UploadedAll(before: seq<bv8>, mem: seq<bv8>, a: nat, n: nat, now: seq<bv8>)
    requires Uploaded(before, mem, a, n, now)
    ensures a + n <= |mem| && now == before + mem[a..a + n]
  {
  }

  lemma DropTwice(data: seq<bv8>, m: nat, n: nat)
    requires m + n <= |data|
    ensures data[m..][n..] == data[m + n..]
  {
  }

  lemma CorruptTarget(data: seq<bv8>, count: nat)
    requires count > 0
    ensures |data| < TARGET_SIZE || data[..6] != TARGET_SIGNATURE ==> WalkImages(data, count).ending == Corrupt
  {
    hide Quad, WalkElements;
  }

  lemma WalkNothing(data: seq<bv8>, alt: nat, count: int)
    requires count <= 0
    ensures WalkElements(data, alt, count) == Walk([], data, Complete)
  {
  }

  lemma WalkNoImages(data: seq<bv8>)
    ensures WalkImages(data, 0) == Walk([], data, Complete)
  {
  }

  /** The address of the first element of the file is remembered once it is met:
      `all` is met from here on, `rest` after the step. */
  ghost predicate FirstAddress(all: seq<Element>, rest: seq<Element>, saved: bool, savedNow: bool, before: nat,
                               after: nat) {
    && |rest| <= |all| && rest == all[|all| - |rest|..]
    && savedNow == (saved || |rest| < |all|)
    && after == (if saved || |rest| == |all| then before else all[0].address)
  }

  lemma FirstAddressStart(all: seq<Element>, address: nat)
    ensures FirstAddress(all, all, false, false, address, address)
  {
  }

  lemma FirstAddressEnd(all: seq<Element>, savedNow: bool, before: nat, after: nat)
    requires FirstAddress(all, [], false, savedNow, before, after)
    ensures after == (if all == [] then before else all[0].address)
  {
  }

  lemma FirstAddressStep(all: seq<Element>, mid: seq<Element>, rest: seq<Element>, saved: bool, before: nat,
                         savedMid: bool, addressMid: nat, savedNow: bool, after: nat)
    requires FirstAddress(all, mid, saved, savedMid, before, addressMid)
    requires FirstAddress(mid, rest, savedMid, savedNow, addressMid, after)
    ensures FirstAddress(all, rest, saved, savedNow, before, after)
  {
    assert rest == all[|all| - |rest|..];
    if |mid| == |all| {
      assert mid == all;
    }
  }

  lemma AllFits(w: Walk, all: seq<Element>, altsetting: nat)
    requires w.ending != Negative && all == ForAlt(w.elements, altsetting)
    ensures NextFits(w, altsetting, all, [])
  {
    assert [] + all == all;
  }

  lemma ImageFits(w: Walk, e: Walk, rest: seq<Element>, altsetting: nat, all: seq<Element>, done: seq<Element>)
    requires NextFits(w, altsetting, all, done)
    requires w.elements == e.elements + rest && (e.ending != Complete ==> w.ending == e.ending)
    ensures NextFits(e, altsetting, all, done)
  {
    ForAltJoin(e.elements, rest, altsetting);
    assert done + ForAlt(w.elements, altsetting) == (done + ForAlt(e.elements, altsetting)) + ForAlt(rest, altsetting);
  }

  lemma ImageSame(w: Walk, e: Walk, v: Walk, altsetting: nat, done: seq<Element>)
    requires w.ending == v.ending && w.rest == v.rest && w.elements == e.elements + v.elements
    ensures SameWalk(w, done, v, done + ForAlt(e.elements, altsetting), altsetting)
  {
    ForAltJoin(e.elements, v.elements, altsetting);
  }

  /** Behind a target prefix the elements of its image begin. */
  lemma ImageEntered(data: seq<bv8>, count: nat, alt: nat, n: int, altsetting: nat, all: seq<Element>,
                     done: seq<Element>)
    requires count > 0 && |data| >= TARGET_SIZE && data[..6] == TARGET_SIGNATURE
    requires alt == ToInt(data[6]) && n == Signed(Quad(data[270..274]))
    requires NextFits(WalkImages(data, count), altsetting, all, done)
    ensures var e := WalkElements(data[TARGET_SIZE..], alt, n);
            NextFits(e, altsetting, all, done) && (e.ending != Complete ==> WalkImages(data, count).ending == e.ending)
  {
    hide Quad, ToInt, Signed, WalkElements, WalkImages, NextFits, ForAlt;
    ImageStep(data, count);
    var e := WalkElements(data[TARGET_SIZE..], alt, n);
    var rest := if e.ending == Complete then WalkImages(e.rest, count - 1).elements else [];
    ImageFits(WalkImages(data, count), e, rest, altsetting, all, done);
  }

  /** And when they are done the walk is that of the images left. */
  lemma ImageLeft(data: seq<bv8>, count: nat, alt: nat, n: int, altsetting: nat, done: seq<Element>,
                  saved: bool, savedNow: bool, before: nat, after: nat)
    requires count > 0 && |data| >= TARGET_SIZE && data[..6] == TARGET_SIGNATURE
    requires alt == ToInt(data[6]) && n == Signed(Quad(data[270..274]))
    requires WalkElements(data[TARGET_SIZE..], alt, n).ending == Complete
    requires var met := WalkElements(data[TARGET_SIZE..], alt, n).elements;
             && savedNow == (saved || met != [])
             && after == (if saved || met == [] then before else met[0].address)
    ensures var e := WalkElements(data[TARGET_SIZE..], alt, n);
            var v := WalkImages(e.rest, count - 1);
            && SameWalk(WalkImages(data, count), done, v, done + ForAlt(e.elements, altsetting), altsetting)
            && FirstAddress(WalkImages(data, count).elements, v.elements, saved, savedNow, before, after)
  {
    hide Quad, ToInt, Signed, WalkElements, WalkImages, ForAlt;
    ImageStep(data, count);
    var e := WalkElements(data[TARGET_SIZE..], alt, n);
    ImageSame(WalkImages(data, count), e, WalkImages(e.rest, count - 1), altsetting, done);
  }

  lemma ConfinedSame(layout: seq<Segment>, f: Flash, g: Flash, h: Flash, all: seq<Element>)
    requires FileConfined(layout, f, g, all) && SameMemory(g, h)
    ensures FileConfined(layout, f, h, all)
  {
    hide Covered, Touched;
  }

  lemma NothingConfined(layout: seq<Segment>, f: Flash, all: seq<Element>)
    requires |f.mem| == |f.blank| == SPACE
    ensures FileConfined(layout, f, f, all)
  {
  }

  /** So few blocks that their numbers, from 2 on, are below 65536. */
  predicate FewBlocks(limit: nat, xferSize: nat) {
    limit <= 65534 * xferSize
  }

  lemma FirstOffset(xferSize: nat)
    ensures BlockOffset(2, xferSize) == 0
  {
  }

  lemma NextOffset(transaction: nat, xferSize: nat)
    requires transaction >= 2
    ensures BlockOffset(transaction + 1, xferSize) == BlockOffset(transaction, xferSize) + xferSize
  {
    Distribute(xferSize, transaction - 2, -1);
  }

  lemma OffsetBound(transaction: nat, xferSize: nat, total: nat, limit: nat)
    requires transaction >= 2
    requires total == BlockOffset(transaction, xferSize) && total < limit && FewBlocks(limit, xferSize)
    ensures transaction < 0x1_0000
  {
    SmallerFactor(transaction - 2, 65534, xferSize);
  }

  lemma SmallerFactor(x: int, y: int, z: int)
    requires z > 0 && x * z < y * z
    ensures x < y
  {
  }
}
