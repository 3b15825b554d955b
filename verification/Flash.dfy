/** The memory behind a DfuSe device, and what a downloaded block does to it
    (ST AN3156): block 0 carries a command, block n >= 2 carries data for the
    address pointer plus (n - 2) transfer sizes. */
module FlashMemory {
  import opened Bytes
  import opened Pages
  import opened DfuMachine

  /** `blank` says of each flash byte whether it was erased and not programmed
      since; `erases` lists the erased pages in order; `spoiled` is set for good
      once a flash byte is programmed that was not blank. */
  datatype Flash = Flash(
    pointer: nat,
    mem: seq<bv8>,
    blank: seq<bool>,
    erases: seq<int>,
    spoiled: bool)

  ghost predicate Sound(f: Flash) {
    && |f.mem| == |f.blank| == SPACE
    && forall i :: 0 <= i < SPACE && f.blank[i] ==> f.mem[i] == 0xff
  }

  /** The page around `a` reads 0xff and is blank. */
  function ErasePage(layout: seq<Segment>, f: Flash, a: int): (g: Flash)
    requires |f.mem| == |f.blank|
    ensures |g.mem| == |g.blank| == |f.mem|
  {
    if !IsFlash(layout, a) then f
    else
      var lo, hi := Base(layout, a), PageEnd(layout, a);
      f.(mem := seq(|f.mem|, i requires 0 <= i < |f.mem| => if lo <= i < hi then 0xff else f.mem[i]),
         blank := seq(|f.mem|, i requires 0 <= i < |f.mem| => if lo <= i < hi then true else f.blank[i]),
         erases := f.erases + [lo])
  }

  function EraseAll(layout: seq<Segment>, f: Flash): (g: Flash)
    requires |f.mem| == |f.blank|
    ensures |g.mem| == |g.blank| == |f.mem|
  {
    f.(mem := seq(|f.mem|, i requires 0 <= i < |f.mem| => if IsFlash(layout, i) then 0xff else f.mem[i]),
       blank := seq(|f.mem|, i requires 0 <= i < |f.mem| => if IsFlash(layout, i) then true else f.blank[i]))
  }

  predicate Overwrites(layout: seq<Segment>, f: Flash, a: nat, n: nat)
    requires |f.mem| == |f.blank|
  {
    exists i :: 0 <= i < |f.mem| && a <= i < a + n && IsFlash(layout, i) && !f.blank[i]
  }

  /** Programming flash can only clear bits; other memory just takes the byte. */
  function Program(layout: seq<Segment>, f: Flash, a: nat, data: seq<bv8>): (g: Flash)
    requires |f.mem| == |f.blank|
    ensures |g.mem| == |g.blank| == |f.mem|
  {
    f.(mem := seq(|f.mem|, i requires 0 <= i < |f.mem| =>
                if a <= i < a + |data|
                then (if IsFlash(layout, i) then f.mem[i] & data[i - a] else data[i - a])
                else f.mem[i]),
       blank := seq(|f.mem|, i requires 0 <= i < |f.mem| =>
                if a <= i < a + |data| then false else f.blank[i]),
       spoiled := f.spoiled || Overwrites(layout, f, a, |data|))
  }

  const ERASE_COMMAND: bv8 := 0x41
  const SET_ADDRESS_COMMAND: bv8 := 0x21
  const READ_UNPROTECT_COMMAND: bv8 := 0x92

  /** Offset of a data block from the address pointer. */
  function BlockOffset(number: nat, xferSize: nat): nat
    requires number >= 2
  {
    (number - 2) * xferSize
  }

  /** What one carried-out block does. */
  function Execute(layout: seq<Segment>, xferSize: nat, f: Flash, b: Block): (g: Flash)
    requires |f.mem| == |f.blank|
    ensures |g.mem| == |g.blank| == |f.mem|
  {
    if b.number == 0 then
      if |b.data| == 5 && b.data[0] == SET_ADDRESS_COMMAND then f.(pointer := Quad(b.data[1..]))
      else if |b.data| == 5 && b.data[0] == ERASE_COMMAND then ErasePage(layout, f, Quad(b.data[1..]))
      else if |b.data| == 1 && b.data[0] in {ERASE_COMMAND, READ_UNPROTECT_COMMAND} then EraseAll(layout, f)
      else f
    else if b.number == 1 then f
    else Program(layout, f, f.pointer + BlockOffset(b.number, xferSize), b.data)
  }

  /** The memory after a whole history of blocks. */
  function Replay(layout: seq<Segment>, xferSize: nat, f: Flash, blocks: seq<Block>): (g: Flash)
    requires |f.mem| == |f.blank|
    ensures |g.mem| == |g.blank| == |f.mem|
    decreases |blocks|
  {
    if blocks == [] then f
    else
      var n := |blocks| - 1;
      Execute(layout, xferSize, Replay(layout, xferSize, f, blocks[..n]), blocks[n])
  }

  lemma ReplayAppend(layout: seq<Segment>, xferSize: nat, f: Flash, blocks: seq<Block>, b: Block)
    requires |f.mem| == |f.blank|
    ensures Replay(layout, xferSize, f, blocks + [b])
      == Execute(layout, xferSize, Replay(layout, xferSize, f, blocks), b)
  {
    assert (blocks + [b])[..|blocks|] == blocks;
  }

  /** No operation ever makes a byte blank that does not read 0xff. */
  lemma ExecuteSound(layout: seq<Segment>, xferSize: nat, f: Flash, b: Block)
    requires Sound(f)
    ensures Sound(Execute(layout, xferSize, f, b))
  {
    if b.number >= 2 {
      var a := f.pointer + BlockOffset(b.number, xferSize);
      ProgramSound(layout, f, a, b.data);
    }
  }

  lemma ProgramSound(layout: seq<Segment>, f: Flash, a: nat, data: seq<bv8>)
    requires Sound(f)
    ensures Sound(Program(layout, f, a, data))
  {
    var g := Program(layout, f, a, data);
    forall i | 0 <= i < SPACE && g.blank[i] ensures g.mem[i] == 0xff {
    }
  }

  lemma {:induction false} ReplaySound(layout: seq<Segment>, xferSize: nat, f: Flash, blocks: seq<Block>)
    requires Sound(f)
    ensures Sound(Replay(layout, xferSize, f, blocks))
    decreases |blocks|
  {
    if blocks != [] {
      var n := |blocks| - 1;
      ReplaySound(layout, xferSize, f, blocks[..n]);
      ExecuteSound(layout, xferSize, Replay(layout, xferSize, f, blocks[..n]), blocks[n]);
    }
  }
}
