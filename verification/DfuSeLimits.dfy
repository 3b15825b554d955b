/** Two downloads that go wrong, through the whole client. */
module DfuSeLimits {
  import opened Pages
  import opened DfuMachine
  import opened Outcomes
  import opened FlashMemory
  import opened Programming
  import opened Strides
  import opened Elements
  import opened Coverage
  import opened Containers
  import opened Overlays
  import opened DfuSeClient

  // ----- a chunk over pages of two sizes

  /** 4 KiB pages, then 1 KiB pages. */
  const MIXED_MAP: seq<Segment> := [Segment(0x8000, 0x8fff, 0x1000, 7), Segment(0x9000, 0x9fff, 0x400, 7)]

  lemma MixedMap(x: nat)
    requires 0x8000 <= x < 0xa000
    ensures IsFlash(MIXED_MAP, x) && CanWrite(MIXED_MAP, x)
    ensures PageSize(MIXED_MAP, x) == if x < 0x9000 then 0x1000 else 0x400
  {
    var s, t := MIXED_MAP[0], MIXED_MAP[1];
    assert MIXED_MAP[1..] == [t];
    assert Find(MIXED_MAP, x) == Some(if s.Covers(x) then s else t) by {
      assert Find([t], x) == if t.Covers(x) then Some(t) else Find([t][1..], x);
    }
  }

  /** The stride of 4 KiB from 0x8000 meets 0x9000 and then the end at 0x9c00; the page of
      the last byte is not asked for either, since its mask is 0x9000. */
  lemma MixedMissed()
    requires WellFormed(MIXED_MAP)
    ensures Missed(MIXED_MAP, 0x8000, 0x1c00, 0x9400)
  {
    MixedMap(0x8000);
    MixedMap(0x9400);
    assert Base(MIXED_MAP, 0x9400) == 0x9400 && PageEnd(MIXED_MAP, 0x9400) == 0x9800;
    ReachedInNumbers(MIXED_MAP, 0x8000, 0x1c00, 0x9400);
    assert NextStride(0x8000, 0x9400, 0x1000) == 0xa000;
  }

  /** An element in one chunk over both kinds of pages: its page at 0x9400 is not erased, and
      a byte there comes out wrong though the program reports success. */
  method MixedPageSizes(c: Client, data: seq<bv8>, xferSize: nat) returns (r: Outcome<int>)
    requires c.Valid() && AtRest(c.dev.m) && c.dev.layout == MIXED_MAP && !c.dfuseMassErase
    requires |data| == 0x1c00 <= xferSize < 0x1_0000
    requires c.dev.Memory().mem[0x9400] == 0 && data[0x1400] == 0x0f
    modifies c.dev, c`lastErasedPage
    ensures r.Return? ==> c.dev.Memory().mem[0x9400] != 0x0f
    ensures Obliging(old(c.dev.m)) ==> r.Return?
  {
    ghost var s := c.State();
    MixedRoomy(xferSize);
    assert WellFormed(MIXED_MAP);
    MixedMissed();
    MixedAccepted(c.lastErasedPage, xferSize);
    assert Multiple(0, xferSize) by {
      ZeroMultiple(xferSize);
    }
    hide Roomy, Accepted, WriteFrom, Missed, Multiple, Find, WellFormed, Replay, Sound, Obliging, Client.Valid;
    r := c.DnloadElement(0x8000, data, xferSize);
    MissedStuck(MIXED_MAP, s, 0x8000, data, 0, xferSize, 0, 0x9400);
  }

  lemma MixedRoomy(xferSize: nat)
    requires 0 < xferSize < 0x1_0000
    ensures Roomy(MIXED_MAP, 0x8000, 0x1c00, xferSize, true)
  {
    forall x: nat | 0x8000 <= x < 0x9c00 ensures PageSize(MIXED_MAP, x) <= 0x1000 {
      MixedMap(x);
    }
  }

  lemma MixedAccepted(last: int, xferSize: nat)
    requires WellFormed(MIXED_MAP) && 0 < xferSize
    ensures Accepted(MIXED_MAP, last, 0x8000, 0x1c00, xferSize, true)
  {
    forall x: nat | 0x8000 <= x < 0x9c00 ensures IsFlash(MIXED_MAP, x) && CanWrite(MIXED_MAP, x) {
      MixedMap(x);
    }
    FlashAccepted(MIXED_MAP, last, 0x8000, 0x1c00, xferSize, true);
  }

  // ----- a page erased more than once

  /** A 1 KiB page, then 4 KiB pages. */
  const GROWING_MAP: seq<Segment> := [Segment(0x8c00, 0x8fff, 0x400, 7), Segment(0x9000, 0xafff, 0x1000, 7)]

  lemma GrowingMap(x: nat)
    requires 0x8c00 <= x < 0xb000
    ensures IsFlash(GROWING_MAP, x) && PageSize(GROWING_MAP, x) == if x < 0x9000 then 0x400 else 0x1000
  {
    var s, t := GROWING_MAP[0], GROWING_MAP[1];
    assert GROWING_MAP[1..] == [t];
    assert Find(GROWING_MAP, x) == Some(if s.Covers(x) then s else t) by {
      assert Find([t], x) == if t.Covers(x) then Some(t) else Find([t][1..], x);
    }
  }

  /** The stride of 1 KiB stops at 0x9000 and at 0x9400, in one page. */
  lemma GrowingPagesRepeat(last: int)
    requires WellFormed(GROWING_MAP)
    ensures var requests := ChunkRequests(GROWING_MAP, 0x8c00, 0x1000, true, last);
            0x9000 in requests && 0x9400 in requests && !Climbing(GROWING_MAP, requests, true)
    ensures Base(GROWING_MAP, 0x9000) == Base(GROWING_MAP, 0x9400) == 0x9000
  {
    GrowingMap(0x8c00);
    GrowingMap(0x9000);
    GrowingMap(0x9400);
    ChunkMembers(GROWING_MAP, 0x8c00, 0x1000, last, 0x9000);
    ChunkMembers(GROWING_MAP, 0x8c00, 0x1000, last, 0x9400);
    assert OnStride(0x8c00, 0x400, 0x9000) && PageEnd(GROWING_MAP, 0x9000) == 0xa000;
    ChunkClimbs(GROWING_MAP, 0x8c00, 0x1000, last);
  }

  // ----- elements out of order on one page

  /** 1 KiB pages. */
  const FLAT_MAP: seq<Segment> := [Segment(0x8000, 0x8fff, 0x400, 7)]

  /** Two bytes over the border of two pages, and one at the beginning of the first page. */
  const LATE: Element := Element(0, 0x83ff, [0x00, 0x00])
  const EARLY: Element := Element(0, 0x8000, [0x00])

  /** A container that has them in this order. */
  function OutOfOrderFile(name: seq<bv8>): seq<bv8> {
    WriteContainer([Image(0, name, 0, 2, [Part(LATE.address, LATE.bytes), Part(EARLY.address, EARLY.bytes)])], 0)
  }

  lemma FlatMap(x: nat)
    requires 0x8000 <= x < 0x9000
    ensures Find(FLAT_MAP, x) == Some(FLAT_MAP[0]) && IsFlash(FLAT_MAP, x) && CanWrite(FLAT_MAP, x)
      && PageSize(FLAT_MAP, x) == 0x400
  {
  }

  lemma TwoElements(p: Part, q: Part)
    ensures Containers.Elements(0, [p, q]) == [Element(0, p.address, p.bytes), Element(0, q.address, q.bytes)]
  {
    assert [p, q][1..] == [q] && [q][1..] == [];
    assert Containers.Elements(0, [q]) == [Element(0, q.address, q.bytes)];
  }

  /** A container of one image. */
  lemma OneImage(i: Image)
    requires ValidImage(i) && Containers.Elements(i.alt, i.parts) != []
    ensures WalkContainer(WriteContainer([i], 0)) == Walk(Containers.Elements(i.alt, i.parts), [], Complete)
  {
    hide Containers.Elements, WalkContainer, WriteContainer, ValidImage;
    assert [i][1..] == [];
    ContainerReadBack([i], 0, []);
    assert WriteContainer([i], 0) + [] == WriteContainer([i], 0);
  }

  lemma TwoForAlt(e: Element, f: Element)
    requires e.alt == f.alt == 0
    ensures ForAlt([e, f], 0) == [e, f]
  {
    assert [e, f][1..] == [f] && [f][1..] == [];
    assert ForAlt([f], 0) == [f];
  }

  lemma OutOfOrderWalk(name: seq<bv8>)
    requires |name| == 259
    ensures WalkContainer(OutOfOrderFile(name)).ending == Complete
    ensures ForAlt(WalkContainer(OutOfOrderFile(name)).elements, 0) == [LATE, EARLY]
  {
    var p, q := Part(LATE.address, LATE.bytes), Part(EARLY.address, EARLY.bytes);
    var image := Image(0, name, 0, 2, [p, q]);
    TwoElements(p, q);
    assert ValidImage(image);
    hide WalkContainer, WriteContainer, ForAlt, ValidImage;
    OneImage(image);
    TwoForAlt(LATE, EARLY);
  }

  lemma OutOfOrderRoomy(xferSize: nat)
    requires 0 < xferSize < 0x1_0000
    ensures AllRoomy(FLAT_MAP, [LATE, EARLY], xferSize, true)
  {
    forall x: nat | 0x8000 <= x < 0x9000 ensures PageSize(FLAT_MAP, x) == 0x400 {
      FlatMap(x);
    }
  }

  lemma OutOfOrderAllowed(s: Progress, xferSize: nat)
    requires WellFormed(FLAT_MAP) && Whole(s) && 0 < xferSize
    ensures AllowedAll(FLAT_MAP, s, [LATE, EARLY], xferSize, true)
  {
    hide WriteFrom, Find, WellFormed, Accepted;
    forall x: nat | 0x8000 <= x < 0x9000 ensures IsFlash(FLAT_MAP, x) && CanWrite(FLAT_MAP, x) {
      FlatMap(x);
    }
    FlashAccepted(FLAT_MAP, s.last, LATE.address, 2, xferSize, true);
    NothingDone(FLAT_MAP, s, xferSize, true);
    var t := WriteFrom(FLAT_MAP, s, LATE.address, LATE.bytes, 0, xferSize, true);
    DoneStep(FLAT_MAP, s, [], LATE, xferSize, true, s, t);
    FlashAccepted(FLAT_MAP, t.last, EARLY.address, 1, xferSize, true);
    DoneStep(FLAT_MAP, s, [LATE], EARLY, xferSize, true, t,
             WriteFrom(FLAT_MAP, t, EARLY.address, EARLY.bytes, 0, xferSize, true));
    assert [] + [LATE] == [LATE] && [LATE] + [EARLY] == [LATE, EARLY];
  }

  lemma OutOfOrderSuited(xferSize: nat)
    requires WellFormed(FLAT_MAP) && 0 < xferSize
    ensures Suited(FLAT_MAP, [LATE, EARLY], xferSize, true, 1)
  {
    hide ElementCovers;
    OneSegmentCovers(FLAT_MAP, 0, LATE.address, 2, xferSize);
    OneSegmentCovers(FLAT_MAP, 0, EARLY.address, 1, xferSize);
    forall x | IsFlash(FLAT_MAP, x) ensures Base(FLAT_MAP, x) != 1 {
      FlatFlash(x);
      FreshCache(FLAT_MAP, x);
    }
  }

  lemma FlatFlash(x: int)
    requires IsFlash(FLAT_MAP, x)
    ensures 0x8000 <= x < 0x9000 && PageSize(FLAT_MAP, x) == 0x400
  {
    assert Find(FLAT_MAP, x) == if FLAT_MAP[0].Covers(x) then Some(FLAT_MAP[0]) else Find(FLAT_MAP[1..], x);
  }

  /** The second element comes back to the page at 0x8000 when the cache holds the one at
      0x8400. */
  lemma OutOfOrderLost()
    requires WellFormed(FLAT_MAP)
    ensures Lost(FLAT_MAP, [LATE, EARLY], 1, 0x83ff)
  {
    FlatMap(0x83ff);
    FlatMap(0x8400);
    FlatMap(0x8000);
    var elements := [LATE, EARLY];
    assert elements[..1] == [LATE] && [LATE][..0] == [];
    assert CacheAt(FLAT_MAP, [LATE], 1) == LastPage(FLAT_MAP, 0x83ff, 2, 1) == 0x8400;
    assert FlashPage(FLAT_MAP, 0x8000, 1, 0x8000);
    assert Base(FLAT_MAP, 0x83ff) == 0x8000;
    assert WipesAt(FLAT_MAP, elements, 1, 1, 0x8000);
    assert Holds(elements[0], 0x83ff);
  }

  /** A fresh process writes that container without complaint, and the first byte of the
      first element is 0xff afterwards. */
  method OutOfOrder(c: Client, name: seq<bv8>, xferSize: nat) returns (r: Outcome<int>)
    requires c.Valid() && AtRest(c.dev.m) && c.dev.layout == FLAT_MAP && !c.dfuseMassErase && c.lastErasedPage == 1
    requires |name| == 259 && 0 < xferSize < 0x1_0000
    modifies c.dev, c`lastErasedPage, c`dfuseAddress
    ensures r.Return? ==> c.dev.Memory().mem[0x83ff] == 0xff != LATE.bytes[0]
    ensures Obliging(old(c.dev.m)) ==> r.Return?
  {
    ghost var s := c.State();
    assert WellFormed(FLAT_MAP);
    OutOfOrderWalk(name);
    OutOfOrderRoomy(xferSize);
    OutOfOrderAllowed(s, xferSize);
    OutOfOrderSuited(xferSize);
    OutOfOrderLost();
    OutOfOrderWritten(s, xferSize);
    hide AllRoomy, AllowedAll, Suited, Lost, WriteAll, WalkContainer, OutOfOrderFile, ForAlt, Find, WellFormed,
         Replay, Sound, Obliging, FileConfined, MayExit, ExitsAs, Kept, AtRest, Client.Valid;
    r := c.DoDfuseDnload(OutOfOrderFile(name), 0, xferSize);
    CompleteReturns(r);
  }

  lemma OutOfOrderWritten(s: Progress, xferSize: nat)
    requires WellFormed(FLAT_MAP) && Sound(s.flash) && s.last == 1 && 0 < xferSize
    ensures WriteAll(FLAT_MAP, s, [LATE, EARLY], xferSize, true).flash.mem[0x83ff] == 0xff
  {
    OutOfOrderAllowed(s, xferSize);
    OutOfOrderSuited(xferSize);
    OutOfOrderLost();
    hide Suited, Lost, WriteAll, AllowedAll, Find, WellFormed, Sound, FileWritten;
    AllWritten(FLAT_MAP, s, [LATE, EARLY], xferSize, true);
    LostReads(FLAT_MAP, s.flash, WriteAll(FLAT_MAP, s, [LATE, EARLY], xferSize, true).flash, [LATE, EARLY], s.last, 0,
              0x83ff);
  }
}
