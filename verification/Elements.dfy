/** What writing one element does to the memory, as a formula over the memory before it,
    for chunks that cover the flash pages they overlap. */
module Elements {
  import opened Pages
  import opened FlashMemory
  import opened Programming
  import opened Strides

  /** Some flash byte of the range lies in the page at `q`. */
  ghost predicate FlashPage(layout: seq<Segment>, a: int, n: int, q: int) {
    exists x :: a <= x < a + n && IsFlash(layout, x) && Base(layout, x) == q
  }

  ghost predicate NoFlash(layout: seq<Segment>, a: int, n: int) {
    forall x :: a <= x < a + n ==> !IsFlash(layout, x)
  }

  /** The page at `q` need not be erased for the range: it is the cached one, and
      the range reaches no flash page before it. */
  ghost predicate Skipped(layout: seq<Segment>, a: int, n: int, last: int, q: int) {
    q == last && forall x :: a <= x < a + n && IsFlash(layout, x) ==> q <= Base(layout, x)
  }

  /** Writing the range erases the page at `q`: it is a flash page the range overlaps, but
      not the first one when that is cached. */
  ghost predicate Wipes(layout: seq<Segment>, a: int, n: int, last: int, q: int) {
    FlashPage(layout, a, n, q) && !Skipped(layout, a, n, last, q)
  }

  /** The page of the last flash byte of the range, else the one cached before. */
  function LastPage(layout: seq<Segment>, a: nat, n: nat, last: int): int
    decreases n
  {
    if n == 0 then last
    else if IsFlash(layout, a + n - 1) then Base(layout, a + n - 1)
    else LastPage(layout, a, n - 1, last)
  }

  /** Byte `i` is erased by the writing of the range. */
  ghost predicate Wiped(layout: seq<Segment>, a: int, n: int, erasing: bool, last: int, i: int) {
    erasing && IsFlash(layout, i) && Wipes(layout, a, n, last, Base(layout, i))
  }

  /** A flash byte is programmed that is neither erased for it nor blank. */
  ghost predicate Spoils(layout: seq<Segment>, f: Flash, a: int, n: int, erasing: bool, last: int) {
    exists i :: 0 <= i < |f.blank| && a <= i < a + n && IsFlash(layout, i) && !f.blank[i]
      && !Wiped(layout, a, n, erasing, last, i)
  }

  /** The byte that programming `d` leaves at `i`. */
  ghost function ByteLeft(layout: seq<Segment>, f: Flash, a: int, n: int, erasing: bool, last: int, i: int, d: bv8): bv8
    requires 0 <= i < |f.mem|
  {
    if IsFlash(layout, i) && !Wiped(layout, a, n, erasing, last, i) then f.mem[i] & d else d
  }

  /** The memory `g` after `data` was written at `a` over `f`. */
  ghost predicate Written(layout: seq<Segment>, f: Flash, g: Flash, a: nat, data: seq<bv8>, erasing: bool, last: int) {
    && |f.mem| == |f.blank| == |g.mem| == |g.blank| == SPACE
    && (g.spoiled <==> f.spoiled || Spoils(layout, f, a, |data|, erasing, last))
    && (forall i :: 0 <= i < SPACE && a <= i < a + |data| ==>
          !g.blank[i] && g.mem[i] == ByteLeft(layout, f, a, |data|, erasing, last, i, data[i - a]))
    && (forall i :: 0 <= i < SPACE && !(a <= i < a + |data|) ==>
          if Wiped(layout, a, |data|, erasing, last, i) then g.mem[i] == 0xff && g.blank[i]
          else g.mem[i] == f.mem[i] && g.blank[i] == f.blank[i])
  }

  // ----- the pages of two ranges side by side

  lemma FlashPageSplit(layout: seq<Segment>, a: int, p: nat, n: nat, q: int)
    ensures FlashPage(layout, a, p + n, q) <==> FlashPage(layout, a, p, q) || FlashPage(layout, a + p, n, q)
  {
  }

  /** Pages follow their addresses. */
  lemma BasesInOrder(layout: seq<Segment>, x: int, y: int)
    requires WellFormed(layout) && Mapped(layout, x) && Mapped(layout, y) && x <= y
    ensures Base(layout, x) <= Base(layout, y)
  {
    PageInSegment(layout, x);
    PageInSegment(layout, y);
    PagesApart(layout, x, y);
  }

  /** Whether a page overlapped so far is skipped does not depend on what follows. */
  lemma SkippedStays(layout: seq<Segment>, a: nat, p: nat, n: nat, last: int, q: int)
    requires WellFormed(layout) && FlashPage(layout, a, p, q)
    ensures Skipped(layout, a, p + n, last, q) <==> Skipped(layout, a, p, last, q)
  {
    var x :| a <= x < a + p && IsFlash(layout, x) && Base(layout, x) == q;
    forall y | a + p <= y < a + p + n && IsFlash(layout, y) ensures q <= Base(layout, y) {
      BasesInOrder(layout, x, y);
    }
  }

  /** The cache holds the page of the last flash byte. */
  lemma {:induction false} LastPageOf(layout: seq<Segment>, a: nat, n: nat, last: int)
    requires WellFormed(layout)
    ensures NoFlash(layout, a, n) ==> LastPage(layout, a, n, last) == last
    ensures !NoFlash(layout, a, n) ==> FlashPage(layout, a, n, LastPage(layout, a, n, last))
    ensures forall x :: a <= x < a + n && IsFlash(layout, x) ==> Base(layout, x) <= LastPage(layout, a, n, last)
    decreases n
  {
    hide Base, Find, WellFormed;
    if n > 0 {
      var z := a + n - 1;
      if IsFlash(layout, z) {
        forall x | a <= x < a + n && IsFlash(layout, x) ensures Base(layout, x) <= Base(layout, z) {
          BasesInOrder(layout, x, z);
        }
      } else {
        LastPageOf(layout, a, n - 1, last);
        FlashPageSplit(layout, a, n - 1, 1, LastPage(layout, a, n - 1, last));
      }
    }
  }

  lemma {:induction false} LastPageJoin(layout: seq<Segment>, a: nat, p: nat, n: nat, last: int)
    ensures LastPage(layout, a, p + n, last) == LastPage(layout, a + p, n, LastPage(layout, a, p, last))
    decreases n
  {
    if n > 0 {
      LastPageJoin(layout, a, p, n - 1, last);
    }
  }

  /** Writing a range in two parts erases the same pages, each in the first part that
      overlaps it. */
  lemma WipesJoin(layout: seq<Segment>, a: nat, p: nat, n: nat, last: int, q: int)
    requires WellFormed(layout)
    ensures var mid := LastPage(layout, a, p, last);
            && (Wipes(layout, a, p + n, last, q) <==> Wipes(layout, a, p, last, q) || Wipes(layout, a + p, n, mid, q))
            && (FlashPage(layout, a, p, q) ==> !Wipes(layout, a + p, n, mid, q))
  {
    hide Base, Find, WellFormed, LastPage;
    var mid := LastPage(layout, a, p, last);
    LastPageOf(layout, a, p, last);
    FlashPageSplit(layout, a, p, n, q);
    if FlashPage(layout, a, p, q) {
      SkippedStays(layout, a, p, n, last, q);
      if FlashPage(layout, a + p, n, q) {
        SharedPage(layout, a, p, n, mid, q);
      }
    } else if !NoFlash(layout, a, p) {
      assert Skipped(layout, a, p + n, last, q) ==> !FlashPage(layout, a + p, n, q) by {
        LaterPage(layout, a, p, n, q);
      }
    }
  }

  /** A page both parts overlap is the last one of the first part, and the first one of the
      second. */
  lemma SharedPage(layout: seq<Segment>, a: nat, p: nat, n: nat, mid: int, q: int)
    requires WellFormed(layout) && FlashPage(layout, a, p, q) && FlashPage(layout, a + p, n, q)
    requires FlashPage(layout, a, p, mid) && forall x :: a <= x < a + p && IsFlash(layout, x) ==> Base(layout, x) <= mid
    ensures Skipped(layout, a + p, n, mid, q)
  {
    hide Base, Find, WellFormed;
    var x :| a <= x < a + p && IsFlash(layout, x) && Base(layout, x) == q;
    var y :| a + p <= y < a + p + n && IsFlash(layout, y) && Base(layout, y) == q;
    var z :| a <= z < a + p && IsFlash(layout, z) && Base(layout, z) == mid;
    BasesInOrder(layout, z, y);
    forall w | a + p <= w < a + p + n && IsFlash(layout, w) ensures q <= Base(layout, w) {
      BasesInOrder(layout, x, w);
    }
  }

  /** A page only the second part overlaps lies after all pages of the first. */
  lemma LaterPage(layout: seq<Segment>, a: nat, p: nat, n: nat, q: int)
    requires WellFormed(layout) && !FlashPage(layout, a, p, q)
    ensures FlashPage(layout, a + p, n, q) ==> forall x :: a <= x < a + p && IsFlash(layout, x) ==> Base(layout, x) < q
  {
    hide Base, Find, WellFormed;
    if FlashPage(layout, a + p, n, q) {
      var y :| a + p <= y < a + p + n && IsFlash(layout, y) && Base(layout, y) == q;
      forall x | a <= x < a + p && IsFlash(layout, x) ensures Base(layout, x) < q {
        BasesInOrder(layout, x, y);
      }
    }
  }

  lemma WipedJoin(layout: seq<Segment>, a: nat, p: nat, n: nat, erasing: bool, last: int, i: int)
    requires WellFormed(layout)
    ensures var mid := LastPage(layout, a, p, last);
            && (Wiped(layout, a, p + n, erasing, last, i) <==>
                  Wiped(layout, a, p, erasing, last, i) || Wiped(layout, a + p, n, erasing, mid, i))
            && (a <= i < a + p ==> !Wiped(layout, a + p, n, erasing, mid, i))
  {
    hide Base, Find, WellFormed, LastPage, Wipes;
    if IsFlash(layout, i) {
      WipesJoin(layout, a, p, n, last, Base(layout, i));
    }
  }

  lemma AndBlank(d: bv8)
    ensures 0xff & d == d
  {
  }

  /** A byte of the first part is final once that part is written. */
  lemma LeftFirst(layout: seq<Segment>, f: Flash, a: nat, p: nat, n: nat, erasing: bool, last: int, i: int, d: bv8)
    requires WellFormed(layout) && a <= i < a + p && i < |f.mem|
    ensures ByteLeft(layout, f, a, p + n, erasing, last, i, d) == ByteLeft(layout, f, a, p, erasing, last, i, d)
    ensures !Wiped(layout, a + p, n, erasing, LastPage(layout, a, p, last), i)
  {
    hide IsFlash, WellFormed, Wiped, LastPage;
    WipedJoin(layout, a, p, n, erasing, last, i);
  }

  /** A byte of the second part meets what the first part left. */
  lemma LeftSecond(layout: seq<Segment>, f: Flash, g: Flash, a: nat, p: nat, n: nat, erasing: bool, last: int, i: int,
                   d: bv8)
    requires WellFormed(layout) && a + p <= i < |f.mem| == |g.mem|
    requires g.mem[i] == if Wiped(layout, a, p, erasing, last, i) then 0xff else f.mem[i]
    ensures ByteLeft(layout, f, a, p + n, erasing, last, i, d)
         == ByteLeft(layout, g, a + p, n, erasing, LastPage(layout, a, p, last), i, d)
  {
    hide IsFlash, WellFormed, Wiped, LastPage;
    WipedJoin(layout, a, p, n, erasing, last, i);
    AndBlank(d);
  }

  /** The formula of a range in two parts. */
  lemma WrittenJoin(layout: seq<Segment>, f: Flash, g: Flash, h: Flash, a: nat, u: seq<bv8>, v: seq<bv8>,
                    erasing: bool, last: int)
    requires WellFormed(layout) && a + |u| + |v| <= SPACE
    requires Written(layout, f, g, a, u, erasing, last)
    requires Written(layout, g, h, a + |u|, v, erasing, LastPage(layout, a, |u|, last))
    ensures Written(layout, f, h, a, u + v, erasing, last)
  {
    hide IsFlash, WellFormed, Wiped, LastPage;
    var p, n, data := |u|, |v|, u + v;
    var mid := LastPage(layout, a, p, last);
    forall i ensures Wiped(layout, a, p + n, erasing, last, i) <==>
                       Wiped(layout, a, p, erasing, last, i) || Wiped(layout, a + p, n, erasing, mid, i)
             ensures a <= i < a + p ==> !Wiped(layout, a + p, n, erasing, mid, i)
    {
      WipedJoin(layout, a, p, n, erasing, last, i);
    }
    assert |data| == p + n;
    forall i | 0 <= i < SPACE && a <= i < a + |data|
      ensures !h.blank[i] && h.mem[i] == ByteLeft(layout, f, a, |data|, erasing, last, i, data[i - a])
    {
      hide ByteLeft;
      if i < a + p {
        assert data[i - a] == u[i - a];
        LeftFirst(layout, f, a, p, n, erasing, last, i, u[i - a]);
      } else {
        assert data[i - a] == v[i - (a + p)];
        LeftSecond(layout, f, g, a, p, n, erasing, last, i, v[i - (a + p)]);
      }
    }
    SpoilsJoin(layout, f, g, a, u, n, erasing, last);
  }

  lemma SpoilsJoin(layout: seq<Segment>, f: Flash, g: Flash, a: nat, u: seq<bv8>, n: nat, erasing: bool, last: int)
    requires WellFormed(layout) && a + |u| + n <= SPACE
    requires Written(layout, f, g, a, u, erasing, last)
    ensures Spoils(layout, f, a, |u| + n, erasing, last) <==>
      Spoils(layout, f, a, |u|, erasing, last)
      || Spoils(layout, g, a + |u|, n, erasing, LastPage(layout, a, |u|, last))
  {
    hide WellFormed, Written, Spoils, LastPage;
    if Spoils(layout, f, a, |u| + n, erasing, last) {
      SpoilsPart(layout, f, g, a, u, n, erasing, last);
    }
    if Spoils(layout, f, a, |u|, erasing, last) {
      SpoilsFirst(layout, f, a, |u|, n, erasing, last);
    }
    if Spoils(layout, g, a + |u|, n, erasing, LastPage(layout, a, |u|, last)) {
      SpoilsSecond(layout, f, g, a, u, n, erasing, last);
    }
  }

  lemma SpoilsPart(layout: seq<Segment>, f: Flash, g: Flash, a: nat, u: seq<bv8>, n: nat, erasing: bool, last: int)
    requires WellFormed(layout) && Written(layout, f, g, a, u, erasing, last)
    requires Spoils(layout, f, a, |u| + n, erasing, last)
    ensures Spoils(layout, f, a, |u|, erasing, last)
      || Spoils(layout, g, a + |u|, n, erasing, LastPage(layout, a, |u|, last))
  {
    hide IsFlash, WellFormed, Wiped, LastPage, ByteLeft;
    var i :| 0 <= i < |f.blank| && a <= i < a + (|u| + n) && IsFlash(layout, i) && !f.blank[i]
             && !Wiped(layout, a, |u| + n, erasing, last, i);
    WipedJoin(layout, a, |u|, n, erasing, last, i);
    if a + |u| <= i {
      assert !g.blank[i];
    }
  }

  lemma SpoilsFirst(layout: seq<Segment>, f: Flash, a: nat, p: nat, n: nat, erasing: bool, last: int)
    requires WellFormed(layout) && Spoils(layout, f, a, p, erasing, last)
    ensures Spoils(layout, f, a, p + n, erasing, last)
  {
    hide IsFlash, WellFormed, Wiped, LastPage;
    var i :| 0 <= i < |f.blank| && a <= i < a + p && IsFlash(layout, i) && !f.blank[i]
             && !Wiped(layout, a, p, erasing, last, i);
    WipedJoin(layout, a, p, n, erasing, last, i);
    assert !Wiped(layout, a, p + n, erasing, last, i);
  }

  lemma SpoilsSecond(layout: seq<Segment>, f: Flash, g: Flash, a: nat, u: seq<bv8>, n: nat, erasing: bool, last: int)
    requires WellFormed(layout) && Written(layout, f, g, a, u, erasing, last)
    requires Spoils(layout, g, a + |u|, n, erasing, LastPage(layout, a, |u|, last))
    ensures Spoils(layout, f, a, |u| + n, erasing, last)
  {
    hide IsFlash, WellFormed, Wiped, LastPage, ByteLeft;
    var i :| 0 <= i < |g.blank| && a + |u| <= i < a + |u| + n && IsFlash(layout, i) && !g.blank[i]
             && !Wiped(layout, a + |u|, n, erasing, LastPage(layout, a, |u|, last), i);
    WipedJoin(layout, a, |u|, n, erasing, last, i);
    assert !f.blank[i];
  }

  // ----- one chunk

  /** The memory after erasing the pages of these addresses. */
  lemma {:induction false} EraseEachBytes(layout: seq<Segment>, f: Flash, requests: seq<nat>)
    requires WellFormed(layout) && |f.mem| == |f.blank| == SPACE
    ensures var g := EraseEach(layout, f, requests);
            && g.spoiled == f.spoiled
            && forall i :: 0 <= i < SPACE ==>
                 if IsFlash(layout, i) && Requested(layout, requests, Base(layout, i)) then g.mem[i] == 0xff
                   && g.blank[i]
                 else g.mem[i] == f.mem[i] && g.blank[i] == f.blank[i]
    decreases |requests|
  {
    hide WellFormed, Find, Base, ErasePage;
    if requests != [] {
      var r, rest := requests[0], requests[1..];
      var h := ErasePage(layout, f, r);
      EraseEachBytes(layout, h, rest);
      var g := EraseEach(layout, h, rest);
      ErasePageBytes(layout, f, r);
      forall i | 0 <= i < SPACE
        ensures if IsFlash(layout, i) && Requested(layout, requests, Base(layout, i)) then g.mem[i] == 0xff
          && g.blank[i]
                else g.mem[i] == f.mem[i] && g.blank[i] == f.blank[i]
      {
        RequestedFirst(layout, r, rest, Base(layout, i));
        assert [r] + rest == requests;
      }
    }
  }

  lemma RequestedFirst(layout: seq<Segment>, r: nat, rest: seq<nat>, q: int)
    ensures Requested(layout, [r] + rest, q)
      <==> (IsFlash(layout, r) && Base(layout, r) == q) || Requested(layout, rest, q)
  {
    hide IsFlash, Base;
    if IsFlash(layout, r) && Base(layout, r) == q {
      assert r in [r] + rest;
    }
    if Requested(layout, rest, q) {
      var x :| x in rest && IsFlash(layout, x) && Base(layout, x) == q;
      assert x in [r] + rest;
    }
  }

  lemma ErasePageBytes(layout: seq<Segment>, f: Flash, r: nat)
    requires WellFormed(layout) && |f.mem| == |f.blank| == SPACE
    ensures var g := ErasePage(layout, f, r);
            && g.spoiled == f.spoiled
            && forall i :: 0 <= i < SPACE ==>
                 if IsFlash(layout, i) && IsFlash(layout, r) && Base(layout, r) == Base(layout, i)
                 then g.mem[i] == 0xff && g.blank[i]
                 else g.mem[i] == f.mem[i] && g.blank[i] == f.blank[i]
  {
    if IsFlash(layout, r) {
      forall i | 0 <= i < SPACE
        ensures Base(layout, r) <= i < PageEnd(layout, r) <==> IsFlash(layout, i) && Base(layout, r) == Base(layout, i)
      {
        hide Find, Base, WellFormed;
        PageInSegment(layout, r);
        if Base(layout, r) <= i < PageEnd(layout, r) {
          SamePage(layout, r, i);
        } else if IsFlash(layout, i) {
          PageInSegment(layout, i);
          PagesApart(layout, r, i);
        }
      }
    }
  }

  /** A chunk that covers its pages erases exactly those `Wipes` says. */
  lemma ChunkWipes(layout: seq<Segment>, a: nat, n: nat, last: int, q: int)
    requires WellFormed(layout) && a + n <= SPACE && ChunkCovers(layout, a, n)
    ensures Requested(layout, ChunkRequests(layout, a, n, true, last), q) <==> Wipes(layout, a, n, last, q)
  {
    hide Base, Find, WellFormed, Reached, ChunkRequests;
    var requests := ChunkRequests(layout, a, n, true, last);
    RequestsInside(layout, a, n, true, last);
    if FlashPage(layout, a, n, q) {
      var x :| a <= x < a + n && IsFlash(layout, x) && Base(layout, x) == q;
      RequestedExactly(layout, a, n, last, x);
      FirstSkipped(layout, a, n, last, q);
    }
  }

  lemma FirstSkipped(layout: seq<Segment>, a: nat, n: nat, last: int, q: int)
    requires WellFormed(layout) && IsFlash(layout, a) && FlashPage(layout, a, n, q)
    ensures Skipped(layout, a, n, last, q) <==> q == Base(layout, a) == last
  {
    hide Base, Find, WellFormed;
    var x :| a <= x < a + n && IsFlash(layout, x) && Base(layout, x) == q;
    forall y | a <= y < a + n && IsFlash(layout, y) ensures Base(layout, a) <= Base(layout, y) {
      BasesInOrder(layout, a, y);
    }
  }

  lemma RequestsInside(layout: seq<Segment>, a: nat, n: nat, erasing: bool, last: int)
    requires WellFormed(layout) && a + n <= SPACE
    ensures forall r :: r in ChunkRequests(layout, a, n, erasing, last) ==> IsFlash(layout, a) && a <= r < a + n
  {
    hide Base, Find, WellFormed, Mask;
    var requests := ChunkRequests(layout, a, n, erasing, last);
    forall r | r in requests ensures IsFlash(layout, a) && a <= r < a + n {
      ChunkMembers(layout, a, n, last, r);
    }
  }

  /** The cache after the erases of a chunk that covers its pages. */
  lemma ChunkCache(layout: seq<Segment>, a: nat, n: nat, last: int)
    requires WellFormed(layout) && a + n <= SPACE && ChunkCovers(layout, a, n)
    requires AllFlash(layout, ChunkRequests(layout, a, n, true, last))
    ensures CacheAfter(layout, last, ChunkRequests(layout, a, n, true, last)) == LastPage(layout, a, n, last)
  {
    hide Base, Find, WellFormed, ChunkRequests, LastPage, ChunkOnce, Reached;
    var requests := ChunkRequests(layout, a, n, true, last);
    var page := LastPage(layout, a, n, last);
    LastPageOf(layout, a, n, last);
    RequestsInside(layout, a, n, true, last);
    ChunkClimbs(layout, a, n, last);
    if requests == [] {
      if !NoFlash(layout, a, n) {
        ChunkWipes(layout, a, n, last, page);
      }
    } else {
      var r := requests[|requests| - 1];
      assert r in requests && IsFlash(layout, r);
      LastRequest(layout, a, n, last, page, r);
    }
  }

  lemma LastRequest(layout: seq<Segment>, a: nat, n: nat, last: int, page: int, r: nat)
    requires WellFormed(layout) && a + n <= SPACE && ChunkCovers(layout, a, n)
    requires var requests := ChunkRequests(layout, a, n, true, last);
             && r in requests && IsFlash(layout, r) && a <= r < a + n && IsFlash(layout, a)
             && forall s :: s in requests ==> s <= r
    requires FlashPage(layout, a, n, page) && forall x :: a <= x < a + n && IsFlash(layout, x) ==>
      Base(layout, x) <= page
    ensures Base(layout, r) == page
  {
    hide Base, Find, WellFormed, ChunkRequests, Reached;
    ChunkWipes(layout, a, n, last, page);
    FirstSkipped(layout, a, n, last, page);
    BasesInOrder(layout, a, r);
    if Requested(layout, ChunkRequests(layout, a, n, true, last), page) {
      var s :| s in ChunkRequests(layout, a, n, true, last) && IsFlash(layout, s) && Base(layout, s) == page;
      BasesInOrder(layout, s, r);
    }
  }

  /** One chunk obeys the formula. */
  lemma ChunkWritten(layout: seq<Segment>, s: Progress, a: nat, chunk: seq<bv8>, erasing: bool)
    requires WellFormed(layout) && |s.flash.mem| == |s.flash.blank| == SPACE && a + |chunk| <= SPACE
    requires erasing ==> ChunkCovers(layout, a, |chunk|)
    ensures Written(layout, s.flash, WriteChunk(layout, s, a, chunk, erasing).flash, a, chunk, erasing, s.last)
  {
    hide IsFlash, WellFormed, ChunkRequests, Base, ChunkCovers, Wipes, EraseEach;
    var n := |chunk|;
    var requests := ChunkRequests(layout, a, n, erasing, s.last);
    var g := EraseEach(layout, s.flash, requests);
    EraseEachBytes(layout, s.flash, requests);
    forall i | 0 <= i < SPACE
      ensures IsFlash(layout, i) && Requested(layout, requests, Base(layout, i))
        <==> Wiped(layout, a, n, erasing, s.last, i)
    {
      if erasing {
        ChunkWipes(layout, a, n, s.last, Base(layout, i));
      } else {
        NothingRequested(layout, a, n, s.last);
      }
    }
    ProgramWritten(layout, s.flash, g.(pointer := a), a, chunk, erasing, s.last);
  }

  lemma NothingRequested(layout: seq<Segment>, a: nat, n: nat, last: int)
    ensures ChunkRequests(layout, a, n, false, last) == []
  {
  }

  /** Programming over the erased pages. */
  lemma ProgramWritten(layout: seq<Segment>, f: Flash, g: Flash, a: nat, chunk: seq<bv8>, erasing: bool, last: int)
    requires |f.mem| == |f.blank| == |g.mem| == |g.blank| == SPACE && g.spoiled == f.spoiled
    requires forall i :: 0 <= i < SPACE ==>
               if Wiped(layout, a, |chunk|, erasing, last, i) then g.mem[i] == 0xff && g.blank[i]
               else g.mem[i] == f.mem[i] && g.blank[i] == f.blank[i]
    ensures Written(layout, f, Program(layout, g, a, chunk), a, chunk, erasing, last)
  {
    hide IsFlash, Wiped, Overwrites, Spoils;
    var h := Program(layout, g, a, chunk);
    OverwritesIs(layout, f, g, a, |chunk|, erasing, last);
    forall i | 0 <= i < SPACE && a <= i < a + |chunk|
      ensures !h.blank[i] && h.mem[i] == ByteLeft(layout, f, a, |chunk|, erasing, last, i, chunk[i - a])
    {
      AndBlank(chunk[i - a]);
    }
  }

  /** What is programmed without being blank was neither erased for it nor blank before. */
  lemma OverwritesIs(layout: seq<Segment>, f: Flash, g: Flash, a: nat, n: nat, erasing: bool, last: int)
    requires |f.mem| == |f.blank| == |g.mem| == |g.blank| == SPACE
    requires forall i :: 0 <= i < SPACE ==> g.blank[i] == (Wiped(layout, a, n, erasing, last, i) || f.blank[i])
    ensures Overwrites(layout, g, a, n) <==> Spoils(layout, f, a, n, erasing, last)
  {
    hide IsFlash, Wiped;
    if Overwrites(layout, g, a, n) {
      var i :| 0 <= i < |g.mem| && a <= i < a + n && IsFlash(layout, i) && !g.blank[i];
      assert 0 <= i < |f.blank| && !f.blank[i];
    }
    if Spoils(layout, f, a, n, erasing, last) {
      var i :| 0 <= i < |f.blank| && a <= i < a + n && IsFlash(layout, i) && !f.blank[i]
               && !Wiped(layout, a, n, erasing, last, i);
      assert !g.blank[i];
    }
  }

  // ----- which pages were erased, and in which order

  predicate Ascending(s: seq<int>, strict: bool) {
    forall j, k :: 0 <= j < k < |s| ==> s[j] < s[k] || (!strict && s[j] == s[k])
  }

  /** The erases since `f`: exactly the pages `Wipes` says, in address order, and each once
      if `strict`. */
  ghost predicate ErasedInOrder(layout: seq<Segment>, f: Flash, g: Flash, a: int, n: int, last: int, strict: bool) {
    && f.erases <= g.erases
    && var added := g.erases[|f.erases|..];
       && Ascending(added, strict)
       && forall q :: q in added <==> Wipes(layout, a, n, last, q)
  }

  function BasesOf(layout: seq<Segment>, requests: seq<nat>): seq<int> {
    seq(|requests|, k requires 0 <= k < |requests| => Base(layout, requests[k]))
  }

  lemma {:induction false} EraseEachLog(layout: seq<Segment>, f: Flash, requests: seq<nat>)
    requires |f.mem| == |f.blank| && AllFlash(layout, requests)
    ensures EraseEach(layout, f, requests).erases == f.erases + BasesOf(layout, requests)
    decreases |requests|
  {
    hide IsFlash, Base;
    if requests == [] {
      assert BasesOf(layout, requests) == [];
    } else {
      var r, rest := requests[0], requests[1..];
      assert IsFlash(layout, r) && AllFlash(layout, rest);
      EraseEachLog(layout, ErasePage(layout, f, r), rest);
      assert [Base(layout, r)] + BasesOf(layout, rest) == BasesOf(layout, requests);
      assert (f.erases + [Base(layout, r)]) + BasesOf(layout, rest) == f.erases + BasesOf(layout, requests);
    }
  }

  lemma ChunkErases(layout: seq<Segment>, f: Flash, a: nat, n: nat, last: int)
    requires WellFormed(layout) && |f.mem| == |f.blank| && a + n <= SPACE && ChunkCovers(layout, a, n)
    requires AllFlash(layout, ChunkRequests(layout, a, n, true, last))
    ensures ErasedInOrder(layout, f, EraseEach(layout, f, ChunkRequests(layout, a, n, true, last)), a, n, last,
                          ChunkOnce(layout, a, n))
  {
    hide IsFlash, WellFormed, Base, ChunkCovers, ChunkRequests, ChunkOnce, Wipes;
    var requests := ChunkRequests(layout, a, n, true, last);
    EraseEachLog(layout, f, requests);
    ChunkClimbs(layout, a, n, last);
    var added := BasesOf(layout, requests);
    forall j, k | 0 <= j < k < |added|
      ensures added[j] < added[k] || (!ChunkOnce(layout, a, n) && added[j] == added[k]) {
      FlashInOrder(layout, requests[j], requests[k]);
    }
    forall q ensures q in added <==> Wipes(layout, a, n, last, q) {
      ChunkWipes(layout, a, n, last, q);
      if Requested(layout, requests, q) {
        var r :| r in requests && IsFlash(layout, r) && Base(layout, r) == q;
        var k :| 0 <= k < |requests| && requests[k] == r;
        assert added[k] == q;
      }
      if q in added {
        var k :| 0 <= k < |added| && added[k] == q;
        assert requests[k] in requests && IsFlash(layout, requests[k]);
      }
    }
  }

  lemma FlashInOrder(layout: seq<Segment>, x: nat, y: nat)
    requires WellFormed(layout) && IsFlash(layout, x) && IsFlash(layout, y) && x <= y
    ensures Base(layout, x) <= Base(layout, y)
  {
    BasesInOrder(layout, x, y);
  }

  lemma AscendingJoin(s: seq<int>, t: seq<int>, strict: bool)
    requires Ascending(s, strict) && Ascending(t, strict)
    requires forall x, y :: x in s && y in t ==> x < y
    ensures Ascending(s + t, strict)
  {
    forall j, k | 0 <= j < k < |s + t| ensures (s + t)[j] < (s + t)[k] || (!strict && (s + t)[j] == (s + t)[k]) {
      if j < |s| <= k {
        assert s[j] in s && t[k - |s|] in t;
      }
    }
  }

  lemma ErasesJoin(layout: seq<Segment>, f: Flash, g: Flash, h: Flash, a: nat, p: nat, n: nat, last: int, strict: bool)
    requires WellFormed(layout)
    requires ErasedInOrder(layout, f, g, a, p, last, strict)
    requires ErasedInOrder(layout, g, h, a + p, n, LastPage(layout, a, p, last), strict)
    ensures ErasedInOrder(layout, f, h, a, p + n, last, strict)
  {
    hide IsFlash, WellFormed, Base, Wipes, LastPage, Ascending;
    var before, now := g.erases[|f.erases|..], h.erases[|g.erases|..];
    assert h.erases[|f.erases|..] == before + now;
    forall q ensures q in before + now <==> Wipes(layout, a, p + n, last, q) {
      WipesJoin(layout, a, p, n, last, q);
    }
    forall x, y | x in before && y in now ensures x < y {
      WipesInOrder(layout, a, p, n, last, x, y);
    }
    AscendingJoin(before, now, strict);
  }

  lemma WipesInOrder(layout: seq<Segment>, a: nat, p: nat, n: nat, last: int, x: int, y: int)
    requires WellFormed(layout)
    requires Wipes(layout, a, p, last, x) && Wipes(layout, a + p, n, LastPage(layout, a, p, last), y)
    ensures x < y
  {
    hide IsFlash, WellFormed, Base, LastPage, Skipped;
    WipesJoin(layout, a, p, n, last, y);
    LaterPage(layout, a, p, n, y);
  }

  // ----- a whole element

  /** All that writing `data` at `a` does: the bytes, the cache and the erases. */
  ghost predicate Wrote(layout: seq<Segment>, s: Progress, t: Progress, a: nat, data: seq<bv8>, erasing: bool,
                        strict: bool) {
    && Written(layout, s.flash, t.flash, a, data, erasing, s.last)
    && (if erasing then
          && t.last == LastPage(layout, a, |data|, s.last)
          && ErasedInOrder(layout, s.flash, t.flash, a, |data|, s.last, strict)
        else t.last == s.last && t.flash.erases == s.flash.erases)
  }

  lemma WroteNothing(layout: seq<Segment>, s: Progress, a: nat, erasing: bool, strict: bool)
    requires |s.flash.mem| == |s.flash.blank| == SPACE
    ensures Wrote(layout, s, s, a, [], erasing, strict)
  {
    assert NoFlash(layout, a, 0);
  }

  /** Without erases the cache plays no part. */
  lemma CacheIdle(layout: seq<Segment>, f: Flash, g: Flash, a: nat, data: seq<bv8>, last: int, other: int)
    requires Written(layout, f, g, a, data, false, last)
    ensures Written(layout, f, g, a, data, false, other)
  {
    hide IsFlash, Wipes;
  }

  lemma WroteChunk(layout: seq<Segment>, s: Progress, a: nat, chunk: seq<bv8>, erasing: bool)
    requires WellFormed(layout) && |s.flash.mem| == |s.flash.blank| == SPACE && a + |chunk| <= SPACE
    requires erasing ==> ChunkCovers(layout, a, |chunk|)
    requires AllFlash(layout, ChunkRequests(layout, a, |chunk|, erasing, s.last))
    ensures Wrote(layout, s, WriteChunk(layout, s, a, chunk, erasing), a, chunk, erasing, ChunkOnce(layout, a, |chunk|))
  {
    hide IsFlash, WellFormed, Base, ChunkCovers, ChunkOnce, Written, Wipes, Ascending;
    ChunkWritten(layout, s, a, chunk, erasing);
    if erasing {
      hide ChunkRequests;
      ChunkCache(layout, a, |chunk|, s.last);
      ChunkErases(layout, s.flash, a, |chunk|, s.last);
    } else {
      assert ChunkRequests(layout, a, |chunk|, erasing, s.last) == [];
    }
  }

  lemma WroteJoin(layout: seq<Segment>, s: Progress, t: Progress, w: Progress, a: nat, u: seq<bv8>, v: seq<bv8>,
                  erasing: bool, strict: bool)
    requires WellFormed(layout) && a + |u| + |v| <= SPACE
    requires Wrote(layout, s, t, a, u, erasing, strict) && Wrote(layout, t, w, a + |u|, v, erasing, strict)
    ensures Wrote(layout, s, w, a, u + v, erasing, strict)
  {
    hide WellFormed, Written, ErasedInOrder, LastPage;
    if erasing {
      LastPageJoin(layout, a, |u|, |v|, s.last);
      ErasesJoin(layout, s.flash, t.flash, w.flash, a, |u|, |v|, s.last, strict);
    } else {
      CacheIdle(layout, t.flash, w.flash, a + |u|, v, t.last, LastPage(layout, a, |u|, s.last));
    }
    WrittenJoin(layout, s.flash, t.flash, w.flash, a, u, v, erasing, s.last);
  }

  lemma WroteWeaken(layout: seq<Segment>, s: Progress, t: Progress, a: nat, data: seq<bv8>, erasing: bool,
                    once: bool, strict: bool)
    requires Wrote(layout, s, t, a, data, erasing, once) && (strict ==> once)
    ensures Wrote(layout, s, t, a, data, erasing, strict)
  {
    hide Written, Wipes;
  }

  /** Every chunk covers its pages. */
  ghost predicate ElementCovers(layout: seq<Segment>, a: nat, n: nat, xferSize: nat) {
    forall p :: 0 <= p < n && Multiple(p, xferSize) ==> ChunkCovers(layout, a + p, ChunkLength(n, p, xferSize))
  }

  /** Every chunk asks for each of its pages once. */
  ghost predicate ElementOnce(layout: seq<Segment>, a: nat, n: nat, xferSize: nat) {
    forall p :: 0 <= p < n && Multiple(p, xferSize) ==> ChunkOnce(layout, a + p, ChunkLength(n, p, xferSize))
  }

  lemma ChunkOf(layout: seq<Segment>, a: nat, n: nat, xferSize: nat, p: nat)
    requires p < n && Multiple(p, xferSize)
    ensures ElementCovers(layout, a, n, xferSize) ==> ChunkCovers(layout, a + p, ChunkLength(n, p, xferSize))
    ensures ElementOnce(layout, a, n, xferSize) ==> ChunkOnce(layout, a + p, ChunkLength(n, p, xferSize))
  {
  }

  /** The rest of an element, from byte `p` on. */
  lemma {:induction false} RestWritten(layout: seq<Segment>, s: Progress, t: Progress, a: nat, data: seq<bv8>, p: nat,
                                       xferSize: nat, erasing: bool, strict: bool)
    requires WellFormed(layout) && a + |data| <= SPACE && 0 < xferSize && p <= |data|
    requires erasing ==> ElementCovers(layout, a, |data|, xferSize)
    requires strict ==> ElementOnce(layout, a, |data|, xferSize)
    requires p < |data| ==> Multiple(p, xferSize)
    requires Wrote(layout, s, t, a, data[..p], erasing, strict)
    requires Allowed(layout, t.last, a, |data|, p, xferSize, erasing)
    ensures Wrote(layout, s, WriteFrom(layout, t, a, data, p, xferSize, erasing), a, data, erasing, strict)
    decreases |data| - p
  {
    hide WellFormed, Wrote, Written, ElementCovers, ElementOnce, AllFlash, ChunkRequests, CacheAfter, CanWrite,
         ChunkCovers, ChunkOnce, Multiple;
    if p == |data| {
      assert data[..p] == data;
    } else {
      var n := ChunkLength(|data|, p, xferSize);
      var chunk := data[p..p + n];
      WroteSize(layout, s, t, a, data[..p], erasing, strict);
      ChunkOf(layout, a, |data|, xferSize, p);
      WroteChunk(layout, t, a + p, chunk, erasing);
      var w := WriteChunk(layout, t, a + p, chunk, erasing);
      WroteWeaken(layout, t, w, a + p, chunk, erasing, ChunkOnce(layout, a + p, n), strict);
      WroteJoin(layout, s, t, w, a, data[..p], chunk, erasing, strict);
      assert data[..p] + chunk == data[..p + n];
      AddedPageIsMultiple(p, xferSize);
      RestWritten(layout, s, w, a, data, p + n, xferSize, erasing, strict);
    }
  }

  lemma WroteSize(layout: seq<Segment>, s: Progress, t: Progress, a: nat, data: seq<bv8>, erasing: bool, strict: bool)
    requires Wrote(layout, s, t, a, data, erasing, strict)
    ensures |s.flash.mem| == |s.flash.blank| == |t.flash.mem| == |t.flash.blank| == SPACE
  {
    hide ErasedInOrder, LastPage, ByteLeft, Spoils, Wiped;
  }

  /** An element whose chunks cover their pages. */
  lemma ElementWritten(layout: seq<Segment>, s: Progress, a: nat, data: seq<bv8>, xferSize: nat, erasing: bool)
    requires WellFormed(layout) && |s.flash.mem| == |s.flash.blank| == SPACE && a + |data| <= SPACE && 0 < xferSize
    requires erasing ==> ElementCovers(layout, a, |data|, xferSize)
    requires Accepted(layout, s.last, a, |data|, xferSize, erasing)
    ensures Wrote(layout, s, WriteFrom(layout, s, a, data, 0, xferSize, erasing), a, data, erasing,
                  ElementOnce(layout, a, |data|, xferSize))
  {
    hide WellFormed, Wrote, ElementCovers, ElementOnce, Allowed, CanWrite, WriteFrom;
    var strict := ElementOnce(layout, a, |data|, xferSize);
    assert data[..0] == [];
    WroteNothing(layout, s, a, erasing, strict);
    ZeroMultiple(xferSize);
    RestWritten(layout, s, s, a, data, 0, xferSize, erasing, strict);
  }

  lemma ZeroMultiple(p: int)
    requires 0 < p
    ensures Multiple(0, p)
  {
  }
}
