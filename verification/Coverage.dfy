/** When the erases of an element cover the flash pages it overlaps: exactly when any data
    can be written over any memory; and layouts for which they do. */
module Coverage {
  import opened Arithmetic
  import opened Pages
  import opened FlashMemory
  import opened Programming
  import opened Strides
  import opened Elements

  // ----- elements that cover their pages

  /** An element inside one segment covers its pages at any address and with any transfer
      size, and asks for each once. */
  lemma OneSegmentCovers(layout: seq<Segment>, k: nat, a: nat, n: nat, xferSize: nat)
    requires WellFormed(layout) && k < |layout| && 0 < xferSize
    requires 0 < n && layout[k].Covers(a) && layout[k].Covers(a + n - 1)
    ensures ElementCovers(layout, a, n, xferSize) && ElementOnce(layout, a, n, xferSize)
  {
    hide WellFormed, Find, ChunkCovers, ChunkOnce;
    SegmentBelow(layout, k);
    forall x | a <= x < a + n ensures Find(layout, x) == Some(layout[k]) {
      FindUnique(layout, k, x);
    }
    forall p | 0 <= p < n && Multiple(p, xferSize)
      ensures ChunkCovers(layout, a + p, ChunkLength(n, p, xferSize))
      ensures ChunkOnce(layout, a + p, ChunkLength(n, p, xferSize))
    {
      LongPagesCover(layout, a + p, ChunkLength(n, p, xferSize));
      OnceOverEvenPages(layout, a + p, ChunkLength(n, p, xferSize));
    }
  }

  lemma SegmentBelow(layout: seq<Segment>, k: nat)
    requires WellFormed(layout) && k < |layout|
    ensures layout[k].end < SPACE
  {
  }

  lemma SumOfMultiples(x: int, y: int, p: int)
    requires Multiple(x, p) && Multiple(y, p)
    ensures Multiple(x + y, p)
  {
    var q, r := x / p, y / p;
    assert x == p * q && y == p * r;
    Distribute(p, q, -r);
    RemainderUnique(x + y, p, q + r, 0);
  }

  lemma MultipleOfMultiple(x: int, p: int, d: int)
    requires Multiple(x, p) && Multiple(p, d)
    ensures Multiple(x, d)
  {
    var q, r := x / p, p / d;
    assert x == p * q && p == d * r;
    assert x == d * (r * q);
    RemainderUnique(x, d, r * q, 0);
  }

  /** A chunk at a multiple of the transfer size stays inside its page, if the page size
      is a multiple of it too. */
  lemma ChunkInPage(layout: seq<Segment>, x: nat, xferSize: nat)
    requires WellFormed(layout) && Mapped(layout, x)
    requires Multiple(x, xferSize) && Multiple(PageSize(layout, x), xferSize)
    ensures x + xferSize <= PageEnd(layout, x) <= SPACE
    ensures xferSize <= PageSize(layout, x)
  {
    hide Multiple, Base, Find;
    PageInSegment(layout, x);
    var b, p := Base(layout, x), PageSize(layout, x);
    MultipleOfMultiple(b, p, xferSize);
    SumOfMultiples(b, p, xferSize);
    MultiplesApart(x, b + p, xferSize);
  }

  /** An element at a multiple of the transfer size covers its pages across segments, if
      every page size is a multiple of the transfer size as well. */
  lemma AlignedCovers(layout: seq<Segment>, a: nat, n: nat, xferSize: nat)
    requires WellFormed(layout) && Multiple(a, xferSize)
    requires forall k :: 0 <= k < |layout| ==> Multiple(layout[k].pagesize, xferSize)
    requires forall x :: a <= x < a + n ==> Mapped(layout, x)
    ensures ElementCovers(layout, a, n, xferSize) && ElementOnce(layout, a, n, xferSize)
  {
    forall p | 0 <= p < n && Multiple(p, xferSize)
      ensures ChunkCovers(layout, a + p, ChunkLength(n, p, xferSize))
      ensures ChunkOnce(layout, a + p, ChunkLength(n, p, xferSize))
    {
      AlignedChunk(layout, a + p, ChunkLength(n, p, xferSize), xferSize) by {
        SumOfMultiples(a, p, xferSize);
      }
    }
  }

  lemma AlignedChunk(layout: seq<Segment>, x: nat, n: nat, xferSize: nat)
    requires WellFormed(layout) && Multiple(x, xferSize) && 0 < n <= xferSize && Mapped(layout, x)
    requires forall k :: 0 <= k < |layout| ==> Multiple(layout[k].pagesize, xferSize)
    ensures ChunkCovers(layout, x, n) && ChunkOnce(layout, x, n)
  {
    hide WellFormed, Multiple, ChunkCovers, ChunkOnce, Base, Find;
    PageInSegment(layout, x);
    ChunkInPage(layout, x, xferSize);
    forall y | x <= y < x + n ensures Find(layout, y) == Find(layout, x) {
      SamePage(layout, x, y);
    }
    LongPagesCover(layout, x, n);
    OnceOverEvenPages(layout, x, n);
  }

  // ----- elements that do not

  /** Byte `x` of a chunk lies in a flash page that the erases of the chunk miss. */
  ghost predicate Missed(layout: seq<Segment>, a: nat, n: nat, x: nat) {
    a <= x < a + n && IsFlash(layout, x) && (IsFlash(layout, a) ==> !Reached(layout, a, n, x))
  }

  lemma MissedByte(layout: seq<Segment>, a: nat, n: nat) returns (x: nat)
    requires !ChunkCovers(layout, a, n)
    ensures Missed(layout, a, n, x)
  {
    hide IsFlash, Reached;
    x :| a <= x < a + n && IsFlash(layout, x) && (IsFlash(layout, a) ==> !Reached(layout, a, n, x));
  }

  /** No chunk before it has erased that page. */
  lemma MissedBefore(layout: seq<Segment>, a: nat, n: nat, x: nat, b: nat, m: nat, last: int)
    requires WellFormed(layout) && Missed(layout, a, n, x) && b + m <= a && a + n <= SPACE
    ensures !Requested(layout, ChunkRequests(layout, b, m, true, last), Base(layout, x))
  {
    hide WellFormed, Base, Find, ChunkRequests, Reached;
    RequestsInside(layout, b, m, true, last);
    if Requested(layout, ChunkRequests(layout, b, m, true, last), Base(layout, x)) {
      var r :| r in ChunkRequests(layout, b, m, true, last) && IsFlash(layout, r) && Base(layout, r) == Base(layout, x);
      SamePageBetween(layout, r, a, x);
      FirstReached(layout, a, n, x);
    }
  }

  lemma SamePageBetween(layout: seq<Segment>, r: nat, a: nat, x: nat)
    requires WellFormed(layout) && IsFlash(layout, r) && IsFlash(layout, x) && r <= a <= x
      && Base(layout, r) == Base(layout, x)
    ensures IsFlash(layout, a) && Base(layout, a) == Base(layout, x)
  {
    PageInSegment(layout, r);
    PageInSegment(layout, x);
    PagesApart(layout, r, x);
    SamePage(layout, x, a);
  }

  /** Nor does the chunk itself. */
  lemma MissedNow(layout: seq<Segment>, a: nat, n: nat, x: nat, last: int)
    requires WellFormed(layout) && Missed(layout, a, n, x) && a + n <= SPACE
    ensures !Requested(layout, ChunkRequests(layout, a, n, true, last), Base(layout, x))
  {
    hide WellFormed, Base, Find, ChunkRequests, Reached;
    RequestsInside(layout, a, n, true, last);
    if IsFlash(layout, a) {
      RequestedExactly(layout, a, n, last, x);
    }
  }

  /** One byte through one chunk. */
  lemma ByteThrough(layout: seq<Segment>, s: Progress, a: nat, chunk: seq<bv8>, x: nat)
    requires WellFormed(layout) && |s.flash.mem| == |s.flash.blank| == SPACE && x < SPACE && IsFlash(layout, x)
    ensures var erased := Requested(layout, ChunkRequests(layout, a, |chunk|, true, s.last), Base(layout, x));
            var before := if erased then 0xff else s.flash.mem[x];
            WriteChunk(layout, s, a, chunk, true).flash.mem[x]
            == if a <= x < a + |chunk| then before & chunk[x - a] else before
  {
    hide WellFormed, IsFlash, Base, ChunkRequests, EraseEach, Requested, Program;
    var requests := ChunkRequests(layout, a, |chunk|, true, s.last);
    EraseEachBytes(layout, s.flash, requests);
    ProgramByte(layout, EraseEach(layout, s.flash, requests).(pointer := a), a, chunk, x);
  }

  lemma ProgramByte(layout: seq<Segment>, f: Flash, a: nat, chunk: seq<bv8>, x: nat)
    requires |f.mem| == |f.blank| && x < |f.mem| && IsFlash(layout, x)
    ensures Program(layout, f, a, chunk).mem[x]
         == if a <= x < a + |chunk| then f.mem[x] & chunk[x - a] else f.mem[x]
  {
    hide IsFlash, Overwrites;
  }

  lemma ZeroStays(d: bv8)
    ensures 0 & d == 0
  {
  }

  /** A zero byte that its chunk misses stays zero, unless a later chunk erases it. */
  lemma {:induction false} MissedStuck(layout: seq<Segment>, s: Progress, a: nat, data: seq<bv8>, p: nat, xferSize: nat,
                                       missed: nat, x: nat)
    requires WellFormed(layout) && |s.flash.mem| == |s.flash.blank| == SPACE && a + |data| <= SPACE && 0 < xferSize
    requires missed < |data| && Multiple(missed, xferSize)
    requires Missed(layout, a + missed, ChunkLength(|data|, missed, xferSize), x)
    requires p < |data| ==> Multiple(p, xferSize)
    requires if p <= missed then s.flash.mem[x] == 0 else s.flash.mem[x] in {0, 0xff}
    ensures WriteFrom(layout, s, a, data, p, xferSize, true).flash.mem[x] in {0, 0xff}
    decreases |data| - p
  {
    hide WellFormed, IsFlash, Base, ChunkRequests, WriteChunk, Reached, Multiple;
    if p < |data| {
      var n := ChunkLength(|data|, p, xferSize);
      var chunk := data[p..p + n];
      var t := WriteChunk(layout, s, a + p, chunk, true);
      AddedPageIsMultiple(p, xferSize);
      ByteThrough(layout, s, a + p, chunk, x);
      var m := ChunkLength(|data|, missed, xferSize);
      if p < missed {
        MultiplesApart(p, missed, xferSize);
        MissedBefore(layout, a + missed, m, x, a + p, n, s.last);
      } else if p == missed {
        MissedNow(layout, a + missed, m, x, s.last);
        ZeroStays(chunk[x - a - p]);
      } else {
        MultiplesApart(missed, p, xferSize);
      }
      MissedStuck(layout, t, a, data, p + n, xferSize, missed, x);
    }
  }

  /** An element with such a byte cannot be written over every memory: where that byte is
      zero before, it is not the data's afterwards. */
  lemma CoverageNeeded(layout: seq<Segment>, a: nat, n: nat, xferSize: nat) returns (x: nat)
    requires WellFormed(layout) && a + n <= SPACE && 0 < xferSize && !ElementCovers(layout, a, n, xferSize)
    ensures a <= x < a + n
    ensures forall s: Progress, data: seq<bv8> ::
              |s.flash.mem| == |s.flash.blank| == SPACE && s.flash.mem[x] == 0 && |data| == n
                && data[x - a] !in {0, 0xff} ==>
                WriteFrom(layout, s, a, data, 0, xferSize, true).flash.mem[x] != data[x - a]
  {
    hide WellFormed, IsFlash, Base, WriteFrom, Reached;
    var missed: nat :| missed < n && Multiple(missed, xferSize)
                       && !ChunkCovers(layout, a + missed, ChunkLength(n, missed, xferSize));
    var m := ChunkLength(n, missed, xferSize);
    x := MissedByte(layout, a + missed, m);
    forall s: Progress, data: seq<bv8> | |s.flash.mem| == |s.flash.blank| == SPACE && s.flash.mem[x] == 0 && |data| == n
                                         && data[x - a] !in {0, 0xff}
      ensures WriteFrom(layout, s, a, data, 0, xferSize, true).flash.mem[x] != data[x - a]
    {
      ZeroMultiple(xferSize);
      MissedStuck(layout, s, a, data, 0, xferSize, missed, x);
    }
  }

  /** Whatever the memory and the data, the data is there afterwards. */
  ghost predicate WritesAnything(layout: seq<Segment>, last: int, a: nat, n: nat, xferSize: nat)
    requires a + n <= SPACE && 0 < xferSize
  {
    forall f: Flash, data: seq<bv8> :: |f.mem| == |f.blank| == SPACE && |data| == n ==>
      WriteFrom(layout, Progress(f, last), a, data, 0, xferSize, true).flash.mem[a..a + n] == data
  }

  /** An element the program and the device agree to, with a cache that holds no page, is
      written whatever was there before exactly when all its chunks cover their pages. */
  lemma WritesAnythingExactly(layout: seq<Segment>, last: int, a: nat, n: nat, xferSize: nat)
    requires WellFormed(layout) && a + n <= SPACE && 0 < xferSize
    requires Accepted(layout, last, a, n, xferSize, true)
    requires forall x :: a <= x < a + n && IsFlash(layout, x) ==> Base(layout, x) != last
    ensures WritesAnything(layout, last, a, n, xferSize) <==> ElementCovers(layout, a, n, xferSize)
  {
    hide WellFormed, IsFlash, Base, WriteFrom, ElementCovers, Accepted;
    if ElementCovers(layout, a, n, xferSize) {
      forall f: Flash, data: seq<bv8> | |f.mem| == |f.blank| == SPACE && |data| == n
        ensures WriteFrom(layout, Progress(f, last), a, data, 0, xferSize, true).flash.mem[a..a + n] == data
      {
        var g := WriteFrom(layout, Progress(f, last), a, data, 0, xferSize, true).flash;
        ElementWritten(layout, Progress(f, last), a, data, xferSize, true);
        FreshBytes(layout, f, g, a, data, last);
      }
    } else {
      var x := CoverageNeeded(layout, a, n, xferSize);
      var f := Flash(0, seq(SPACE, i => 0), seq(SPACE, i => false), [], false);
      var data: seq<bv8> := seq(n, i => 0x0f);
      var g := WriteFrom(layout, Progress(f, last), a, data, 0, xferSize, true).flash;
      assert g.mem[x] != data[x - a];
      assert g.mem[a..a + n][x - a] == g.mem[x];
    }
  }

  lemma FreshBytes(layout: seq<Segment>, f: Flash, g: Flash, a: nat, data: seq<bv8>, last: int)
    requires a + |data| <= SPACE && Written(layout, f, g, a, data, true, last)
    requires forall x :: a <= x < a + |data| && IsFlash(layout, x) ==> Base(layout, x) != last
    ensures g.mem[a..a + |data|] == data
  {
    hide IsFlash, Base, Spoils;
  }

  // ----- what the program and the device agree to

  /** An element in memory that can be erased and written is accepted, whatever the cache. */
  lemma FlashAccepted(layout: seq<Segment>, last: int, a: nat, n: nat, xferSize: nat, erasing: bool)
    requires WellFormed(layout) && 0 < n && a + n <= SPACE && 0 < xferSize
    requires forall x :: a <= x < a + n ==> IsFlash(layout, x) && CanWrite(layout, x)
    ensures Accepted(layout, last, a, n, xferSize, erasing)
  {
    hide IsFlash, WellFormed, CanWrite, Allowed;
    FlashAllowed(layout, last, a, n, 0, xferSize, erasing);
    assert Wrap(a + n + SPACE - 1) == a + n - 1;
  }

  lemma {:induction false} FlashAllowed(layout: seq<Segment>, last: int, a: nat, n: nat, p: nat, xferSize: nat,
                                        erasing: bool)
    requires WellFormed(layout) && a + n <= SPACE && 0 < xferSize
    requires forall x :: a <= x < a + n ==> IsFlash(layout, x) && CanWrite(layout, x)
    ensures Allowed(layout, last, a, n, p, xferSize, erasing)
    decreases n - p
  {
    hide IsFlash, WellFormed, CanWrite, ChunkRequests, CacheAfter;
    if p < n {
      var c := ChunkLength(n, p, xferSize);
      var requests := ChunkRequests(layout, a + p, c, erasing, last);
      RequestsInside(layout, a + p, c, erasing, last);
      forall k | 0 <= k < |requests| ensures IsFlash(layout, requests[k]) {
        assert requests[k] in requests;
      }
      FlashAllowed(layout, CacheAfter(layout, last, requests), a, n, p + c, xferSize, erasing);
    }
  }

  /** A chunk may begin where it does, and all its erases look at is flash if it begins in flash. */
  ghost predicate ChunkAgreed(layout: seq<Segment>, a: nat, n: nat, erasing: bool) {
    CanWrite(layout, a)
    && (erasing && IsFlash(layout, a) ==> forall r: nat :: Visits(layout, a, n, r) ==> IsFlash(layout, r))
  }

  /** The same holds of every chunk of an element from byte `p` on. */
  ghost predicate RestAgreed(layout: seq<Segment>, a: nat, n: nat, p: nat, xferSize: nat, erasing: bool) {
    forall q: nat :: p <= q < n && Multiple(q, xferSize) ==>
                       ChunkAgreed(layout, a + q, ChunkLength(n, q, xferSize), erasing)
  }

  lemma ChunkAgreedExactly(layout: seq<Segment>, last: int, a: nat, n: nat, erasing: bool)
    requires WellFormed(layout) && 0 < n && a + n <= SPACE
    ensures ChunkAllowed(layout, last, a, n, erasing) <==> ChunkAgreed(layout, a, n, erasing)
  {
    hide WellFormed, IsFlash, CanWrite, Visits, ChunkRequests;
    var requests := ChunkRequests(layout, a, n, erasing, last);
    if erasing && IsFlash(layout, a) {
      forall r: nat ensures r in requests <==> Visits(layout, a, n, r) && (r == a ==> Base(layout, a) != last) {
        ChunkMembers(layout, a, n, last, r);
      }
      if AllFlash(layout, requests) {
        forall r: nat | Visits(layout, a, n, r) ensures IsFlash(layout, r) {
          if r != a {
            var k :| 0 <= k < |requests| && requests[k] == r;
          }
        }
      }
      if forall r: nat :: Visits(layout, a, n, r) ==> IsFlash(layout, r) {
        forall k | 0 <= k < |requests| ensures IsFlash(layout, requests[k]) {
          assert requests[k] in requests;
        }
      }
    } else {
      NoRequests(layout, a, n, erasing, last);
    }
  }

  lemma NoRequests(layout: seq<Segment>, a: nat, n: nat, erasing: bool, last: int)
    requires !(erasing && IsFlash(layout, a))
    ensures ChunkRequests(layout, a, n, erasing, last) == []
  {
  }

  lemma {:induction false} RestAgreedExactly(layout: seq<Segment>, last: int, a: nat, n: nat, p: nat, xferSize: nat,
                                             erasing: bool)
    requires WellFormed(layout) && a + n <= SPACE && 0 < xferSize && (p < n ==> Multiple(p, xferSize))
    ensures Allowed(layout, last, a, n, p, xferSize, erasing) <==> RestAgreed(layout, a, n, p, xferSize, erasing)
    decreases n - p
  {
    hide WellFormed, CanWrite, ChunkRequests, AllFlash, CacheAfter, ChunkAgreed, Multiple;
    if p < n {
      var c := ChunkLength(n, p, xferSize);
      var now := CacheAfter(layout, last, ChunkRequests(layout, a + p, c, erasing, last));
      ChunkAgreedExactly(layout, last, a + p, c, erasing);
      NextMultiple(p, xferSize);
      RestAgreedExactly(layout, now, a, n, p + c, xferSize, erasing);
      if RestAgreed(layout, a, n, p + c, xferSize, erasing) && ChunkAgreed(layout, a + p, c, erasing) {
        forall q: nat | p <= q < n && Multiple(q, xferSize)
          ensures ChunkAgreed(layout, a + q, ChunkLength(n, q, xferSize), erasing)
        {
          if p < q < p + c {
            NoMultipleBetween(p, q, xferSize);
          }
        }
      }
    }
  }

  lemma NextMultiple(p: nat, n: nat)
    requires Multiple(p, n) && 0 < n
    ensures Multiple(p + n, n)
  {
    hide Multiple;
    SumOfMultiples(p, n, n);
  }

  lemma NoMultipleBetween(p: nat, q: nat, n: nat)
    requires Multiple(p, n) && Multiple(q, n) && 0 < n
    ensures !(p < q < p + n)
  {
    hide Multiple;
    if p < q {
      MultiplesApart(p, q, n);
    }
  }

  /** When an element is accepted: its last byte lies in memory that can be written, each of its
      chunks begins in such memory, and where a chunk begins in flash everything its erases look
      at is flash. What was erased before makes no difference. */
  lemma AcceptedExactly(layout: seq<Segment>, last: int, a: nat, n: nat, xferSize: nat, erasing: bool)
    requires WellFormed(layout) && 0 < n && a + n <= SPACE && 0 < xferSize
    ensures Accepted(layout, last, a, n, xferSize, erasing) <==>
      && CanWrite(layout, a + n - 1)
      && forall q: nat :: q < n && Multiple(q, xferSize) ==>
                            ChunkAgreed(layout, a + q, ChunkLength(n, q, xferSize), erasing)
  {
    hide WellFormed, CanWrite, ChunkAgreed, Allowed, Multiple;
    assert Multiple(0, xferSize) by {
      NothingMultiple(xferSize);
    }
    RestAgreedExactly(layout, last, a, n, 0, xferSize, erasing);
    assert Wrap(a + n + SPACE - 1) == a + n - 1;
  }

  lemma NothingMultiple(n: nat)
    requires 0 < n
    ensures Multiple(0, n)
  {
  }
}
