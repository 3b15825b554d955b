/** Which pages the erases of one chunk reach. */
module Strides {
  import opened Arithmetic
  import opened Pages
  import opened Programming

  /** `r` lies whole strides from `a`. */
  predicate OnStride(a: int, pageSize: int, r: int)
    requires 0 < pageSize
  {
    (r - a) % pageSize == 0
  }

  /** The last address the stride through `n` bytes at `a` meets. */
  function LastStride(a: nat, n: nat, pageSize: nat): int
    requires 0 < pageSize
  {
    a + n - 1 - (n - 1) % pageSize
  }

  /** The last byte is asked for once more: the mask of its address, with the page size of
      the first one, is not the page the stride met last. */
  predicate TailAsked(layout: seq<Segment>, a: nat, n: nat)
    requires 0 < n && 0 < PageSize(layout, a) <= SPACE
  {
    Mask(a + n - 1, PageSize(layout, a)) != Base(layout, LastStride(a, n, PageSize(layout, a)))
  }

  /** The erases of the chunk look at address `r`: the stride does, or the last byte is
      asked for once more. */
  predicate Visits(layout: seq<Segment>, a: nat, n: nat, r: int) {
    var p := PageSize(layout, a);
    && 0 < p <= SPACE
    && a <= r < a + n
    && (OnStride(a, p, r) || (r == a + n - 1 && TailAsked(layout, a, n)))
  }

  /** They look at the page of `x`. */
  ghost predicate Reached(layout: seq<Segment>, a: nat, n: nat, x: int) {
    exists r :: Visits(layout, a, n, r) && Base(layout, x) <= r < PageEnd(layout, x)
  }

  /** Some flash address among `requests` lies in the page at `q`. */
  ghost predicate Requested(layout: seq<Segment>, requests: seq<nat>, q: int) {
    exists r :: r in requests && IsFlash(layout, r) && Base(layout, r) == q
  }

  // ----- remainders

  lemma SameRemainder(x: int, p: int)
    requires 0 < p
    ensures (x - p) % p == x % p
  {
    var q, r := x / p, x % p;
    assert x == p * q + r;
    Distribute(p, q, 1);
    RemainderUnique(x - p, p, q - 1, r);
  }

  lemma SmallRemainder(x: int, p: int)
    requires 0 <= x < p
    ensures x % p == x
  {
    RemainderUnique(x, p, 0, x);
  }

  /** What is whole strides from the next stop is whole strides from this one. */
  lemma StrideOn(at: int, p: int, r: int)
    requires 0 < p
    ensures OnStride(at + p, p, r) <==> OnStride(at, p, r)
    ensures at <= r < at + p ==> (OnStride(at, p, r) <==> r == at)
  {
    SameRemainder(r - at, p);
    if at <= r < at + p {
      SmallRemainder(r - at, p);
    }
  }

  /** The first number from `b` on that lies whole strides from `a`. */
  function NextStride(a: int, b: int, p: int): int
    requires 0 < p
  {
    b + (a - b) % p
  }

  lemma NextStrideMeets(a: int, b: int, p: int)
    requires 0 < p
    ensures b <= NextStride(a, b, p) && (NextStride(a, b, p) - a) % p == 0
  {
    var d, q := (a - b) % p, (a - b) / p;
    assert a - b == p * q + d;
    Distribute(p, 0, q);
    RemainderUnique(b + d - a, p, 0 - q, 0);
  }

  lemma NextStrideFirst(a: int, b: int, p: int, r: int)
    requires 0 < p && b <= r && (r - a) % p == 0
    ensures NextStride(a, b, p) <= r
  {
    NextStrideMeets(a, b, p);
    var s := NextStride(a, b, p);
    var j, k := (s - a) / p, (r - a) / p;
    assert s - a == p * j && r - a == p * k;
    Distribute(p, k, j);
    NegativeMultiple(p, k - j);
    assert s < b + p;
  }

  lemma NegativeMultiple(p: int, k: int)
    requires 0 < p
    ensures k < 0 ==> p * k <= -p
    ensures k >= 0 ==> p * k >= 0
  {
  }

  // ----- the closed form of the requests

  /** Past the first stride nothing is skipped any more: the page in the cache ends
      before the mask. */
  lemma MaskPasses(layout: seq<Segment>, at: nat, pageSize: nat, last: int)
    requires PowerOfTwo(pageSize) && pageSize <= SPACE && at < SPACE && last <= at - pageSize
    ensures last < Mask(at, pageSize)
  {
    SpaceIsPower();
    MaskRoundsDown(at, pageSize, SPACE);
  }

  lemma BaseBelow(layout: seq<Segment>, x: int)
    requires 0 <= x
    ensures Base(layout, x) <= x
  {
  }

  /** What the rest of the stride asks for. */
  lemma {:induction false} StrideMembers(layout: seq<Segment>, at: nat, end: nat, pageSize: nat, last: int, r: nat)
    requires PowerOfTwo(pageSize) && 0 < pageSize <= SPACE && 0 < end <= SPACE && last <= at - pageSize
    ensures r in EraseRequests(layout, at, end, pageSize, last) <==>
      || (at <= r < end && OnStride(at, pageSize, r))
      || (r == end - 1
          && Mask(end - 1, pageSize) != if at < end then Base(layout, LastStride(at, end - at, pageSize)) else last)
    decreases end - at
  {
    hide Mask, Base, PowerOfTwo, LastStride, OnStride;
    if at < end {
      MaskPasses(layout, at, pageSize, last);
      BaseBelow(layout, at);
      StrideMembers(layout, at + pageSize, end, pageSize, Base(layout, at), r);
      StrideOn(at, pageSize, r);
      LastStrideMoves(at, end, pageSize);
    }
  }

  lemma LastStrideMoves(at: nat, end: nat, pageSize: nat)
    requires 0 < pageSize && at < end
    ensures LastStride(at, end - at, pageSize)
         == if at + pageSize < end then LastStride(at + pageSize, end - at - pageSize, pageSize) else at
  {
    SameRemainder(end - 1 - at, pageSize);
    if end <= at + pageSize {
      SmallRemainder(end - 1 - at, pageSize);
    }
  }

  /** The first address of a chunk, and the rest of its stride. */
  lemma ChunkHead(layout: seq<Segment>, a: nat, n: nat, last: int)
    requires WellFormed(layout) && IsFlash(layout, a) && 0 < n
    ensures var p := PageSize(layout, a);
            && 0 < p <= SPACE
            && ChunkRequests(layout, a, n, true, last)
               == (if Base(layout, a) == last then [] else [a])
                  + EraseRequests(layout, a + p, a + n, p, Base(layout, a))
  {
    hide Mask, Base, PowerOfTwo, Find, WellFormed, IsFlash, PageSize;
    FirstStride(layout, a);
    var p := PageSize(layout, a);
    assert [] + EraseRequests(layout, a + p, a + n, p, last) == EraseRequests(layout, a + p, a + n, p, last);
  }

  /** The rest of the stride looks at all but the first address. */
  lemma RestMembers(layout: seq<Segment>, a: nat, n: nat, r: nat)
    requires WellFormed(layout) && IsFlash(layout, a) && 0 < n && a + n <= SPACE && 0 < PageSize(layout, a) <= SPACE
    ensures r in EraseRequests(layout, a + PageSize(layout, a), a + n, PageSize(layout, a), Base(layout, a)) <==>
      Visits(layout, a, n, r) && r != a
  {
    hide Mask, Base, PowerOfTwo, Find, WellFormed, IsFlash, PageSize, LastStride, EraseRequests, OnStride;
    var p := PageSize(layout, a);
    FirstStride(layout, a);
    LastStrideMoves(a, a + n, p);
    StrideOn(a, p, r);
    BaseBelow(layout, a);
    StrideMembers(layout, a + p, a + n, p, Base(layout, a), r);
  }

  /** A chunk asks for exactly the addresses its erases look at, but for its first page
      when that is the cached one. */
  lemma ChunkMembers(layout: seq<Segment>, a: nat, n: nat, last: int, r: nat)
    requires WellFormed(layout) && IsFlash(layout, a) && 0 < n && a + n <= SPACE
    ensures r in ChunkRequests(layout, a, n, true, last) <==>
      Visits(layout, a, n, r) && (r == a ==> Base(layout, a) != last)
  {
    hide Base, Find, WellFormed, IsFlash, PageSize, EraseRequests, ChunkRequests, TailAsked;
    ChunkHead(layout, a, n, last);
    SmallRemainder(0, PageSize(layout, a));
    RestMembers(layout, a, n, r);
  }

  lemma FirstStride(layout: seq<Segment>, a: nat)
    requires WellFormed(layout) && IsFlash(layout, a)
    ensures var p := PageSize(layout, a);
            PowerOfTwo(p) && 0 < p <= SPACE && Mask(a, p) == Base(layout, a)
  {
    MaskIsBase(layout, a);
    PageInSegment(layout, a);
  }

  /** The first page is looked at once only. */
  lemma FirstPageOnce(layout: seq<Segment>, a: nat, n: nat, r: nat)
    requires WellFormed(layout) && IsFlash(layout, a)
    requires Visits(layout, a, n, r) && r < PageEnd(layout, a)
    ensures r == a
  {
    var p := PageSize(layout, a);
    BaseBelow(layout, a);
    SmallRemainder(r - a, p);
    if r == a + n - 1 {
      TailInFirstPage(layout, a, n);
    }
  }

  /** A last byte in the first page is not asked for. */
  lemma TailInFirstPage(layout: seq<Segment>, a: nat, n: nat)
    requires WellFormed(layout) && IsFlash(layout, a) && 0 < n && a + n - 1 < PageEnd(layout, a)
    requires 0 < PageSize(layout, a) <= SPACE
    ensures !TailAsked(layout, a, n)
  {
    hide Base, Find, WellFormed, Mask;
    var tail, p := a + n - 1, PageSize(layout, a);
    PageInSegment(layout, a);
    SamePage(layout, a, tail);
    MaskIsBase(layout, tail);
    SmallRemainder(n - 1, p);
  }

  // ----- which pages are erased

  /** For any map, chunk and cache: a flash page the chunk overlaps is erased exactly when
      the erases look at it and it is not the chunk's first page in the cache. */
  lemma RequestedExactly(layout: seq<Segment>, a: nat, n: nat, last: int, x: nat)
    requires WellFormed(layout) && IsFlash(layout, a) && IsFlash(layout, x) && a <= x < a + n <= SPACE
    ensures Requested(layout, ChunkRequests(layout, a, n, true, last), Base(layout, x)) <==>
      Reached(layout, a, n, x) && !(Base(layout, x) == Base(layout, a) == last)
  {
    hide Visits, ChunkRequests, Mask;
    var requests := ChunkRequests(layout, a, n, true, last);
    PageInSegment(layout, x);
    PageInSegment(layout, a);
    PagesApart(layout, a, x);
    var excluded := Base(layout, x) == Base(layout, a) == last;
    if Requested(layout, requests, Base(layout, x)) {
      var r :| r in requests && IsFlash(layout, r) && Base(layout, r) == Base(layout, x);
      ChunkMembers(layout, a, n, last, r);
      PageInSegment(layout, r);
      PagesApart(layout, r, x);
      if excluded {
        FirstPageOnce(layout, a, n, r);
      }
    }
    if Reached(layout, a, n, x) {
      var r :| Visits(layout, a, n, r) && Base(layout, x) <= r < PageEnd(layout, x);
      SamePage(layout, x, r);
      VisitsInside(layout, a, n, r);
      ChunkMembers(layout, a, n, last, r);
    }
  }

  lemma VisitsInside(layout: seq<Segment>, a: nat, n: nat, r: int)
    requires Visits(layout, a, n, r)
    ensures a <= r < a + n
  {
  }

  /** All flash pages the chunk overlaps are prepared: it begins in flash memory and its
      erases look at each of them, or there is none. */
  ghost predicate ChunkCovers(layout: seq<Segment>, a: nat, n: nat) {
    if IsFlash(layout, a) then forall x :: a <= x < a + n && IsFlash(layout, x) ==> Reached(layout, a, n, x)
    else forall x :: a <= x < a + n ==> !IsFlash(layout, x)
  }

  /** The chunk's first page is the one in the cache. */
  predicate FirstCached(layout: seq<Segment>, a: nat, last: int, x: int) {
    IsFlash(layout, a) && Base(layout, x) == Base(layout, a) == last
  }

  /** The page of `x` is erased for the chunk, or is its first one and cached. */
  ghost predicate Provided(layout: seq<Segment>, a: nat, n: nat, last: int, x: int) {
    Requested(layout, ChunkRequests(layout, a, n, true, last), Base(layout, x)) || FirstCached(layout, a, last, x)
  }

  /** Every overlapped flash page is erased, or is the chunk's first one and cached,
      exactly when the chunk covers its pages. */
  lemma CoverageExact(layout: seq<Segment>, a: nat, n: nat, last: int)
    requires WellFormed(layout) && a + n <= SPACE
    ensures (forall x :: a <= x < a + n && IsFlash(layout, x) ==> Provided(layout, a, n, last, x))
       <==> ChunkCovers(layout, a, n)
  {
    hide Base, IsFlash, Reached;
    forall x | a <= x < a + n && IsFlash(layout, x)
      ensures Provided(layout, a, n, last, x) <==> IsFlash(layout, a) && Reached(layout, a, n, x)
    {
      if IsFlash(layout, a) {
        RequestedExactly(layout, a, n, last, x);
        if Base(layout, x) == Base(layout, a) {
          FirstReached(layout, a, n, x);
        }
      } else {
        assert ChunkRequests(layout, a, n, true, last) == [];
      }
    }
  }

  lemma FirstReached(layout: seq<Segment>, a: nat, n: nat, x: nat)
    requires WellFormed(layout) && IsFlash(layout, a) && IsFlash(layout, x) && a <= x < a + n
    requires Base(layout, x) == Base(layout, a)
    ensures Reached(layout, a, n, x)
  {
    PageInSegment(layout, a);
    PageInSegment(layout, x);
    PagesApart(layout, a, x);
    SmallRemainder(0, PageSize(layout, a));
    assert Visits(layout, a, n, a);
  }

  /** The same in numbers: the page holds the chunk's first byte, or the next address of
      the stride from its beginning on, or the chunk's last byte and that is asked for. */
  lemma ReachedInNumbers(layout: seq<Segment>, a: nat, n: nat, x: nat)
    requires WellFormed(layout) && IsFlash(layout, a) && IsFlash(layout, x) && a <= x < a + n
    ensures Reached(layout, a, n, x) <==>
      var b, e, p := Base(layout, x), PageEnd(layout, x), PageSize(layout, a);
      || b <= a
      || (0 < p && NextStride(a, b, p) < e && NextStride(a, b, p) < a + n)
      || (a + n <= e && Visits(layout, a, n, a + n - 1))
  {
    hide TailAsked, Base, Find, WellFormed, NextStride;
    var b, e, p := Base(layout, x), PageEnd(layout, x), PageSize(layout, a);
    PageInSegment(layout, a);
    PageInSegment(layout, x);
    PagesApart(layout, a, x);
    SmallRemainder(0, p);
    PageSizeBounds(layout, a);
    NextStrideMeets(a, b, p);
    if Reached(layout, a, n, x) {
      var r :| Visits(layout, a, n, r) && b <= r < e;
      if (r - a) % p == 0 {
        NextStrideFirst(a, b, p, r);
      }
    }
    if b <= a {
      assert Visits(layout, a, n, a);
    } else if NextStride(a, b, p) < e && NextStride(a, b, p) < a + n {
      assert Visits(layout, a, n, NextStride(a, b, p));
    }
  }

  // ----- chunks that cover their pages

  /** Every page the chunk overlaps is at least as long as the chunk or as its first page. */
  predicate LongPages(layout: seq<Segment>, a: nat, n: nat) {
    forall x :: a <= x < a + n ==>
      Mapped(layout, x) && (n <= PageSize(layout, x) || PageSize(layout, a) <= PageSize(layout, x))
  }

  /** Then a chunk that begins in flash memory covers its pages, whatever the segments it
      lies in. */
  lemma LongPagesCover(layout: seq<Segment>, a: nat, n: nat)
    requires WellFormed(layout) && LongPages(layout, a, n) && a + n <= SPACE
    requires IsFlash(layout, a) || forall x :: a <= x < a + n ==> !IsFlash(layout, x)
    ensures ChunkCovers(layout, a, n)
  {
    hide Base, PageSize, Find, WellFormed;
    forall x | a <= x < a + n && IsFlash(layout, x)
      ensures Reached(layout, a, n, x)
    {
      LongPageReached(layout, a, n, x);
    }
  }

  lemma LongPageReached(layout: seq<Segment>, a: nat, n: nat, x: nat)
    requires WellFormed(layout) && LongPages(layout, a, n) && a <= x < a + n <= SPACE
    requires IsFlash(layout, a) && IsFlash(layout, x)
    ensures Reached(layout, a, n, x)
  {
    hide Base, Find, WellFormed, NextStride, TailAsked;
    var b, e, p := Base(layout, x), PageEnd(layout, x), PageSize(layout, a);
    PageInSegment(layout, a);
    PageInSegment(layout, x);
    ReachedInNumbers(layout, a, n, x);
    PageSizeBounds(layout, a);
    if a < b {
      NextStrideMeets(a, b, p);
      NextStrideNear(a, b, p);
      if a + n <= e && a + n <= NextStride(a, b, p) {
        TailIsAsked(layout, a, n, x, p);
      }
    }
  }

  lemma NextStrideNear(a: int, b: int, p: int)
    requires 0 < p
    ensures NextStride(a, b, p) < b + p
  {
  }

  /** The page of the last byte is asked for if the stride steps over its beginning. */
  lemma TailIsAsked(layout: seq<Segment>, a: nat, n: nat, x: nat, p: nat)
    requires WellFormed(layout) && LongPages(layout, a, n) && a <= x < a + n <= SPACE
    requires IsFlash(layout, a) && IsFlash(layout, x) && 0 < p == PageSize(layout, a)
    requires a < Base(layout, x) && a + n <= PageEnd(layout, x) && a + n <= NextStride(a, Base(layout, x), p)
    ensures Visits(layout, a, n, a + n - 1)
  {
    hide Base, Find, WellFormed, Mask, NextStride, LastStride, PowerOfTwo, PageSize;
    var tail, s := a + n - 1, LastStride(a, n, p);
    StrideInside(a, n, p);
    FirstStride(layout, a);
    MaskOf(tail, p);
    if Base(layout, x) <= s {
      NextStrideFirst(a, Base(layout, x), p, s);
    }
    SteppedOver(layout, s, x);
    if a < s {
      StridesApart(a, s, p);
    }
  }

  lemma SteppedOver(layout: seq<Segment>, s: int, x: nat)
    requires WellFormed(layout) && Mapped(layout, s) && Mapped(layout, x) && s < Base(layout, x)
    ensures Base(layout, s) + PageSize(layout, s) <= Base(layout, x) <= x
  {
    PageInSegment(layout, s);
    PageInSegment(layout, x);
    PagesApart(layout, s, x);
  }

  lemma StrideInside(a: nat, n: nat, p: nat)
    requires 0 < n && 0 < p
    ensures a <= LastStride(a, n, p) < a + n && (LastStride(a, n, p) - a) % p == 0
  {
    var q, r := (n - 1) / p, (n - 1) % p;
    assert n - 1 == p * q + r;
    RemainderUnique(n - 1 - r, p, q, 0);
    NegativeMultiple(p, q);
  }

  lemma StridesApart(a: int, s: int, p: int)
    requires 0 < p && a < s && (s - a) % p == 0
    ensures a + p <= s
  {
    if s - a < p {
      SmallRemainder(s - a, p);
    }
  }

  lemma MaskOf(x: nat, p: nat)
    requires PowerOfTwo(p) && 0 < p <= SPACE && x < SPACE
    ensures x - p < Mask(x, p) <= x
  {
    SpaceIsPower();
    MaskRoundsDown(x, p, SPACE);
  }

  // ----- the order of the requests

  /** The requests climb; strictly so from page to page if `strict`. */
  predicate Climbing(layout: seq<Segment>, requests: seq<nat>, strict: bool) {
    forall j, k :: 0 <= j < k < |requests| ==>
      && requests[j] <= requests[k]
      && (strict && IsFlash(layout, requests[j]) && IsFlash(layout, requests[k]) ==>
            Base(layout, requests[j]) < Base(layout, requests[k]))
  }

  /** `x` comes before all of these. */
  predicate Ahead(layout: seq<Segment>, x: nat, requests: seq<nat>, strict: bool) {
    forall r :: r in requests ==>
      && x <= r
      && (strict && IsFlash(layout, x) && IsFlash(layout, r) ==> Base(layout, x) < Base(layout, r))
  }

  lemma ClimbingFrom(layout: seq<Segment>, x: nat, requests: seq<nat>, strict: bool)
    requires Climbing(layout, requests, strict) && Ahead(layout, x, requests, strict)
    ensures Climbing(layout, [x] + requests, strict)
  {
    hide IsFlash, Base;
    var s := [x] + requests;
    forall j, k | 0 <= j < k < |s|
      ensures s[j] <= s[k]
      ensures strict && IsFlash(layout, s[j]) && IsFlash(layout, s[k]) ==> Base(layout, s[j]) < Base(layout, s[k])
    {
      assert s[k] == requests[k - 1] && s[k] in requests;
      if j > 0 {
        assert s[j] == requests[j - 1];
      }
    }
  }

  /** From `at` on, no two stops of the stride lie in one flash page, nor does the last byte
      with the last of them, if it is asked for. */
  predicate StrideOnce(layout: seq<Segment>, at: nat, end: nat, pageSize: nat)
    requires 0 < pageSize <= SPACE && 0 < end
  {
    && (forall r :: at <= r && r + pageSize < end && OnStride(at, pageSize, r) && IsFlash(layout, r) ==>
          PageEnd(layout, r) <= r + pageSize)
    && (at < end && IsFlash(layout, end - 1)
        && Mask(end - 1, pageSize) != Base(layout, LastStride(at, end - at, pageSize)) ==>
          LastStride(at, end - at, pageSize) < Base(layout, end - 1))
  }

  /** One stop less. */
  lemma StrideOnceStep(layout: seq<Segment>, at: nat, end: nat, pageSize: nat)
    requires 0 < pageSize <= SPACE && at < end
    ensures StrideOnce(layout, at, end, pageSize) <==>
      if at + pageSize < end then
        && (IsFlash(layout, at) ==> PageEnd(layout, at) <= at + pageSize)
        && StrideOnce(layout, at + pageSize, end, pageSize)
      else
        IsFlash(layout, end - 1) && Mask(end - 1, pageSize) != Base(layout, at) ==> at < Base(layout, end - 1)
  {
    hide IsFlash, Base, Mask, LastStride, OnStride, PageSize;
    LastStrideMoves(at, end, pageSize);
    StrideOn(at, pageSize, at);
    forall r: int
      ensures OnStride(at + pageSize, pageSize, r) <==> OnStride(at, pageSize, r)
      ensures at <= r < at + pageSize ==> (OnStride(at, pageSize, r) <==> r == at)
    {
      StrideOn(at, pageSize, r);
    }
  }

  lemma StrideAhead(layout: seq<Segment>, at: nat, end: nat, pageSize: nat, strict: bool)
    requires WellFormed(layout) && PowerOfTwo(pageSize) && 0 < pageSize <= SPACE && at < end <= SPACE
    requires strict ==> StrideOnce(layout, at, end, pageSize)
    ensures Ahead(layout, at, EraseRequests(layout, at + pageSize, end, pageSize, Base(layout, at)), strict)
  {
    hide WellFormed, Mask, Base, PowerOfTwo, EraseRequests, Find, LastStride, OnStride, PageSize;
    var rest := EraseRequests(layout, at + pageSize, end, pageSize, Base(layout, at));
    StrideOnceStep(layout, at, end, pageSize);
    BaseBelow(layout, at);
    forall r | r in rest
      ensures at <= r
      ensures strict && IsFlash(layout, at) && IsFlash(layout, r) ==> Base(layout, at) < Base(layout, r)
    {
      StrideMembers(layout, at + pageSize, end, pageSize, Base(layout, at), r);
      if strict && IsFlash(layout, at) && IsFlash(layout, r) {
        if at + pageSize < end {
          BaseBeyond(layout, at, r);
        } else {
          BaseBelow(layout, at);
        }
      }
    }
  }

  /** Past the page of `x` a new one begins. */
  lemma BaseBeyond(layout: seq<Segment>, x: nat, y: nat)
    requires WellFormed(layout) && IsFlash(layout, x) && IsFlash(layout, y) && PageEnd(layout, x) <= y
    ensures Base(layout, x) < Base(layout, y)
  {
    PageInSegment(layout, x);
    PageInSegment(layout, y);
    PagesApart(layout, x, y);
  }

  lemma {:induction false} StrideClimbs(layout: seq<Segment>, at: nat, end: nat, pageSize: nat, last: int, strict: bool)
    requires WellFormed(layout) && PowerOfTwo(pageSize) && 0 < pageSize <= SPACE && 0 < end <= SPACE
      && last <= at - pageSize
    requires strict ==> StrideOnce(layout, at, end, pageSize)
    ensures Climbing(layout, EraseRequests(layout, at, end, pageSize, last), strict)
    decreases end - at
  {
    hide WellFormed, Mask, Base, IsFlash, PowerOfTwo, Climbing, StrideOnce;
    if at < end {
      MaskPasses(layout, at, pageSize, last);
      BaseBelow(layout, at);
      StrideAhead(layout, at, end, pageSize, strict);
      StrideOnceStep(layout, at, end, pageSize);
      if end <= at + pageSize {
        StrideOncePast(layout, at + pageSize, end, pageSize);
      }
      StrideClimbs(layout, at + pageSize, end, pageSize, Base(layout, at), strict);
      ClimbingFrom(layout, at, EraseRequests(layout, at + pageSize, end, pageSize, Base(layout, at)), strict);
    } else {
      SingleClimbs(layout, EraseRequests(layout, at, end, pageSize, last), strict);
    }
  }

  lemma StrideOncePast(layout: seq<Segment>, at: nat, end: nat, pageSize: nat)
    requires 0 < pageSize <= SPACE && 0 < end <= at
    ensures StrideOnce(layout, at, end, pageSize)
  {
  }

  lemma SingleClimbs(layout: seq<Segment>, requests: seq<nat>, strict: bool)
    requires |requests| <= 1
    ensures Climbing(layout, requests, strict)
  {
  }

  /** The converse: requests that climb strictly come from a stride without two stops in a
      flash page. */
  lemma {:induction false} StrictOnce(layout: seq<Segment>, at: nat, end: nat, pageSize: nat, last: int)
    requires WellFormed(layout) && PowerOfTwo(pageSize) && 0 < pageSize <= SPACE && 0 < end <= SPACE
      && last <= at - pageSize
    requires Climbing(layout, EraseRequests(layout, at, end, pageSize, last), true)
    ensures StrideOnce(layout, at, end, pageSize)
    decreases end - at
  {
    hide WellFormed, Mask, Base, IsFlash, PowerOfTwo, Climbing, StrideOnce, PageSize;
    if at < end {
      MaskPasses(layout, at, pageSize, last);
      BaseBelow(layout, at);
      StrideOnceStep(layout, at, end, pageSize);
      var rest := EraseRequests(layout, at + pageSize, end, pageSize, Base(layout, at));
      ClimbingRest(layout, at, rest);
      if at + pageSize < end {
        MaskPasses(layout, at + pageSize, pageSize, Base(layout, at));
        assert rest[0] == at + pageSize;
        NextPage(layout, at, at + pageSize);
        StrictOnce(layout, at + pageSize, end, pageSize, Base(layout, at));
      } else if Mask(end - 1, pageSize) != Base(layout, at) {
        assert rest == [end - 1];
        NextPage(layout, at, end - 1);
      }
    } else {
      StrideOncePast(layout, at, end, pageSize);
    }
  }

  lemma ClimbingRest(layout: seq<Segment>, x: nat, rest: seq<nat>)
    requires Climbing(layout, [x] + rest, true)
    ensures Climbing(layout, rest, true)
    ensures rest != [] && IsFlash(layout, x) && IsFlash(layout, rest[0]) ==> Base(layout, x) < Base(layout, rest[0])
  {
    hide IsFlash, Base;
    var s := [x] + rest;
    assert forall k :: 0 <= k < |rest| ==> rest[k] == s[k + 1];
    if rest != [] {
      assert s[0] == x && s[1] == rest[0];
    }
  }

  /** If the page of `y` does not begin at or before `x`, the page of `x` ends before `y`. */
  lemma NextPage(layout: seq<Segment>, x: nat, y: nat)
    requires WellFormed(layout) && x <= y
    requires IsFlash(layout, x) && IsFlash(layout, y) ==> Base(layout, x) < Base(layout, y)
    ensures IsFlash(layout, x) ==> PageEnd(layout, x) <= y
    ensures IsFlash(layout, y) ==> x < Base(layout, y)
  {
    hide WellFormed, Base, Find, PageSize;
    if IsFlash(layout, x) {
      PageInSegment(layout, x);
      if y < PageEnd(layout, x) {
        SamePage(layout, x, y);
      }
    }
    if IsFlash(layout, y) {
      PageInSegment(layout, y);
      if Base(layout, y) <= x {
        SamePage(layout, y, x);
      }
    }
  }

  /** Each page is asked for once: no two stops of the stride lie in one flash page, nor does
      the last byte with the last of them, if it is asked for. */
  predicate ChunkOnce(layout: seq<Segment>, a: nat, n: nat) {
    IsFlash(layout, a) && 0 < n && 0 < PageSize(layout, a) <= SPACE ==>
      StrideOnce(layout, a, a + n, PageSize(layout, a))
  }

  /** For any map, chunk and cache: the requests climb, and from page to page strictly, so
      that no page is erased twice, exactly under that condition. */
  lemma ChunkClimbs(layout: seq<Segment>, a: nat, n: nat, last: int)
    requires WellFormed(layout) && a + n <= SPACE
    ensures Climbing(layout, ChunkRequests(layout, a, n, true, last), false)
    ensures Climbing(layout, ChunkRequests(layout, a, n, true, last), true) <==> ChunkOnce(layout, a, n)
  {
    hide WellFormed, Mask, Base, PowerOfTwo, Climbing, Find, PageSize, StrideOnce, EraseRequests, ChunkRequests;
    if 0 < n && IsFlash(layout, a) {
      ChunkHead(layout, a, n, last);
      FirstStride(layout, a);
      BaseBelow(layout, a);
      var p, end := PageSize(layout, a), a + n;
      var rest := EraseRequests(layout, a + p, end, p, Base(layout, a));
      FirstStopOnce(layout, a, n);
      if ChunkOnce(layout, a, n) {
        StrideClimbs(layout, a + p, end, p, Base(layout, a), true);
        FirstAhead(layout, a, n, true);
        ClimbingFrom(layout, a, rest, true);
      }
      StrideClimbs(layout, a + p, end, p, Base(layout, a), false);
      FirstAhead(layout, a, n, false);
      ClimbingFrom(layout, a, rest, false);
      assert [] + rest == rest;
      if Climbing(layout, ChunkRequests(layout, a, n, true, last), true) {
        if Base(layout, a) != last {
          ClimbingRest(layout, a, rest);
        }
        StrictOnce(layout, a + p, end, p, Base(layout, a));
      }
    } else {
      NoFlashNoRequests(layout, a, n, last);
      SingleClimbs(layout, [], true);
      SingleClimbs(layout, [], false);
    }
  }

  lemma NoFlashNoRequests(layout: seq<Segment>, a: nat, n: nat, last: int)
    requires n == 0 || !IsFlash(layout, a)
    ensures ChunkRequests(layout, a, n, true, last) == []
  {
  }

  lemma InOnePage(layout: seq<Segment>, x: nat, y: nat)
    requires WellFormed(layout) && IsFlash(layout, y) && Base(layout, y) <= x <= y
    ensures y < PageEnd(layout, x)
  {
    PageInSegment(layout, y);
    SamePage(layout, y, x);
  }

  /** The first stop never shares its page. */
  lemma FirstStopOnce(layout: seq<Segment>, a: nat, n: nat)
    requires WellFormed(layout) && IsFlash(layout, a) && 0 < n && a + n <= SPACE && 0 < PageSize(layout, a) <= SPACE
    ensures ChunkOnce(layout, a, n) <==> StrideOnce(layout, a + PageSize(layout, a), a + n, PageSize(layout, a))
  {
    hide WellFormed, Mask, Base, PowerOfTwo, Find, PageSize, StrideOnce;
    var p, end := PageSize(layout, a), a + n;
    BaseBelow(layout, a);
    StrideOnceStep(layout, a, end, p);
    if end <= a + p {
      StrideOncePast(layout, a + p, end, p);
      LastStrideMoves(a, end, p);
      if IsFlash(layout, end - 1) && Mask(end - 1, p) != Base(layout, a) && Base(layout, end - 1) <= a {
        InOnePage(layout, a, end - 1);
        TailInFirstPage(layout, a, n);
      }
    }
  }

  /** It holds for a chunk no longer than its first page, and for one over flash pages of one
      size. */
  lemma OnceOverEvenPages(layout: seq<Segment>, a: nat, n: nat)
    requires WellFormed(layout) && a + n <= SPACE
    requires n <= PageSize(layout, a)
      || forall x :: a <= x < a + n && IsFlash(layout, x) ==> PageSize(layout, x) == PageSize(layout, a)
    ensures ChunkOnce(layout, a, n)
  {
    hide WellFormed, Mask, PowerOfTwo, Find, LastStride;
    if IsFlash(layout, a) && 0 < n && 0 < PageSize(layout, a) <= SPACE {
      var p, end := PageSize(layout, a), a + n;
      if n <= p {
        FirstStopOnce(layout, a, n);
        StrideOncePast(layout, a + p, end, p);
      } else {
        EvenTail(layout, a, n);
        forall r | a <= r && r + p < end && OnStride(a, p, r) && IsFlash(layout, r)
          ensures PageEnd(layout, r) <= r + p
        {
          BaseBelow(layout, r);
        }
      }
    }
  }

  lemma EvenTail(layout: seq<Segment>, a: nat, n: nat)
    requires WellFormed(layout) && IsFlash(layout, a) && 0 < n && a + n <= SPACE && 0 < PageSize(layout, a) <= SPACE
    requires forall x :: a <= x < a + n && IsFlash(layout, x) ==> PageSize(layout, x) == PageSize(layout, a)
    ensures var p := PageSize(layout, a);
            IsFlash(layout, a + n - 1) && Mask(a + n - 1, p) != Base(layout, LastStride(a, n, p)) ==>
              LastStride(a, n, p) < Base(layout, a + n - 1)
  {
    hide WellFormed, Mask, PowerOfTwo, Find, LastStride, Base, PageSize;
    var p, tail := PageSize(layout, a), a + n - 1;
    StrideInside(a, n, p);
    var s := LastStride(a, n, p);
    if IsFlash(layout, tail) && Base(layout, tail) <= s {
      PageInSegment(layout, tail);
      SamePage(layout, tail, s);
      MaskIsBase(layout, tail);
    }
  }

  lemma FirstAhead(layout: seq<Segment>, a: nat, n: nat, strict: bool)
    requires WellFormed(layout) && IsFlash(layout, a) && 0 < n && a + n <= SPACE && 0 < PageSize(layout, a) <= SPACE
    ensures Ahead(layout, a,
                  EraseRequests(layout, a + PageSize(layout, a), a + n, PageSize(layout, a), Base(layout, a)), strict)
  {
    hide WellFormed, Mask, Base, Find, PowerOfTwo, EraseRequests, Visits, PageSize;
    var p := PageSize(layout, a);
    var rest := EraseRequests(layout, a + p, a + n, p, Base(layout, a));
    forall r | r in rest
      ensures a <= r
      ensures IsFlash(layout, r) ==> Base(layout, a) < Base(layout, r)
    {
      RestMembers(layout, a, n, r);
      VisitsInside(layout, a, n, r);
      if r < PageEnd(layout, a) {
        FirstPageOnce(layout, a, n, r);
      } else if IsFlash(layout, r) {
        BaseBeyond(layout, a, r);
      }
    }
  }
}
