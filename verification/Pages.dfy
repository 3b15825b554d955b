/** The memory map of a DfuSe device: segments of equally sized pages, and the
    page arithmetic the programmer does on 32-bit addresses. */
module Pages {
  import opened Arithmetic

  const SPACE: nat := 0x1_0000_0000

  /** One memory segment; `end` is its last address. */
  datatype Segment = Segment(start: nat, end: nat, pagesize: nat, memtype: nat) {
    predicate Covers(address: int) {
      start <= address <= end
    }
    predicate Readable() {
      memtype % 2 == 1
    }
    predicate Erasable() {
      memtype / 2 % 2 == 1
    }
    predicate Writeable() {
      memtype / 4 % 2 == 1
    }
  }

  datatype Option<+T> = None | Some(value: T)

  /** The first segment that covers an address. */
  function Find(layout: seq<Segment>, address: int): Option<Segment>
    decreases |layout|
  {
    if layout == [] then None
    else if layout[0].Covers(address) then Some(layout[0])
    else Find(layout[1..], address)
  }

  predicate PowerOfTwo(p: nat) {
    p == 1 || (p > 1 && p % 2 == 0 && PowerOfTwo(p / 2))
  }

  /** A segment of whole pages whose size is a power of two. */
  ghost predicate WholePages(s: Segment) {
    && s.start <= s.end < SPACE
    && PowerOfTwo(s.pagesize)
    && Multiple(s.start, s.pagesize)
    && Multiple(s.end + 1, s.pagesize)
  }

  ghost predicate Disjoint(s: Segment, t: Segment) {
    s.end < t.start || t.end < s.start
  }

  ghost predicate WellFormed(layout: seq<Segment>) {
    && (forall k :: 0 <= k < |layout| ==> WholePages(layout[k]))
    && (forall k, l :: 0 <= k < l < |layout| ==> Disjoint(layout[k], layout[l]))
  }

  // ----- masks

  /** Bitwise conjunction of two naturals. */
  function And(a: nat, b: nat): nat
    decreases a
  {
    if a == 0 then 0 else (a % 2) * (b % 2) + 2 * And(a / 2, b / 2)
  }

  /** `address & ~(pagesize - 1)` on 32-bit words. */
  function Mask(address: nat, pagesize: nat): nat
    requires 0 < pagesize <= SPACE
  {
    And(address, SPACE - pagesize)
  }

  lemma {:induction false} AndAllOnes(a: nat, w: nat)
    requires PowerOfTwo(w) && a < w
    ensures And(a, w - 1) == a
    decreases a
  {
    if a > 0 {
      assert w > 1;
      assert (w - 1) % 2 == 1 && (w - 1) / 2 == w / 2 - 1;
      AndAllOnes(a / 2, w / 2);
    }
  }

  lemma HalfOfMask(p: nat, w: nat)
    requires PowerOfTwo(p) && PowerOfTwo(w) && 1 < p <= w
    ensures (w - p) % 2 == 0 && (w - p) / 2 == w / 2 - p / 2
    ensures PowerOfTwo(p / 2) && PowerOfTwo(w / 2) && p / 2 <= w / 2 && p == 2 * (p / 2)
  {
  }

  /** Clearing the low bits rounds down to a multiple of the page size. */
  lemma {:induction false} MaskRoundsDown(a: nat, p: nat, w: nat)
    requires PowerOfTwo(p) && PowerOfTwo(w) && p <= w && a < w
    ensures And(a, w - p) == a - a % p
    decreases a
  {
    if p == 1 {
      AndAllOnes(a, w);
    } else if a > 0 {
      HalfOfMask(p, w);
      MaskRoundsDown(a / 2, p / 2, w / 2);
      HalvedRemainder(a, p / 2);
      AndEven(a, w - p);
    } else {
      RemainderUnique(0, p, 0, 0);
    }
  }

  lemma AndEven(a: nat, b: nat)
    requires a > 0 && b % 2 == 0
    ensures And(a, b) == 2 * And(a / 2, b / 2)
  {
  }

  // ----- pages

  /** An address some segment covers. */
  predicate Mapped(layout: seq<Segment>, x: int) {
    Find(layout, x).Some?
  }

  /** An address in erasable memory. */
  predicate IsFlash(layout: seq<Segment>, x: int) {
    Find(layout, x).Some? && Find(layout, x).value.Erasable()
  }

  /** An address in readable memory. */
  predicate CanRead(layout: seq<Segment>, x: int) {
    Find(layout, x).Some? && Find(layout, x).value.Readable()
  }

  /** An address in writeable memory. */
  predicate CanWrite(layout: seq<Segment>, x: int) {
    Find(layout, x).Some? && Find(layout, x).value.Writeable()
  }

  function PageSize(layout: seq<Segment>, x: int): nat {
    if Find(layout, x).Some? then Find(layout, x).value.pagesize else 0
  }

  /** First address of the page around `x`; -1 outside the memory map. */
  function Base(layout: seq<Segment>, x: int): int {
    if PageSize(layout, x) > 0 then x - x % PageSize(layout, x) else -1
  }

  /** One past the last address of the page around `x`. */
  function PageEnd(layout: seq<Segment>, x: int): int {
    Base(layout, x) + PageSize(layout, x)
  }

  predicate Multiple(x: int, p: int) {
    p > 0 && x % p == 0
  }

  lemma MultiplesApart(m: int, n: int, p: int)
    requires Multiple(m, p) && Multiple(n, p) && m < n
    ensures m + p <= n
  {
    var j, k := m / p, n / p;
    assert m == p * j && n == p * k;
    Distribute(p, k, j);
    if k != j {
      MultipleApart(p, k - j);
    }
  }

  lemma RoundedIsMultiple(x: int, p: int)
    requires p > 0
    ensures Multiple(x - x % p, p)
  {
    assert x - x % p == p * (x / p);
    RemainderUnique(x - x % p, p, x / p, 0);
  }

  lemma AddedPageIsMultiple(x: int, p: int)
    requires Multiple(x, p)
    ensures Multiple(x + p, p)
  {
    assert x == p * (x / p);
    Distribute(p, x / p, -1);
    RemainderUnique(x + p, p, x / p + 1, 0);
  }

  lemma {:induction false} FindCovers(layout: seq<Segment>, x: int)
    ensures Find(layout, x).Some? ==>
      exists k :: 0 <= k < |layout| && layout[k] == Find(layout, x).value && layout[k].Covers(x)
    ensures Find(layout, x).None? ==> forall k :: 0 <= k < |layout| ==> !layout[k].Covers(x)
    decreases |layout|
  {
    if layout == [] {
    } else if layout[0].Covers(x) {
    } else {
      FindCovers(layout[1..], x);
      if Find(layout[1..], x).Some? {
        var k :| 0 <= k < |layout[1..]| && layout[1..][k] == Find(layout[1..], x).value && layout[1..][k].Covers(x);
        assert layout[k + 1] == layout[1..][k];
      } else {
        forall k | 0 <= k < |layout| ensures !layout[k].Covers(x) {
          if k > 0 {
            assert layout[k] == layout[1..][k - 1];
          }
        }
      }
    }
  }

  /** In a well-formed map the covering segment is the only one. */
  lemma FindUnique(layout: seq<Segment>, k: nat, x: int)
    requires WellFormed(layout) && k < |layout| && layout[k].Covers(x)
    ensures Find(layout, x) == Some(layout[k])
  {
    FindCovers(layout, x);
    assert forall l, m :: 0 <= l < m < |layout| && layout[l].Covers(x) ==> !layout[m].Covers(x);
  }

  /** A page lies inside the segment of any of its addresses. */
  lemma PageInSegment(layout: seq<Segment>, x: int)
    requires WellFormed(layout) && Mapped(layout, x)
    ensures var s := Find(layout, x).value;
            && s in layout && s.Covers(x)
            && 0 < s.pagesize
            && s.start <= Base(layout, x) <= x < PageEnd(layout, x) <= s.end + 1
            && Multiple(Base(layout, x), s.pagesize)
  {
    FindCovers(layout, x);
    var s := Find(layout, x).value;
    var p := s.pagesize;
    RoundedIsMultiple(x, p);
    var b := x - x % p;
    if b < s.start {
      MultiplesApart(b, s.start, p);
    }
    AddedPageIsMultiple(b, p);
    if s.end + 1 < b + p {
      MultiplesApart(s.end + 1, b + p, p);
    }
  }

  /** Every address of a page has the same page. */
  lemma SamePage(layout: seq<Segment>, x: int, y: int)
    requires WellFormed(layout) && Mapped(layout, x) && Base(layout, x) <= y < PageEnd(layout, x)
    ensures Find(layout, y) == Find(layout, x) && Base(layout, y) == Base(layout, x)
  {
    PageInSegment(layout, x);
    var s := Find(layout, x).value;
    var k :| 0 <= k < |layout| && layout[k] == s;
    FindUnique(layout, k, y);
    PageInSegment(layout, y);
    var b, c := Base(layout, x), Base(layout, y);
    if b < c {
      MultiplesApart(b, c, s.pagesize);
    } else if c < b {
      MultiplesApart(c, b, s.pagesize);
    }
  }

  lemma PageSizeBounds(layout: seq<Segment>, x: int)
    requires WellFormed(layout) && Mapped(layout, x)
    ensures 0 < PageSize(layout, x) <= SPACE
  {
    PageInSegment(layout, x);
  }

  /** Two mapped addresses share a page, or their pages are apart. */
  ghost predicate Apart(layout: seq<Segment>, x: int, y: int) {
    || (Find(layout, x) == Find(layout, y) && Base(layout, x) == Base(layout, y)
        && PageEnd(layout, x) == PageEnd(layout, y))
    || PageEnd(layout, x) <= Base(layout, y)
    || PageEnd(layout, y) <= Base(layout, x)
  }

  lemma PagesApart(layout: seq<Segment>, x: int, y: int)
    requires WellFormed(layout) && Mapped(layout, x) && Mapped(layout, y)
    ensures Apart(layout, x, y)
  {
    PageInSegment(layout, x);
    PageInSegment(layout, y);
    var b, c := Base(layout, x), Base(layout, y);
    if b <= c < PageEnd(layout, x) {
      SamePage(layout, x, c);
      SamePage(layout, y, c);
    } else if c <= b < PageEnd(layout, y) {
      SamePage(layout, y, b);
      SamePage(layout, x, b);
    }
  }

  /** What the program computes with a mask is the page base. */
  lemma MaskIsBase(layout: seq<Segment>, x: nat)
    requires WellFormed(layout) && Mapped(layout, x)
    ensures 0 < PageSize(layout, x) <= SPACE && x < SPACE
    ensures Mask(x, PageSize(layout, x)) == Base(layout, x)
  {
    PageInSegment(layout, x);
    SpaceIsPower();
    MaskRoundsDown(x, PageSize(layout, x), SPACE);
  }

  lemma SpaceIsPower()
    ensures PowerOfTwo(SPACE)
  {
    PowerProduct(0x10, 0x10);
    PowerProduct(0x100, 0x100);
    PowerProduct(0x1_0000, 0x1_0000);
  }

  lemma {:induction false} PowerProduct(p: nat, q: nat)
    requires PowerOfTwo(p) && PowerOfTwo(q)
    ensures PowerOfTwo(p * q)
    decreases p
  {
    if p > 1 {
      PowerProduct(p / 2, q);
      assert p * q == 2 * (p / 2 * q);
      assert p * q / 2 == p / 2 * q;
      assert p / 2 * q > 0 by {
        MultipleApart(q, p / 2);
      }
    }
  }
}
