/** Lists of elements: what writing one after the other does to the memory, and when
    that is the overlay of all of them. */
module Overlays {
  import opened Pages
  import opened Arithmetic
  import opened FlashMemory
  import opened Programming
  import opened Elements
  import opened Containers

  function EndOf(e: Element): nat {
    e.address + |e.bytes|
  }

  predicate Holds(e: Element, x: int) {
    e.address <= x < EndOf(e)
  }

  /** Some element holds byte `x`. */
  ghost predicate Covered(elements: seq<Element>, x: int) {
    exists k :: 0 <= k < |elements| && Holds(elements[k], x)
  }

  /** Some element overlaps the flash page of byte `x`. */
  ghost predicate Touched(layout: seq<Segment>, elements: seq<Element>, x: int) {
    exists k :: 0 <= k < |elements| && PageTouched(layout, elements[k].address, |elements[k].bytes|, x)
  }

  /** Whatever happened, only bytes of the elements and of the flash pages they
      overlap are different. */
  ghost predicate FileConfined(layout: seq<Segment>, f: Flash, g: Flash, elements: seq<Element>) {
    && |f.mem| == |f.blank| == |g.mem| == |g.blank| == SPACE
    && forall x :: 0 <= x < SPACE && !Covered(elements, x) && !Touched(layout, elements, x) ==>
         g.mem[x] == f.mem[x] && g.blank[x] == f.blank[x]
  }

  // ----- one element after the other

  function WriteAll(layout: seq<Segment>, s: Progress, elements: seq<Element>, xferSize: nat,
                    erasing: bool): (t: Progress)
    requires Whole(s) && 0 < xferSize
    ensures Whole(t) && |t.flash.mem| == |s.flash.mem|
    decreases |elements|
  {
    if elements == [] then s
    else
      var n := |elements| - 1;
      WriteFrom(layout, WriteAll(layout, s, elements[..n], xferSize, erasing), elements[n].address, elements[n].bytes,
                0, xferSize, erasing)
  }

  /** The program and the device agree to all of it. */
  predicate AllowedAll(layout: seq<Segment>, s: Progress, elements: seq<Element>, xferSize: nat, erasing: bool)
    requires Whole(s) && 0 < xferSize
    decreases |elements|
  {
    elements == [] ||
    var n := |elements| - 1;
    && AllowedAll(layout, s, elements[..n], xferSize, erasing)
    && Accepted(layout, WriteAll(layout, s, elements[..n], xferSize, erasing).last, elements[n].address,
                |elements[n].bytes|, xferSize, erasing)
  }

  ghost predicate AllRoomy(layout: seq<Segment>, elements: seq<Element>, xferSize: nat, erasing: bool) {
    && 0 < xferSize
    && forall k :: 0 <= k < |elements| ==> Roomy(layout, elements[k].address, |elements[k].bytes|, xferSize, erasing)
  }

  lemma AllRoomySize(layout: seq<Segment>, elements: seq<Element>, xferSize: nat, erasing: bool)
    requires AllRoomy(layout, elements, xferSize, erasing)
    ensures 0 < xferSize
  {
    hide Roomy;
  }

  /** These elements have been written, starting from `s`. */
  ghost predicate Done(layout: seq<Segment>, s: Progress, done: seq<Element>, xferSize: nat, erasing: bool,
                       now: Progress) {
    && Whole(s) && 0 < xferSize
    && now == WriteAll(layout, s, done, xferSize, erasing)
    && AllowedAll(layout, s, done, xferSize, erasing)
  }

  lemma NothingDone(layout: seq<Segment>, s: Progress, xferSize: nat, erasing: bool)
    requires Whole(s) && 0 < xferSize
    ensures Done(layout, s, [], xferSize, erasing, s)
  {
  }

  /** One element more. */
  lemma DoneStep(layout: seq<Segment>, s: Progress, done: seq<Element>, e: Element, xferSize: nat, erasing: bool,
                 mid: Progress, now: Progress)
    requires Done(layout, s, done, xferSize, erasing, mid)
    requires now == WriteFrom(layout, mid, e.address, e.bytes, 0, xferSize, erasing)
    requires Accepted(layout, mid.last, e.address, |e.bytes|, xferSize, erasing)
    ensures Done(layout, s, done + [e], xferSize, erasing, now)
  {
    hide WriteFrom, Accepted;
    assert (done + [e])[..|done|] == done;
  }

  /** The next of the elements is one the program and the device agree to. */
  lemma NextElementRoomy(layout: seq<Segment>, all: seq<Element>, done: seq<Element>, e: Element, xferSize: nat,
                         erasing: bool)
    requires AllRoomy(layout, all, xferSize, erasing) && done + [e] <= all
    ensures Roomy(layout, e.address, |e.bytes|, xferSize, erasing)
  {
    hide Roomy;
    assert all[|done|] == (done + [e])[|done|] == e;
  }

  lemma {:induction false} NextElementAllowed(layout: seq<Segment>, s: Progress, all: seq<Element>, done: seq<Element>,
                                              e: Element,
                                   xferSize: nat, erasing: bool, mid: Progress)
    requires Done(layout, s, done, xferSize, erasing, mid) && done + [e] <= all
    requires AllowedAll(layout, s, all, xferSize, erasing)
    ensures Accepted(layout, mid.last, e.address, |e.bytes|, xferSize, erasing)
    decreases |all|
  {
    hide WriteFrom, Accepted;
    var n := |all| - 1;
    assert all[|done|] == (done + [e])[|done|] == e;
    if |done| == n {
      assert all[..n] == done;
    } else {
      assert done + [e] <= all[..n];
      NextElementAllowed(layout, s, all[..n], done, e, xferSize, erasing, mid);
    }
  }

  lemma ConfinedFile(layout: seq<Segment>, f: Flash, g: Flash, h: Flash, all: seq<Element>, k: nat)
    requires k < |all| && FileConfined(layout, f, g, all)
    requires Confined(layout, g, h, all[k].address, |all[k].bytes|)
    ensures FileConfined(layout, f, h, all)
  {
    hide PageTouched;
    forall x | 0 <= x < SPACE && !Covered(all, x) && !Touched(layout, all, x)
      ensures h.mem[x] == f.mem[x] && h.blank[x] == f.blank[x]
    {
      assert !Holds(all[k], x);
    }
  }

  lemma OneConfined(layout: seq<Segment>, f: Flash, g: Flash, e: Element)
    requires Confined(layout, f, g, e.address, |e.bytes|)
    ensures FileConfined(layout, f, g, [e])
  {
    hide PageTouched;
    assert [e][0] == e;
    forall x | 0 <= x < SPACE && !Covered([e], x) && !Touched(layout, [e], x)
      ensures g.mem[x] == f.mem[x] && g.blank[x] == f.blank[x]
    {
      assert !Holds([e][0], x);
    }
  }

  /** The memory an element list is written over: after a mass erase, if asked for. */
  function Prepared(layout: seq<Segment>, f: Flash, massErase: bool): (g: Flash)
    requires |f.mem| == |f.blank|
    ensures |g.mem| == |g.blank| == |f.mem|
  {
    if massErase then EraseAll(layout, f) else f
  }

  /** No flash page is the one the cache holds, as in a fresh process. */
  ghost predicate CacheUnused(layout: seq<Segment>, last: int) {
    forall x :: IsFlash(layout, x) ==> Base(layout, x) != last
  }

  /** A fresh process has the value 1 in its cache, which is no page base as long
      as pages have more than one byte. */
  lemma FreshCache(layout: seq<Segment>, x: int)
    requires WellFormed(layout) && IsFlash(layout, x) && PageSize(layout, x) > 1
    ensures Base(layout, x) != 1
  {
    PageInSegment(layout, x);
    var p := PageSize(layout, x);
    RemainderUnique(1, p, 0, 1);
  }

  // ----- the overlay

  /** No two elements hold the same byte. */
  ghost predicate Separate(elements: seq<Element>) {
    forall j, k, x :: 0 <= j < k < |elements| && Holds(elements[j], x) ==> !Holds(elements[k], x)
  }

  /** The memory `g` is `f` overlaid with the elements: their own bytes; the rest
      of the flash pages they overlap erased; everything else as it was. */
  ghost predicate Overlaid(layout: seq<Segment>, f: Flash, g: Flash, elements: seq<Element>, erasing: bool) {
    && |f.mem| == |f.blank| == |g.mem| == |g.blank| == SPACE
    && g.spoiled == f.spoiled
    && (forall k, x :: 0 <= k < |elements| && Holds(elements[k], x) && 0 <= x < SPACE ==>
          g.mem[x] == elements[k].bytes[x - elements[k].address])
    && Beyond(layout, f, g, elements, erasing)
  }

  /** What no element holds: erased with its page, or as it was. */
  ghost predicate Beyond(layout: seq<Segment>, f: Flash, g: Flash, elements: seq<Element>, erasing: bool)
    requires |f.mem| == |f.blank| == |g.mem| == |g.blank| == SPACE
  {
    forall x :: 0 <= x < SPACE && !Covered(elements, x) ==>
      if erasing && Touched(layout, elements, x) then g.mem[x] == 0xff && g.blank[x]
      else g.mem[x] == f.mem[x] && g.blank[x] == f.blank[x]
  }

  /** What the cache holds after the elements: the page of the last flash byte written. */
  function CacheAt(layout: seq<Segment>, elements: seq<Element>, last: int): int
    decreases |elements|
  {
    if elements == [] then last
    else
      var n := |elements| - 1;
      LastPage(layout, elements[n].address, |elements[n].bytes|, CacheAt(layout, elements[..n], last))
  }

  /** Element `k` erases the page at `q`: it overlaps it, and it is not its first flash page
      and the cached one. */
  ghost predicate WipesAt(layout: seq<Segment>, elements: seq<Element>, last: int, k: nat, q: int)
    requires k < |elements|
  {
    Wipes(layout, elements[k].address, |elements[k].bytes|, CacheAt(layout, elements[..k], last), q)
  }

  /** No element erases a flash page that holds an earlier element's byte, unless that byte
      is 0xff. */
  ghost predicate Harmless(layout: seq<Segment>, elements: seq<Element>, erasing: bool, last: int) {
    erasing ==>
      forall j: nat, k: nat, x ::
        j < k < |elements| && Holds(elements[j], x) && IsFlash(layout, x)
        && elements[j].bytes[x - elements[j].address] != 0xff ==>
          !WipesAt(layout, elements, last, k, Base(layout, x))
  }

  /** A flash byte some element holds is erased by a later one. */
  ghost predicate Lost(layout: seq<Segment>, elements: seq<Element>, last: int, x: int) {
    exists j: nat, k: nat :: j < k < |elements| && Holds(elements[j], x) && IsFlash(layout, x)
                             && WipesAt(layout, elements, last, k, Base(layout, x))
  }

  /** The memory after separate elements in any order, byte by byte. */
  ghost predicate FileWritten(layout: seq<Segment>, f: Flash, g: Flash, elements: seq<Element>, erasing: bool,
                              last: int) {
    && |f.mem| == |f.blank| == |g.mem| == |g.blank| == SPACE
    && g.spoiled == f.spoiled
    && (forall k, x :: 0 <= k < |elements| && Holds(elements[k], x) && 0 <= x < SPACE ==>
          if erasing && Lost(layout, elements, last, x) then g.mem[x] == 0xff && g.blank[x]
          else g.mem[x] == elements[k].bytes[x - elements[k].address] && !g.blank[x])
    && Beyond(layout, f, g, elements, erasing)
  }

  ghost predicate AllBlank(layout: seq<Segment>, f: Flash) {
    forall x :: 0 <= x < |f.blank| && IsFlash(layout, x) ==> f.blank[x]
  }

  /** The elements lie apart inside the address space; where pages are to be erased, every
      chunk covers its pages, and the cache holds none yet. */
  ghost predicate Suited(layout: seq<Segment>, elements: seq<Element>, xferSize: nat, erasing: bool, last: int) {
    && Separate(elements)
    && (forall k :: 0 <= k < |elements| ==> EndOf(elements[k]) <= SPACE)
    && (erasing ==>
          && CacheUnused(layout, last)
          && forall k :: 0 <= k < |elements| ==>
            ElementCovers(layout, elements[k].address, |elements[k].bytes|, xferSize))
  }

  // ----- one element more

  lemma CoveredAppend(elements: seq<Element>, e: Element, x: int)
    ensures Covered(elements + [e], x) <==> Covered(elements, x) || Holds(e, x)
  {
    var all := elements + [e];
    if Covered(elements, x) {
      var k :| 0 <= k < |elements| && Holds(elements[k], x);
      assert all[k] == elements[k];
    }
    if Holds(e, x) {
      assert all[|elements|] == e;
    }
  }

  lemma TouchedAppend(layout: seq<Segment>, elements: seq<Element>, e: Element, x: int)
    ensures Touched(layout, elements + [e], x) <==>
      Touched(layout, elements, x) || PageTouched(layout, e.address, |e.bytes|, x)
  {
    hide PageTouched;
    var all := elements + [e];
    if Touched(layout, elements, x) {
      var k :| 0 <= k < |elements| && PageTouched(layout, elements[k].address, |elements[k].bytes|, x);
      assert all[k] == elements[k];
    }
    if PageTouched(layout, e.address, |e.bytes|, x) {
      assert all[|elements|] == e;
    }
  }

  lemma LostAppend(layout: seq<Segment>, elements: seq<Element>, e: Element, last: int, x: int)
    ensures Lost(layout, elements + [e], last, x) <==>
      || Lost(layout, elements, last, x)
      || (Covered(elements, x) && IsFlash(layout, x)
          && Wipes(layout, e.address, |e.bytes|, CacheAt(layout, elements, last), Base(layout, x)))
  {
    hide IsFlash, Base, Wipes, CacheAt, Holds;
    var all, n := elements + [e], |elements|;
    assert all[..n] == elements && all[n] == e;
    assert WipesAt(layout, all, last, n, Base(layout, x))
        == Wipes(layout, e.address, |e.bytes|, CacheAt(layout, elements, last), Base(layout, x));
    forall k: nat | k < n
      ensures WipesAt(layout, all, last, k, Base(layout, x)) == WipesAt(layout, elements, last, k, Base(layout, x))
      ensures all[k] == elements[k]
    {
      assert all[..k] == elements[..k];
    }
    if Lost(layout, elements, last, x) {
      var j: nat, k: nat :| j < k < n && Holds(elements[j], x) && IsFlash(layout, x)
                            && WipesAt(layout, elements, last, k, Base(layout, x));
      assert all[j] == elements[j] && WipesAt(layout, all, last, k, Base(layout, x));
    }
    if Covered(elements, x) {
      var j :| 0 <= j < n && Holds(elements[j], x);
      assert all[j] == elements[j];
    }
  }

  /** A page is touched if it holds a flash byte of the range. */
  lemma TouchedIsPage(layout: seq<Segment>, a: nat, n: nat, x: int)
    requires WellFormed(layout) && IsFlash(layout, x)
    ensures PageTouched(layout, a, n, x) <==> FlashPage(layout, a, n, Base(layout, x))
  {
    hide Base, Find, WellFormed;
    PageInSegment(layout, x);
    if PageTouched(layout, a, n, x) {
      var y := if Base(layout, x) < a then a else Base(layout, x);
      SamePage(layout, x, y);
    }
    if FlashPage(layout, a, n, Base(layout, x)) {
      var y :| a <= y < a + n && IsFlash(layout, y) && Base(layout, y) == Base(layout, x);
      PageInSegment(layout, y);
      PagesApart(layout, x, y);
    }
  }

  /** The cached page has been touched. */
  lemma {:induction false} CacheTouched(layout: seq<Segment>, elements: seq<Element>, last: int, x: int)
    requires WellFormed(layout) && CacheUnused(layout, last)
    requires IsFlash(layout, x) && Base(layout, x) == CacheAt(layout, elements, last)
    ensures Touched(layout, elements, x)
    decreases |elements|
  {
    hide IsFlash, Base, WellFormed, LastPage;
    if elements != [] {
      var n := |elements| - 1;
      var e, before := elements[n], CacheAt(layout, elements[..n], last);
      assert elements == elements[..n] + [e];
      LastPageOf(layout, e.address, |e.bytes|, before);
      TouchedIsPage(layout, e.address, |e.bytes|, x);
      TouchedAppend(layout, elements[..n], e, x);
      if NoFlash(layout, e.address, |e.bytes|) {
        CacheTouched(layout, elements[..n], last, x);
      }
    }
  }

  /** A flash byte of the next element is erased for it, or blank already. */
  lemma ReadyByte(layout: seq<Segment>, f: Flash, g: Flash, done: seq<Element>, e: Element, erasing: bool, last: int,
                  x: nat)
    requires WellFormed(layout) && FileWritten(layout, f, g, done, erasing, last) && Sound(f)
    requires if erasing then CacheUnused(layout, last) else AllBlank(layout, f)
    requires Holds(e, x) && !Covered(done, x) && x < SPACE && IsFlash(layout, x)
    ensures Wiped(layout, e.address, |e.bytes|, erasing, CacheAt(layout, done, last), x)
      || (g.blank[x] && g.mem[x] == 0xff)
  {
    hide IsFlash, Base, WellFormed, CacheAt, Lost, Touched, Covered;
    if erasing && !Wiped(layout, e.address, |e.bytes|, erasing, CacheAt(layout, done, last), x) {
      assert FlashPage(layout, e.address, |e.bytes|, Base(layout, x));
      CacheTouched(layout, done, last, x);
    }
  }

  /** A byte no element holds, after one more element. */
  lemma BeyondStep(layout: seq<Segment>, f: Flash, g: Flash, h: Flash, done: seq<Element>, e: Element, erasing: bool,
                   last: int)
    requires WellFormed(layout) && FileWritten(layout, f, g, done, erasing, last)
    requires erasing ==> CacheUnused(layout, last)
    requires Written(layout, g, h, e.address, e.bytes, erasing, CacheAt(layout, done, last))
    ensures Beyond(layout, f, h, done + [e], erasing)
  {
    hide IsFlash, Base, WellFormed, CacheAt, Lost, Touched, Covered, ByteLeft, Spoils, Wipes;
    forall x | 0 <= x < SPACE && !Covered(done + [e], x)
      ensures if erasing && Touched(layout, done + [e], x) then h.mem[x] == 0xff && h.blank[x]
              else h.mem[x] == f.mem[x] && h.blank[x] == f.blank[x]
    {
      CoveredAppend(done, e, x);
      TouchedAppend(layout, done, e, x);
      TouchedOrWiped(layout, done, e, erasing, last, x);
    }
  }

  lemma TouchedOrWiped(layout: seq<Segment>, done: seq<Element>, e: Element, erasing: bool, last: int, x: int)
    requires WellFormed(layout) && (erasing ==> CacheUnused(layout, last))
    ensures Wiped(layout, e.address, |e.bytes|, erasing, CacheAt(layout, done, last), x) ==>
              PageTouched(layout, e.address, |e.bytes|, x)
    ensures erasing && PageTouched(layout, e.address, |e.bytes|, x) ==>
              Touched(layout, done, x) || Wiped(layout, e.address, |e.bytes|, erasing, CacheAt(layout, done, last), x)
  {
    hide Base, WellFormed, CacheAt, Touched, FlashPage, Find;
    if IsFlash(layout, x) {
      TouchedIsPage(layout, e.address, |e.bytes|, x);
      if erasing && Base(layout, x) == CacheAt(layout, done, last) {
        CacheTouched(layout, done, last, x);
      }
    }
  }

  /** A byte an element holds, after one more element. */
  lemma HeldStep(layout: seq<Segment>, f: Flash, g: Flash, h: Flash, done: seq<Element>, e: Element, erasing: bool,
                 last: int, k: nat, x: nat)
    requires WellFormed(layout) && FileWritten(layout, f, g, done, erasing, last) && Sound(f)
    requires if erasing then CacheUnused(layout, last) else AllBlank(layout, f)
    requires Written(layout, g, h, e.address, e.bytes, erasing, CacheAt(layout, done, last))
    requires Separate(done + [e]) && k <= |done| && Holds((done + [e])[k], x) && x < SPACE
    ensures var held := (done + [e])[k];
            if erasing && Lost(layout, done + [e], last, x) then h.mem[x] == 0xff && h.blank[x]
            else h.mem[x] == held.bytes[x - held.address] && !h.blank[x]
  {
    hide Base, WellFormed, CacheAt, Find, Spoils, Wipes, Lost, Beyond;
    LostAppend(layout, done, e, last, x);
    if k < |done| {
      assert (done + [e])[k] == done[k] && (done + [e])[|done|] == e;
      assert !Holds(e, x) && Covered(done, x);
    } else {
      NotCovered(done, e, x);
      NotLost(layout, done, last, x);
      if IsFlash(layout, x) {
        ReadyByte(layout, f, g, done, e, erasing, last, x);
      }
      AndBlank(e.bytes[x - e.address]);
    }
  }

  lemma NotCovered(done: seq<Element>, e: Element, x: nat)
    requires Separate(done + [e]) && Holds(e, x)
    ensures !Covered(done, x)
  {
    assert (done + [e])[|done|] == e;
    forall j | 0 <= j < |done| ensures !Holds(done[j], x) {
      assert (done + [e])[j] == done[j];
    }
  }

  lemma NotLost(layout: seq<Segment>, done: seq<Element>, last: int, x: nat)
    requires !Covered(done, x)
    ensures !Lost(layout, done, last, x)
  {
  }

  lemma FileStep(layout: seq<Segment>, f: Flash, g: Flash, h: Flash, done: seq<Element>, e: Element, erasing: bool,
                 last: int)
    requires WellFormed(layout) && FileWritten(layout, f, g, done, erasing, last) && Sound(f)
    requires if erasing then CacheUnused(layout, last) else AllBlank(layout, f)
    requires Written(layout, g, h, e.address, e.bytes, erasing, CacheAt(layout, done, last))
    requires Separate(done + [e])
    ensures FileWritten(layout, f, h, done + [e], erasing, last)
  {
    hide IsFlash, Base, WellFormed, CacheAt, Lost, Touched, ByteLeft, AllBlank, CacheUnused, Sound, Separate;
    var all := done + [e];
    BeyondStep(layout, f, g, h, done, e, erasing, last);
    forall k, x | 0 <= k < |all| && Holds(all[k], x) && 0 <= x < SPACE
      ensures if erasing && Lost(layout, all, last, x) then h.mem[x] == 0xff && h.blank[x]
              else h.mem[x] == all[k].bytes[x - all[k].address] && !h.blank[x]
    {
      HeldStep(layout, f, g, h, done, e, erasing, last, k, x);
    }
    NothingSpoiled(layout, f, g, done, e, erasing, last);
  }

  lemma NothingSpoiled(layout: seq<Segment>, f: Flash, g: Flash, done: seq<Element>, e: Element, erasing: bool,
                       last: int)
    requires WellFormed(layout) && FileWritten(layout, f, g, done, erasing, last) && Sound(f)
    requires if erasing then CacheUnused(layout, last) else AllBlank(layout, f)
    requires Separate(done + [e])
    ensures !Spoils(layout, g, e.address, |e.bytes|, erasing, CacheAt(layout, done, last))
  {
    hide IsFlash, Base, WellFormed, CacheAt, Wiped, FileWritten, AllBlank, CacheUnused, Sound, Separate;
    forall i | 0 <= i < |g.blank| && e.address <= i < e.address + |e.bytes| && IsFlash(layout, i)
      ensures g.blank[i] || Wiped(layout, e.address, |e.bytes|, erasing, CacheAt(layout, done, last), i)
    {
      WrittenSize(layout, f, g, done, erasing, last);
      NotCovered(done, e, i);
      ReadyByte(layout, f, g, done, e, erasing, last, i);
    }
  }

  lemma WrittenSize(layout: seq<Segment>, f: Flash, g: Flash, done: seq<Element>, erasing: bool, last: int)
    requires FileWritten(layout, f, g, done, erasing, last)
    ensures |f.mem| == |f.blank| == |g.mem| == |g.blank| == SPACE
  {
  }

  // ----- the whole list

  lemma SuitedInit(layout: seq<Segment>, elements: seq<Element>, xferSize: nat, erasing: bool, last: int)
    requires elements != [] && Suited(layout, elements, xferSize, erasing, last)
    ensures var n := |elements| - 1;
            && Suited(layout, elements[..n], xferSize, erasing, last)
            && EndOf(elements[n]) <= SPACE
            && (erasing ==> ElementCovers(layout, elements[n].address, |elements[n].bytes|, xferSize))
  {
    hide ElementCovers, CacheUnused;
  }

  /** Separate elements, written one after the other in any order. */
  lemma {:induction false} AllWritten(layout: seq<Segment>, s: Progress, elements: seq<Element>, xferSize: nat,
                                      erasing: bool)
    requires WellFormed(layout) && Sound(s.flash) && 0 < xferSize && (erasing || AllBlank(layout, s.flash))
    requires Suited(layout, elements, xferSize, erasing, s.last)
    requires AllowedAll(layout, s, elements, xferSize, erasing)
    ensures var t := WriteAll(layout, s, elements, xferSize, erasing);
            && FileWritten(layout, s.flash, t.flash, elements, erasing, s.last)
            && (erasing ==> t.last == CacheAt(layout, elements, s.last))
    decreases |elements|
  {
    assert Whole(s);
    hide WellFormed, FileWritten, WriteFrom, WriteAll, Accepted, AllowedAll, Sound, AllBlank, Suited, LastPage;
    if elements == [] {
      NothingWritten(layout, s, xferSize, erasing);
    } else {
      var n := |elements| - 1;
      var e := elements[n];
      SuitedInit(layout, elements, xferSize, erasing, s.last);
      WriteAllLast(layout, s, elements, xferSize, erasing);
      AllWritten(layout, s, elements[..n], xferSize, erasing);
      var t := WriteAll(layout, s, elements[..n], xferSize, erasing);
      WrittenSize(layout, s.flash, t.flash, elements[..n], erasing, s.last);
      ElementWritten(layout, t, e.address, e.bytes, xferSize, erasing);
      LastWritten(layout, s, elements, xferSize, erasing, t, WriteAll(layout, s, elements, xferSize, erasing),
                  ElementOnce(layout, e.address, |e.bytes|, xferSize));
    }
  }

  lemma WriteAllLast(layout: seq<Segment>, s: Progress, elements: seq<Element>, xferSize: nat, erasing: bool)
    requires Whole(s) && 0 < xferSize && elements != []
    ensures var n := |elements| - 1;
            var e, t := elements[n], WriteAll(layout, s, elements[..n], xferSize, erasing);
            && WriteAll(layout, s, elements, xferSize, erasing)
               == WriteFrom(layout, t, e.address, e.bytes, 0, xferSize, erasing)
            && (AllowedAll(layout, s, elements, xferSize, erasing) <==>
                  && AllowedAll(layout, s, elements[..n], xferSize, erasing)
                  && Accepted(layout, t.last, e.address, |e.bytes|, xferSize, erasing))
  {
    hide WriteFrom, Accepted;
  }

  /** The last of the elements. */
  lemma LastWritten(layout: seq<Segment>, s: Progress, elements: seq<Element>, xferSize: nat, erasing: bool,
                    t: Progress, w: Progress, strict: bool)
    requires WellFormed(layout) && Sound(s.flash) && (erasing || AllBlank(layout, s.flash)) && elements != []
    requires Suited(layout, elements, xferSize, erasing, s.last)
    requires var init := elements[..|elements| - 1];
             && FileWritten(layout, s.flash, t.flash, init, erasing, s.last)
             && (erasing ==> t.last == CacheAt(layout, init, s.last))
    requires var e := elements[|elements| - 1]; Wrote(layout, t, w, e.address, e.bytes, erasing, strict)
    ensures FileWritten(layout, s.flash, w.flash, elements, erasing, s.last)
    ensures erasing ==> w.last == CacheAt(layout, elements, s.last)
  {
    hide WellFormed, FileWritten, Sound, AllBlank, Suited, LastPage, Wrote;
    var n := |elements| - 1;
    var e := elements[n];
    ElementOutcome(layout, t, w, e, erasing, strict, CacheAt(layout, elements[..n], s.last));
    assert elements[..n] + [e] == elements;
    SuitedFacts(layout, elements, xferSize, erasing, s.last);
    FileStep(layout, s.flash, t.flash, w.flash, elements[..n], e, erasing, s.last);
  }

  lemma NothingWritten(layout: seq<Segment>, s: Progress, xferSize: nat, erasing: bool)
    requires Sound(s.flash) && 0 < xferSize
    ensures FileWritten(layout, s.flash, s.flash, [], erasing, s.last)
    ensures Whole(s) && WriteAll(layout, s, [], xferSize, erasing) == s && CacheAt(layout, [], s.last) == s.last
  {
  }

  lemma SuitedFacts(layout: seq<Segment>, elements: seq<Element>, xferSize: nat, erasing: bool, last: int)
    requires Suited(layout, elements, xferSize, erasing, last)
    ensures Separate(elements) && (erasing ==> CacheUnused(layout, last))
  {
  }

  lemma ElementOutcome(layout: seq<Segment>, t: Progress, w: Progress, e: Element, erasing: bool, strict: bool,
                       cache: int)
    requires Wrote(layout, t, w, e.address, e.bytes, erasing, strict) && (erasing ==> t.last == cache)
    ensures Written(layout, t.flash, w.flash, e.address, e.bytes, erasing, cache)
    ensures erasing ==> w.last == LastPage(layout, e.address, |e.bytes|, cache)
  {
    hide Written, ErasedInOrder, LastPage;
    if !erasing {
      CacheIdle(layout, t.flash, w.flash, e.address, e.bytes, t.last, cache);
    }
  }

  lemma PreparedBlank(layout: seq<Segment>, f: Flash, massErase: bool)
    requires |f.mem| == |f.blank|
    ensures if massErase then AllBlank(layout, Prepared(layout, f, massErase)) else Prepared(layout, f, massErase) == f
  {
    hide IsFlash;
  }

  /** Separate elements in any order give their overlay exactly when none harms another. */
  lemma OverlayExact(layout: seq<Segment>, s: Progress, elements: seq<Element>, xferSize: nat, erasing: bool)
    requires WellFormed(layout) && Sound(s.flash) && 0 < xferSize && (erasing || AllBlank(layout, s.flash))
    requires Suited(layout, elements, xferSize, erasing, s.last)
    requires AllowedAll(layout, s, elements, xferSize, erasing)
    ensures Overlaid(layout, s.flash, WriteAll(layout, s, elements, xferSize, erasing).flash, elements, erasing)
       <==> Harmless(layout, elements, erasing, s.last)
  {
    AllWritten(layout, s, elements, xferSize, erasing);
    var g := WriteAll(layout, s, elements, xferSize, erasing).flash;
    hide WellFormed, AllowedAll, WriteAll, Sound, AllBlank, Suited, Overlaid, Harmless, FileWritten;
    if Harmless(layout, elements, erasing, s.last) {
      HarmlessOverlaid(layout, s.flash, g, elements, xferSize, erasing, s.last);
    }
    if Overlaid(layout, s.flash, g, elements, erasing) {
      OverlaidHarmless(layout, s.flash, g, elements, xferSize, erasing, s.last);
    }
  }

  lemma HarmlessOverlaid(layout: seq<Segment>, f: Flash, g: Flash, elements: seq<Element>, xferSize: nat, erasing: bool,
                         last: int)
    requires FileWritten(layout, f, g, elements, erasing, last) && Suited(layout, elements, xferSize, erasing, last)
    requires Harmless(layout, elements, erasing, last)
    ensures Overlaid(layout, f, g, elements, erasing)
  {
    hide Beyond, Suited, Harmless, Lost;
    forall k, x | 0 <= k < |elements| && Holds(elements[k], x) && 0 <= x < SPACE
      ensures g.mem[x] == elements[k].bytes[x - elements[k].address]
    {
      LostIsBlank(layout, elements, xferSize, erasing, last, k, x);
    }
  }

  lemma OverlaidHarmless(layout: seq<Segment>, f: Flash, g: Flash, elements: seq<Element>, xferSize: nat, erasing: bool,
                         last: int)
    requires FileWritten(layout, f, g, elements, erasing, last) && Suited(layout, elements, xferSize, erasing, last)
    requires Overlaid(layout, f, g, elements, erasing)
    ensures Harmless(layout, elements, erasing, last)
  {
    hide Beyond, IsFlash, Base, WipesAt, CacheUnused, ElementCovers, Separate;
    if erasing {
      forall j: nat, k: nat, x | j < k < |elements| && Holds(elements[j], x) && IsFlash(layout, x)
                                 && WipesAt(layout, elements, last, k, Base(layout, x))
        ensures elements[j].bytes[x - elements[j].address] == 0xff
      {
        assert Lost(layout, elements, last, x);
        assert x < EndOf(elements[j]) <= SPACE;
      }
    }
  }

  /** A lost byte reads as erased. */
  lemma LostReads(layout: seq<Segment>, f: Flash, g: Flash, elements: seq<Element>, last: int, k: nat, x: nat)
    requires FileWritten(layout, f, g, elements, true, last)
    requires k < |elements| && Holds(elements[k], x) && x < SPACE && Lost(layout, elements, last, x)
    ensures |g.mem| == SPACE && g.mem[x] == 0xff
  {
    hide Lost, Beyond;
  }

  /** Among separate elements that do no harm, a byte is lost only where it is 0xff. */
  lemma LostIsBlank(layout: seq<Segment>, elements: seq<Element>, xferSize: nat, erasing: bool, last: int, k: nat,
                    x: nat)
    requires Suited(layout, elements, xferSize, erasing, last) && Harmless(layout, elements, erasing, last)
    requires k < |elements| && Holds(elements[k], x)
    ensures erasing && Lost(layout, elements, last, x) ==> elements[k].bytes[x - elements[k].address] == 0xff
  {
    hide IsFlash, Base, WipesAt, CacheUnused, ElementCovers;
    if erasing && Lost(layout, elements, last, x) {
      var j: nat, l: nat :| j < l < |elements| && Holds(elements[j], x) && IsFlash(layout, x)
                            && WipesAt(layout, elements, last, l, Base(layout, x));
      assert j == k;
    }
  }

  // ----- elements in address order

  /** Elements in increasing address order, none overlapping another. */
  ghost predicate Ordered(elements: seq<Element>) {
    forall j, k :: 0 <= j < k < |elements| ==> EndOf(elements[j]) <= elements[k].address
  }

  /** The cache after elements in order: the page of the last flash byte they hold. */
  lemma {:induction false} OrderedCache(layout: seq<Segment>, elements: seq<Element>, last: int, x: nat, bound: nat)
      returns (z: nat)
    requires WellFormed(layout) && Ordered(elements) && Covered(elements, x) && IsFlash(layout, x)
    requires forall k :: 0 <= k < |elements| ==> EndOf(elements[k]) <= bound
    ensures x <= z < bound && IsFlash(layout, z) && CacheAt(layout, elements, last) == Base(layout, z)
    decreases |elements|
  {
    hide WellFormed, IsFlash, Base, LastPage;
    var n := |elements| - 1;
    var e, init := elements[n], elements[..n];
    assert elements == init + [e];
    CoveredAppend(init, e, x);
    if NoFlash(layout, e.address, |e.bytes|) {
      NoFlashPage(layout, e.address, |e.bytes|, CacheAt(layout, init, last));
      z := OrderedCache(layout, init, last, x, bound);
    } else {
      z := LastByte(layout, e.address, |e.bytes|, CacheAt(layout, init, last));
      if Covered(init, x) {
        var j :| 0 <= j < n && Holds(init[j], x);
        assert EndOf(elements[j]) <= elements[n].address;
      }
    }
  }

  lemma {:induction false} LastByte(layout: seq<Segment>, a: nat, n: nat, last: int) returns (z: nat)
    requires !NoFlash(layout, a, n)
    ensures a <= z < a + n && IsFlash(layout, z) && LastPage(layout, a, n, last) == Base(layout, z)
    ensures forall y :: a <= y < a + n && IsFlash(layout, y) ==> y <= z
    decreases n
  {
    hide IsFlash, Base;
    if IsFlash(layout, a + n - 1) {
      z := a + n - 1;
    } else {
      z := LastByte(layout, a, n - 1, last);
    }
  }

  lemma {:induction false} NoFlashPage(layout: seq<Segment>, a: nat, n: nat, last: int)
    requires NoFlash(layout, a, n)
    ensures LastPage(layout, a, n, last) == last
    decreases n
  {
    hide IsFlash, Base;
    if n > 0 {
      NoFlashPage(layout, a, n - 1, last);
    }
  }

  /** Elements in address order never harm one another. */
  lemma OrderedHarmless(layout: seq<Segment>, elements: seq<Element>, erasing: bool, last: int)
    requires WellFormed(layout) && Ordered(elements)
    ensures Separate(elements) && Harmless(layout, elements, erasing, last)
  {
    hide WellFormed, IsFlash, Base, WipesAt;
    forall j: nat, k: nat, x | j < k < |elements| && Holds(elements[j], x) && IsFlash(layout, x)
      ensures !WipesAt(layout, elements, last, k, Base(layout, x))
    {
      OrderedPair(layout, elements, last, j, k, x);
    }
  }

  lemma OrderedPair(layout: seq<Segment>, elements: seq<Element>, last: int, j: nat, k: nat, x: nat)
    requires WellFormed(layout) && Ordered(elements)
    requires j < k < |elements| && Holds(elements[j], x) && IsFlash(layout, x)
    ensures !WipesAt(layout, elements, last, k, Base(layout, x))
  {
    hide WellFormed, IsFlash, Base, LastPage, CacheAt;
    var e, init := elements[k], elements[..k];
    assert init[j] == elements[j];
    var z := OrderedCache(layout, init, last, x, e.address);
    if FlashPage(layout, e.address, |e.bytes|, Base(layout, x)) {
      var y :| e.address <= y < e.address + |e.bytes| && IsFlash(layout, y) && Base(layout, y) == Base(layout, x);
      FlashInOrder(layout, x, z);
      FlashInOrder(layout, z, y);
      forall w | e.address <= w < e.address + |e.bytes| && IsFlash(layout, w)
        ensures Base(layout, x) <= Base(layout, w) {
        FlashInOrder(layout, x, w);
      }
    }
  }

  // ----- a single element

  /** A raw file does no harm to itself. */
  lemma OneHarmless(layout: seq<Segment>, e: Element, erasing: bool, last: int)
    ensures Harmless(layout, [e], erasing, last)
  {
  }

  lemma OneRoomy(layout: seq<Segment>, e: Element, xferSize: nat, erasing: bool)
    requires AllRoomy(layout, [e], xferSize, erasing)
    ensures Roomy(layout, e.address, |e.bytes|, xferSize, erasing) && EndOf(e) <= SPACE && 0 < xferSize
  {
    assert [e][0] == e;
  }

  /** Writing a raw file is writing the list of it alone. */
  lemma OneDone(layout: seq<Segment>, s: Progress, e: Element, xferSize: nat, erasing: bool, now: Progress)
    requires Whole(s) && 0 < xferSize
    ensures AllowedAll(layout, s, [e], xferSize, erasing)
      <==> Accepted(layout, s.last, e.address, |e.bytes|, xferSize, erasing)
    ensures now == WriteFrom(layout, s, e.address, e.bytes, 0, xferSize, erasing)
            && Accepted(layout, s.last, e.address, |e.bytes|, xferSize, erasing) ==>
              Done(layout, s, [e], xferSize, erasing, now)
  {
    hide WriteFrom, Accepted;
    assert [e][..0] == [];
    assert [e][0] == e;
  }

  /** Only memory, flags and the record of overwriting matter to an overlay. */
  lemma OverlaidSameMemory(layout: seq<Segment>, f: Flash, g: Flash, h: Flash, elements: seq<Element>, erasing: bool)
    requires h.mem == g.mem && h.blank == g.blank && h.spoiled == g.spoiled
    ensures Overlaid(layout, f, g, elements, erasing) <==> Overlaid(layout, f, h, elements, erasing)
  {
    hide Covered, Touched;
  }

  /** The bytes of an element can be read back from an overlay. */
  lemma OverlaidBytes(layout: seq<Segment>, f: Flash, g: Flash, e: Element, erasing: bool)
    requires Overlaid(layout, f, g, [e], erasing) && EndOf(e) <= SPACE
    ensures g.mem[e.address..EndOf(e)] == e.bytes
  {
    hide Covered, Touched;
    forall x | e.address <= x < EndOf(e) ensures g.mem[x] == e.bytes[x - e.address] {
      assert [e][0] == e && Holds([e][0], x);
    }
  }
}
