/** What the client asks a device to erase and to program, as functions: a chunk, an
    element and a list of elements. */
module Programming {
  import opened Pages
  import opened FlashMemory

  /** Addresses are unsigned 32-bit words. */
  function Wrap(x: nat): nat {
    x % 0x1_0000_0000
  }

  lemma NoWrap(x: nat)
    requires x < SPACE
    ensures Wrap(x) == x
  {
  }

  /** The memory, and the page the client believes to have erased last. */
  datatype Progress = Progress(flash: Flash, last: int)

  predicate Whole(s: Progress) {
    |s.flash.mem| == |s.flash.blank|
  }

  // ----- the erases of a chunk

  /** The addresses the program asks to erase for the rest of a chunk: the stride, then
      the last byte, each unless the mask of the address is the page in the cache. */
  function EraseRequests(layout: seq<Segment>, at: nat, end: nat, pageSize: nat, last: int): seq<nat>
    requires 0 < pageSize <= SPACE && 0 < end
    decreases end - at
  {
    if at >= end then
      if Mask(end - 1, pageSize) != last then [end - 1] else []
    else if Mask(at, pageSize) != last then
      [at] + EraseRequests(layout, at + pageSize, end, pageSize, Base(layout, at))
    else EraseRequests(layout, at + pageSize, end, pageSize, last)
  }

  /** The erases of a chunk: none outside flash memory, or after a mass erase. */
  function ChunkRequests(layout: seq<Segment>, a: nat, n: nat, erasing: bool, last: int): seq<nat> {
    if erasing && 0 < n && IsFlash(layout, a) && 0 < PageSize(layout, a) <= SPACE
    then EraseRequests(layout, a, a + n, PageSize(layout, a), last)
    else []
  }

  /** The cache after these erases. */
  function CacheAfter(layout: seq<Segment>, last: int, requests: seq<nat>): int {
    if requests == [] then last else Base(layout, requests[|requests| - 1])
  }

  /** The memory after erasing the pages around these addresses, in order. */
  function EraseEach(layout: seq<Segment>, f: Flash, requests: seq<nat>): (g: Flash)
    requires |f.mem| == |f.blank|
    ensures |g.mem| == |g.blank| == |f.mem|
    decreases |requests|
  {
    if requests == [] then f else EraseEach(layout, ErasePage(layout, f, requests[0]), requests[1..])
  }

  /** The device lets all of them be erased. */
  predicate AllFlash(layout: seq<Segment>, requests: seq<nat>) {
    forall k :: 0 <= k < |requests| ==> IsFlash(layout, requests[k])
  }

  /** What the client does about address `x`: it erases the page around it, unless its mask
      is the page in the cache. If it gives up, the page may be erased or not. */
  ghost predicate ErasedUnlessLast(layout: seq<Segment>, s: Progress, x: nat, pageSize: nat, t: Progress,
                                   completed: bool)
    requires Whole(s) && 0 < pageSize <= SPACE
  {
    && t.flash in {s.flash, ErasePage(layout, s.flash, x)}
    && (completed ==>
          if Mask(x, pageSize) == s.last then t == s
          else IsFlash(layout, x) && t == Progress(ErasePage(layout, s.flash, x), Base(layout, x)))
  }

  /** All these erases have been carried out. */
  ghost predicate AllErased(layout: seq<Segment>, s: Progress, requests: seq<nat>, t: Progress)
    requires Whole(s)
  {
    && AllFlash(layout, requests)
    && t == Progress(EraseEach(layout, s.flash, requests), CacheAfter(layout, s.last, requests))
  }

  /** From `now` on, the requests `rest` lead where `all` lead from `s`. */
  ghost predicate ErasesLeft(layout: seq<Segment>, s: Progress, all: seq<nat>, now: Progress, rest: seq<nat>) {
    && Whole(s) && Whole(now)
    && EraseEach(layout, s.flash, all) == EraseEach(layout, now.flash, rest)
    && CacheAfter(layout, s.last, all) == CacheAfter(layout, now.last, rest)
    && (AllFlash(layout, all) <==> AllFlash(layout, rest))
  }

  /** One request less. */
  lemma EraseOne(layout: seq<Segment>, s: Progress, all: seq<nat>, now: Progress, x: nat, rest: seq<nat>)
    requires ErasesLeft(layout, s, all, now, [x] + rest)
    ensures IsFlash(layout, x) ==>
              ErasesLeft(layout, s, all, Progress(ErasePage(layout, now.flash, x), Base(layout, x)), rest)
    ensures !IsFlash(layout, x) ==> !AllFlash(layout, all)
  {
    hide IsFlash, Base, ErasePage;
    var t := [x] + rest;
    assert t[0] == x && t[1..] == rest;
    assert forall k :: 0 <= k < |rest| ==> rest[k] == t[k + 1];
    if rest != [] {
      assert t[|t| - 1] == rest[|rest| - 1];
    }
  }

  /** The erases of a chunk have come to address `at`. */
  ghost predicate ErasingAt(layout: seq<Segment>, s: Progress, a: nat, n: nat, pageSize: nat, at: nat, now: Progress)
    requires 0 < n && 0 < pageSize <= SPACE
  {
    && WellFormed(layout)
    && ErasesLeft(layout, s, EraseRequests(layout, a, a + n, pageSize, s.last), now,
                  EraseRequests(layout, at, a + n, pageSize, now.last))
    && Confined(layout, s.flash, now.flash, a, n)
  }

  lemma ErasingStart(layout: seq<Segment>, s: Progress, a: nat, n: nat, pageSize: nat)
    requires WellFormed(layout) && |s.flash.mem| == |s.flash.blank| == SPACE && 0 < n && 0 < pageSize <= SPACE
    ensures ErasingAt(layout, s, a, n, pageSize, a, s)
  {
    hide WellFormed, EraseRequests, EraseEach, CacheAfter, AllFlash;
    ConfinedStart(layout, s.flash, a, n);
  }

  lemma ErasingConfined(layout: seq<Segment>, s: Progress, a: nat, n: nat, pageSize: nat, at: nat, now: Progress)
    requires 0 < n && 0 < pageSize <= SPACE && ErasingAt(layout, s, a, n, pageSize, at, now)
    ensures Confined(layout, s.flash, now.flash, a, n)
  {
  }

  /** One step of the stride. */
  lemma StrideStep(layout: seq<Segment>, s: Progress, a: nat, n: nat, pageSize: nat, at: nat, now: Progress,
                   after: Progress, completed: bool)
    requires 0 < n && 0 < pageSize <= SPACE && a <= at < a + n
    requires ErasingAt(layout, s, a, n, pageSize, at, now)
    requires Whole(now) && ErasedUnlessLast(layout, now, at, pageSize, after, completed)
    ensures Confined(layout, s.flash, after.flash, a, n)
    ensures completed ==> ErasingAt(layout, s, a, n, pageSize, at + pageSize, after)
    ensures Mask(at, pageSize) != now.last && !IsFlash(layout, at) ==>
      !AllFlash(layout, EraseRequests(layout, a, a + n, pageSize, s.last))
  {
    hide IsFlash, Base, ErasePage, Mask, ErasesLeft, WellFormed, Confined, AllFlash;
    ConfinedStep(layout, s.flash, now.flash, after.flash, a, n, at);
    if Mask(at, pageSize) != now.last {
      EraseOne(layout, s, EraseRequests(layout, a, a + n, pageSize, s.last), now, at,
               EraseRequests(layout, at + pageSize, a + n, pageSize, Base(layout, at)));
    }
  }

  /** The last byte. */
  lemma TailStep(layout: seq<Segment>, s: Progress, a: nat, n: nat, pageSize: nat, at: nat, now: Progress,
                 after: Progress, completed: bool)
    requires 0 < n && 0 < pageSize <= SPACE && a + n <= at
    requires ErasingAt(layout, s, a, n, pageSize, at, now)
    requires Whole(now) && ErasedUnlessLast(layout, now, a + n - 1, pageSize, after, completed)
    ensures Whole(s) && Confined(layout, s.flash, after.flash, a, n)
    ensures completed ==> AllErased(layout, s, EraseRequests(layout, a, a + n, pageSize, s.last), after)
    ensures Mask(a + n - 1, pageSize) != now.last && !IsFlash(layout, a + n - 1) ==>
      !AllFlash(layout, EraseRequests(layout, a, a + n, pageSize, s.last))
  {
    hide IsFlash, Base, ErasePage, Mask, WellFormed, Confined;
    var tail := a + n - 1;
    ConfinedStep(layout, s.flash, now.flash, after.flash, a, n, tail);
    var all := EraseRequests(layout, a, a + n, pageSize, s.last);
    if Mask(tail, pageSize) != now.last {
      assert [tail] + [] == [tail];
      EraseOne(layout, s, all, now, tail, []);
    }
  }

  // ----- a chunk, an element

  function ChunkLength(n: nat, p: nat, xferSize: nat): (c: nat)
    requires p <= n
    ensures p + c <= n && c <= xferSize && (p < n && xferSize > 0 ==> c > 0)
  {
    if n - p < xferSize then n - p else xferSize
  }

  /** The bytes of the chunk that starts at byte `p`. */
  function ChunkAt(data: seq<bv8>, p: nat, xferSize: nat): (chunk: seq<bv8>)
    requires p <= |data|
    ensures |chunk| == ChunkLength(|data|, p, xferSize)
  {
    data[p..p + ChunkLength(|data|, p, xferSize)]
  }

  /** One chunk: its erases, the address pointer, its bytes. */
  function WriteChunk(layout: seq<Segment>, s: Progress, a: nat, chunk: seq<bv8>, erasing: bool): (t: Progress)
    requires Whole(s)
    ensures Whole(t) && |t.flash.mem| == |s.flash.mem|
  {
    var requests := ChunkRequests(layout, a, |chunk|, erasing, s.last);
    Progress(Program(layout, EraseEach(layout, s.flash, requests).(pointer := a), a, chunk),
             CacheAfter(layout, s.last, requests))
  }

  /** The rest of an element, from its byte `p` on, chunk by chunk. */
  function WriteFrom(layout: seq<Segment>, s: Progress, a: nat, data: seq<bv8>, p: nat, xferSize: nat, erasing: bool)
      : (t: Progress)
    requires Whole(s) && 0 < xferSize
    ensures Whole(t) && |t.flash.mem| == |s.flash.mem|
    decreases |data| - p
  {
    if p >= |data| then s
    else
      var n := ChunkLength(|data|, p, xferSize);
      WriteFrom(layout, WriteChunk(layout, s, a + p, data[p..p + n], erasing), a, data, p + n, xferSize, erasing)
  }

  /** The program and the device agree to all of it: every chunk begins in writeable
      memory, and everything asked to be erased is flash. */
  predicate Allowed(layout: seq<Segment>, last: int, a: nat, n: nat, p: nat, xferSize: nat, erasing: bool)
    requires 0 < xferSize
    decreases n - p
  {
    p >= n ||
    var c := ChunkLength(n, p, xferSize);
    var requests := ChunkRequests(layout, a + p, c, erasing, last);
    && CanWrite(layout, a + p)
    && AllFlash(layout, requests)
    && Allowed(layout, CacheAfter(layout, last, requests), a, n, p + c, xferSize, erasing)
  }

  /** One chunk more, whether the last one is short or not. */
  lemma ElementStep(layout: seq<Segment>, s: Progress, a: nat, data: seq<bv8>, p: nat, xferSize: nat, erasing: bool)
    requires Whole(s) && 0 < xferSize && p < |data|
    ensures var chunk := ChunkAt(data, p, xferSize);
            var t := WriteChunk(layout, s, a + p, chunk, erasing);
            WriteFrom(layout, s, a, data, p, xferSize, erasing)
            == WriteFrom(layout, t, a, data, p + xferSize, xferSize, erasing)
    ensures var chunk := ChunkAt(data, p, xferSize);
            var requests := ChunkRequests(layout, a + p, |chunk|, erasing, s.last);
            var t := WriteChunk(layout, s, a + p, chunk, erasing);
            Allowed(layout, s.last, a, |data|, p, xferSize, erasing)
            <==> CanWrite(layout, a + p) && AllFlash(layout, requests)
                 && Allowed(layout, t.last, a, |data|, p + xferSize, xferSize, erasing)
  {
    hide WriteChunk, ChunkRequests, AllFlash, CacheAfter, CanWrite;
    WriteChunkLast(layout, s, a + p, ChunkAt(data, p, xferSize), erasing);
  }

  lemma WriteChunkLast(layout: seq<Segment>, s: Progress, a: nat, chunk: seq<bv8>, erasing: bool)
    requires Whole(s)
    ensures WriteChunk(layout, s, a, chunk, erasing).last
         == CacheAfter(layout, s.last, ChunkRequests(layout, a, |chunk|, erasing, s.last))
  {
  }

  /** One chunk is allowed. */
  predicate ChunkAllowed(layout: seq<Segment>, last: int, a: nat, n: nat, erasing: bool) {
    CanWrite(layout, a) && AllFlash(layout, ChunkRequests(layout, a, n, erasing, last))
  }

  /** One chunk has been written. */
  ghost predicate ChunkDone(layout: seq<Segment>, s: Progress, a: nat, chunk: seq<bv8>, erasing: bool, t: Progress) {
    && Whole(s)
    && ChunkAllowed(layout, s.last, a, |chunk|, erasing)
    && t == WriteChunk(layout, s, a, chunk, erasing)
  }

  lemma ChunkComplete(layout: seq<Segment>, s: Progress, mid: Progress, t: Progress, a: nat, chunk: seq<bv8>,
                      erasing: bool)
    requires Whole(s) && CanWrite(layout, a)
    requires AllErased(layout, s, ChunkRequests(layout, a, |chunk|, erasing, s.last), mid)
    requires t == Progress(Program(layout, mid.flash.(pointer := a), a, chunk), mid.last)
    ensures ChunkDone(layout, s, a, chunk, erasing, t)
  {
    hide Program, ChunkRequests, EraseEach, CacheAfter;
  }

  /** The writing of an element from `s` on has come to its byte `p`. */
  ghost predicate WritingAt(layout: seq<Segment>, s: Progress, a: nat, data: seq<bv8>, p: nat, xferSize: nat,
                            erasing: bool, now: Progress)
    requires 0 < xferSize
  {
    && Whole(s) && Whole(now)
    && WriteFrom(layout, s, a, data, 0, xferSize, erasing) == WriteFrom(layout, now, a, data, p, xferSize, erasing)
    && (Allowed(layout, s.last, a, |data|, 0, xferSize, erasing) <==>
          Allowed(layout, now.last, a, |data|, p, xferSize, erasing))
    && Confined(layout, s.flash, now.flash, a, |data|)
  }

  lemma WritingStart(layout: seq<Segment>, s: Progress, a: nat, data: seq<bv8>, xferSize: nat, erasing: bool)
    requires |s.flash.mem| == |s.flash.blank| == SPACE && 0 < xferSize
    ensures WritingAt(layout, s, a, data, 0, xferSize, erasing, s)
  {
    hide WriteFrom, Allowed;
    ConfinedStart(layout, s.flash, a, |data|);
  }

  lemma WritingConfined(layout: seq<Segment>, s: Progress, a: nat, data: seq<bv8>, p: nat, xferSize: nat, erasing: bool,
                        now: Progress)
    requires 0 < xferSize && WritingAt(layout, s, a, data, p, xferSize, erasing, now)
    ensures Confined(layout, s.flash, now.flash, a, |data|)
  {
  }

  lemma WritingStep(layout: seq<Segment>, s: Progress, a: nat, data: seq<bv8>, p: nat, xferSize: nat, erasing: bool,
                    now: Progress, after: Progress, completed: bool)
    requires 0 < xferSize && p < |data| && WritingAt(layout, s, a, data, p, xferSize, erasing, now)
    requires completed ==> ChunkDone(layout, now, a + p, ChunkAt(data, p, xferSize), erasing, after)
    requires Confined(layout, now.flash, after.flash, a, |data|)
    ensures Confined(layout, s.flash, after.flash, a, |data|)
    ensures completed ==> WritingAt(layout, s, a, data, p + xferSize, xferSize, erasing, after)
    ensures !ChunkAllowed(layout, now.last, a + p, ChunkLength(|data|, p, xferSize), erasing) ==>
      !Allowed(layout, s.last, a, |data|, 0, xferSize, erasing)
  {
    hide WriteChunk, ChunkRequests, AllFlash, CanWrite, Confined, WriteFrom, Allowed;
    ConfinedJoin(layout, s.flash, now.flash, after.flash, a, |data|);
    ElementStep(layout, now, a, data, p, xferSize, erasing);
  }

  /** Past the end it does not matter how far. */
  lemma WritingPast(layout: seq<Segment>, s: Progress, a: nat, data: seq<bv8>, p: nat, xferSize: nat, erasing: bool,
                    now: Progress)
    requires 0 < xferSize && |data| <= p && WritingAt(layout, s, a, data, p, xferSize, erasing, now)
    ensures WritingAt(layout, s, a, data, |data|, xferSize, erasing, now)
  {
    assert WriteFrom(layout, now, a, data, p, xferSize, erasing) == now
        == WriteFrom(layout, now, a, data, |data|, xferSize, erasing);
    assert Allowed(layout, now.last, a, |data|, p, xferSize, erasing)
        && Allowed(layout, now.last, a, |data|, |data|, xferSize, erasing);
    hide WriteFrom, Allowed;
  }

  lemma WritingEnd(layout: seq<Segment>, s: Progress, a: nat, data: seq<bv8>, p: nat, xferSize: nat, erasing: bool,
                   now: Progress)
    requires 0 < xferSize && |data| <= p && WritingAt(layout, s, a, data, p, xferSize, erasing, now)
    ensures now == WriteFrom(layout, s, a, data, 0, xferSize, erasing)
    ensures Allowed(layout, s.last, a, |data|, 0, xferSize, erasing)
    ensures Confined(layout, s.flash, now.flash, a, |data|)
  {
    assert WriteFrom(layout, now, a, data, p, xferSize, erasing) == now;
    assert Allowed(layout, now.last, a, |data|, p, xferSize, erasing);
    hide WriteFrom, Allowed;
  }

  /** An element is accepted if its last byte is writeable and all its chunks are. */
  predicate Accepted(layout: seq<Segment>, last: int, a: nat, n: nat, xferSize: nat, erasing: bool)
    requires 0 < xferSize
  {
    CanWrite(layout, Wrap(a + n + SPACE - 1)) && Allowed(layout, last, a, n, 0, xferSize, erasing)
  }

  /** No address of the element's requests runs over the 32-bit address space, and its
      byte counter stays a positive int. */
  ghost predicate Roomy(layout: seq<Segment>, a: nat, n: nat, xferSize: nat, erasing: bool) {
    && 0 < xferSize < 0x1_0000
    && n + xferSize < 0x8000_0000
    && a + n <= SPACE
    && (erasing ==> forall x :: a <= x < a + n && IsFlash(layout, x) ==> a + n + PageSize(layout, x) <= SPACE)
  }

  lemma RoomySize(layout: seq<Segment>, a: nat, n: nat, xferSize: nat, erasing: bool)
    requires Roomy(layout, a, n, xferSize, erasing)
    ensures 0 < xferSize && a + n <= SPACE
  {
  }

  // ----- what stays as it was

  /** The page of flash byte `i` overlaps the range of `n` bytes at `a`. */
  predicate PageTouched(layout: seq<Segment>, a: int, n: int, i: int) {
    IsFlash(layout, i) && 0 < n && Base(layout, i) < a + n && a < PageEnd(layout, i)
  }

  /** Nothing outside the range and the flash pages it overlaps has changed. */
  ghost predicate Confined(layout: seq<Segment>, f: Flash, g: Flash, a: int, n: int) {
    && |f.mem| == |f.blank| == |g.mem| == |g.blank| == SPACE
    && forall i :: 0 <= i < SPACE && !(a <= i < a + n) && !PageTouched(layout, a, n, i) ==>
         g.mem[i] == f.mem[i] && g.blank[i] == f.blank[i]
  }

  lemma ConfinedJoin(layout: seq<Segment>, f: Flash, g: Flash, h: Flash, a: int, n: int)
    requires Confined(layout, f, g, a, n) && Confined(layout, g, h, a, n)
    ensures Confined(layout, f, h, a, n)
  {
  }

  /** What is confined to a part is confined to the whole. */
  lemma ConfinedWiden(layout: seq<Segment>, f: Flash, g: Flash, a: int, n: int, b: int, m: int)
    requires Confined(layout, f, g, b, m) && a <= b && b + m <= a + n
    ensures Confined(layout, f, g, a, n)
  {
  }

  lemma ErasePageConfined(layout: seq<Segment>, f: Flash, x: int, a: int, n: int)
    requires WellFormed(layout) && |f.mem| == |f.blank| == SPACE && a <= x < a + n
    ensures Confined(layout, f, ErasePage(layout, f, x), a, n)
  {
    if IsFlash(layout, x) {
      PageInSegment(layout, x);
      forall i | Base(layout, x) <= i < PageEnd(layout, x) ensures PageTouched(layout, a, n, i) {
        SamePage(layout, x, i);
      }
    }
  }

  lemma ProgramConfined(layout: seq<Segment>, f: Flash, x: nat, data: seq<bv8>, a: int, n: int)
    requires |f.mem| == |f.blank| == SPACE && a <= x && x + |data| <= a + n
    ensures Confined(layout, f, Program(layout, f, x, data), a, n)
  {
  }

  lemma ConfinedStart(layout: seq<Segment>, f: Flash, a: int, n: int)
    requires |f.mem| == |f.blank| == SPACE
    ensures Confined(layout, f, f, a, n)
  {
  }

  lemma ConfinedStep(layout: seq<Segment>, f: Flash, g: Flash, h: Flash, a: int, n: int, x: int)
    requires WellFormed(layout) && a <= x < a + n
    requires Confined(layout, f, g, a, n)
    requires h in {g, ErasePage(layout, g, x)}
    ensures Confined(layout, f, h, a, n)
  {
    ErasePageConfined(layout, g, x, a, n);
    ConfinedJoin(layout, f, g, ErasePage(layout, g, x), a, n);
  }

  lemma PointerConfined(layout: seq<Segment>, f: Flash, pointer: nat, a: int, n: int)
    requires |f.mem| == |f.blank| == SPACE
    ensures Confined(layout, f, f.(pointer := pointer), a, n)
  {
  }
}
