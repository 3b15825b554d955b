/** The memory map string of a DfuSe interface (ST UM0424, section 4.3.2), as it is
    printed and as the program parses it: a name, then address blocks of sector
    groups, for instance "@Flash /0x08000000/04*016Kg,01*064Kg". */
module MemoryMaps {
  import opened Arithmetic
  import opened Pages
  import opened SegmentLists

  // ----- scanning, after sscanf

  predicate IsDigit(c: char) {
    '0' <= c <= '9'
  }

  function DigitValue(c: char): nat
    requires IsDigit(c)
  {
    c as int - '0' as int
  }

  predicate IsHexDigit(c: char) {
    IsDigit(c) || 'a' <= c <= 'f' || 'A' <= c <= 'F'
  }

  function HexValue(c: char): nat
    requires IsHexDigit(c)
  {
    if IsDigit(c) then DigitValue(c)
    else if 'a' <= c <= 'f' then 10 + (c as int - 'a' as int)
    else 10 + (c as int - 'A' as int)
  }

  /** The digits and what they count. */
  lemma DigitsAre(k: nat)
    requires k < 16
    ensures var low, high := "0123456789abcdef"[k], "0123456789ABCDEF"[k];
            && IsHexDigit(low) && HexValue(low) == k && IsHexDigit(high) && HexValue(high) == k
            && (k < 10 ==> IsDigit(low) && DigitValue(low) == k)
  {
  }

  /** Length of the longest run of digits at the head of a string. */
  function DigitRun(s: string): (n: nat)
    ensures n <= |s|
    ensures forall k :: 0 <= k < n ==> IsDigit(s[k])
    decreases |s|
  {
    if s == [] || !IsDigit(s[0]) then 0 else 1 + DigitRun(s[1..])
  }

  function HexRun(s: string): (n: nat)
    ensures n <= |s|
    ensures forall k :: 0 <= k < n ==> IsHexDigit(s[k])
    decreases |s|
  {
    if s == [] || !IsHexDigit(s[0]) then 0 else 1 + HexRun(s[1..])
  }

  function Decimal(s: string): nat
    requires forall k :: 0 <= k < |s| ==> IsDigit(s[k])
    decreases |s|
  {
    if s == [] then 0 else 10 * Decimal(s[..|s| - 1]) + DigitValue(s[|s| - 1])
  }

  function Hexadecimal(s: string): nat
    requires forall k :: 0 <= k < |s| ==> IsHexDigit(s[k])
    decreases |s|
  {
    if s == [] then 0 else 16 * Hexadecimal(s[..|s| - 1]) + HexValue(s[|s| - 1])
  }

  /** Length of the longest run at the head of a string without the given stops. */
  function RunWithout(s: string, stops: set<char>): (n: nat)
    ensures n <= |s|
    ensures forall k :: 0 <= k < n ==> s[k] !in stops
    ensures n < |s| ==> s[n] in stops
    decreases |s|
  {
    if s == [] || s[0] in stops then 0 else 1 + RunWithout(s[1..], stops)
  }

  /** What scanning "sectors*size multiplier type" gives: how many of the four
      conversions succeeded, their values, and the length if all did. */
  datatype Group = Group(ret: nat, sectors: nat, size: nat, multiplier: char, kind: string, length: nat)

  const NO_GROUP := Group(0, 0, 0, ' ', "", 0)

  function ScanGroup(s: string): (g: Group)
    ensures g.ret == 4 ==> 0 < g.length <= |s|
  {
    var n := DigitRun(s);
    var after := s[n..];
    if n == 0 then NO_GROUP
    else if after == [] || after[0] != '*' then NO_GROUP.(ret := 1, sectors := Decimal(s[..n]))
    else
      var g := ScanSize(after[1..], Decimal(s[..n]));
      g.(length := n + 1 + g.length)
  }

  function ScanSize(s: string, sectors: nat): (g: Group)
    ensures g.length <= |s|
  {
    var n := DigitRun(s);
    var after := s[n..];
    if n == 0 then NO_GROUP.(ret := 1, sectors := sectors)
    else if after == [] then Group(2, sectors, Decimal(s[..n]), ' ', [], 0)
    else
      var k := RunWithout(after[1..], {',', '/'});
      if k == 0 then Group(3, sectors, Decimal(s[..n]), after[0], [], 0)
      else Group(4, sectors, Decimal(s[..n]), after[0], after[1..][..k], n + 1 + k)
  }

  /** The result of scanning "/0x<address>/"; the length is set if the closing
      slash is there. */
  datatype Address = NoAddress | Address(value: nat, length: nat)

  function ScanAddress(s: string): (a: Address)
    ensures a.Address? ==> a.length <= |s|
  {
    if |s| < 3 || s[..3] != "/0x" then NoAddress
    else
      var t := s[3..];
      var n := HexRun(t);
      var after := t[n..];
      if n == 0 then NoAddress
      else Address(Hexadecimal(t[..n]) % SPACE, if after != [] && after[0] == '/' then 3 + n + 1 else 0)
  }

  /** The memory type of a group: 0 if the program skips the group. */
  function TypeOf(g: Group, feature: bool): nat {
    if g.ret == 4 && |g.kind| != 1 then 0
    else if feature then 'e' as nat
    else if g.ret == 4 then g.kind[0] as nat
    else if 'a' <= g.multiplier <= 'g' then g.multiplier as nat
    else 0
  }

  function Bytes(g: Group): nat {
    if g.multiplier == 'K' then g.size * 1024
    else if g.multiplier == 'M' then g.size * 1024 * 1024
    else g.size
  }

  function SegmentOf(address: nat, g: Group, kind: nat): Segment {
    Segment(address, (address + g.sectors * Bytes(g) + SPACE - 1) % SPACE, Bytes(g), kind % 8)
  }

  datatype Scan = Scan(segments: seq<Segment>, rest: string, scanned: nat)

  /** The inner loop: sector groups until one is not followed by a comma. `scanned`
      is the length of the last complete scan; an incomplete one reuses it. */
  function Groups(s: string, address: nat, feature: bool, scanned: nat): (r: Scan)
    ensures |r.rest| <= |s|
    decreases |s|
  {
    var g := ScanGroup(s);
    var step := if g.ret == 4 then g.length else scanned;
    if g.ret <= 2 then Scan([], s, scanned)
    else if step == 0 || step > |s| then Scan([], [], step)
    else
      var rest := s[step..];
      var kind := TypeOf(g, feature);
      if kind == 0 then Groups(rest, address, feature, step)
      else
        var segment := SegmentOf(address, g, kind);
        if rest != [] && rest[0] == ',' then
          var r := Groups(rest[1..], (address + g.sectors * Bytes(g)) % SPACE, feature, step);
          r.(segments := [segment] + r.segments)
        else Scan([segment], rest, step)
  }

  function Step(g: Group, scanned: nat): nat {
    if g.ret == 4 then g.length else scanned
  }

  /** What the loop does with one group. */
  lemma GroupsStep(s: string, address: nat, feature: bool, scanned: nat)
    requires ScanGroup(s).ret > 2 && 0 < Step(ScanGroup(s), scanned) <= |s|
    ensures var g := ScanGroup(s);
            var step := Step(g, scanned);
            var rest := s[step..];
            var kind := TypeOf(g, feature);
            Groups(s, address, feature, scanned) ==
            if kind == 0 then Groups(rest, address, feature, step)
            else if rest != [] && rest[0] == ',' then
              var r := Groups(rest[1..], (address + g.sectors * Bytes(g)) % SPACE, feature, step);
              r.(segments := [SegmentOf(address, g, kind)] + r.segments)
            else Scan([SegmentOf(address, g, kind)], rest, step)
  {
    hide ScanGroup, TypeOf, SegmentOf, Bytes;
  }

  /** Where the loop ends without a group: at something else, or with a step that leads nowhere. */
  lemma GroupsStop(s: string, address: nat, feature: bool, scanned: nat)
    ensures var step := Step(ScanGroup(s), scanned);
            && (ScanGroup(s).ret <= 2 ==> Groups(s, address, feature, scanned) == Scan([], s, scanned))
            && (ScanGroup(s).ret > 2 && (step == 0 || step > |s|) ==>
                  Groups(s, address, feature, scanned) == Scan([], [], step))
  {
    hide ScanGroup, TypeOf, SegmentOf, Bytes;
  }

  /** What the inner loop still has to add to `before` at a point where it stands at
      `s`, when it adds up to `total`. */
  ghost predicate Remains(before: seq<Segment>, s: string, address: nat, feature: bool, scanned: nat, total: Scan) {
    var r := Groups(s, address, feature, scanned);
    before + r.segments == total.segments && r.rest == total.rest && r.scanned == total.scanned
  }

  /** The loop stops at something that is no group. */
  lemma RemainsStop(before: seq<Segment>, s: string, address: nat, feature: bool, scanned: nat, total: Scan)
    requires Remains(before, s, address, feature, scanned, total)
    ensures ScanGroup(s).ret <= 2 ==> total == Scan(before, s, scanned)
    ensures var step := Step(ScanGroup(s), scanned);
            ScanGroup(s).ret > 2 && (step == 0 || step > |s|) ==> total == Scan(before, [], step)
  {
    hide ScanGroup, Groups, Step;
    GroupsStop(s, address, feature, scanned);
  }

  /** The loop takes, or skips, one group. */
  lemma RemainsStep(before: seq<Segment>, s: string, address: nat, feature: bool, scanned: nat, total: Scan)
    requires Remains(before, s, address, feature, scanned, total)
    requires ScanGroup(s).ret > 2 && 0 < Step(ScanGroup(s), scanned) <= |s|
    ensures var g := ScanGroup(s);
            var step := Step(g, scanned);
            var rest := s[step..];
            var kind := TypeOf(g, feature);
            var next := (address + g.sectors * Bytes(g)) % SPACE;
            if kind == 0 then Remains(before, rest, address, feature, step, total)
            else if rest != [] && rest[0] == ',' then
              Remains(before + [SegmentOf(address, g, kind)], rest[1..], next, feature, step, total)
            else total == Scan(before + [SegmentOf(address, g, kind)], rest, step)
  {
    hide ScanGroup, TypeOf, SegmentOf, Bytes, Groups, Step;
    GroupsStep(s, address, feature, scanned);
    var g := ScanGroup(s);
    var rest := s[Step(g, scanned)..];
    if TypeOf(g, feature) != 0 && rest != [] && rest[0] == ',' {
      var segment := SegmentOf(address, g, TypeOf(g, feature));
      var more := Groups(rest[1..], (address + g.sectors * Bytes(g)) % SPACE, feature, Step(g, scanned)).segments;
      assert before + ([segment] + more) == (before + [segment]) + more;
    }
  }

  /** The outer loop: one address block after the other. */
  function Blocks(s: string, feature: bool, scanned: nat): seq<Segment>
    decreases |s|
  {
    var a := ScanAddress(s);
    var step := if a.Address? && a.length > 0 then a.length else scanned;
    if a.NoAddress? || step == 0 || step > |s| then []
    else
      var r := Groups(s[step..], a.value, feature, step);
      r.segments + Blocks(r.rest, feature, r.scanned)
  }

  const FEATURE_NAME := "Device Feature"

  /** The segments of a memory map string; none if the name is missing. */
  function ParseMap(s: string): seq<Segment> {
    if s == [] || s[0] != '@' then []
    else
      var n := RunWithout(s[1..], {'/'});
      if n == 0 then [] else Blocks(s[1 + n..], s[1..][..n] == FEATURE_NAME, 1 + n)
  }

  // ----- printing

  type Digits = s: string | s != [] && forall k :: 0 <= k < |s| ==> IsDigit(s[k]) witness "0"
  type HexDigits = s: string | s != [] && forall k :: 0 <= k < |s| ==> IsHexDigit(s[k]) witness "0"
  type Name = s: string | s != [] && forall k :: 0 <= k < |s| ==> s[k] != '/' witness "@"
  type Multiplier = c: char | !IsDigit(c) witness 'B'
  type TypeChar = c: char | c !in {',', '/'} && c as nat > 0 witness 'a'
  type Letter = c: char | 'a' <= c <= 'g' witness 'a'

  /** What follows the size: a multiplier, the blank included, and a type; or the type letter
      alone. */
  datatype Unit = Scaled(multiplier: Multiplier, kind: TypeChar) | Plain(letter: Letter)

  /** A sector group as text: digits (leading zeros allowed) and a unit. */
  datatype GroupText = GroupText(sectors: Digits, size: Digits, unit: Unit)

  /** An address block as text: at least one group. */
  datatype BlockText = BlockText(address: HexDigits, first: GroupText, others: seq<GroupText>)

  function GroupsOf(b: BlockText): (groups: seq<GroupText>)
    ensures groups != []
  {
    [b.first] + b.others
  }

  function PrintUnit(u: Unit): (s: string)
    ensures 1 <= |s| <= 2
  {
    match u
    case Scaled(multiplier, kind) => [multiplier] + [kind]
    case Plain(letter) => [letter]
  }

  function PrintGroup(g: GroupText): string {
    g.sectors + (['*'] + (g.size + PrintUnit(g.unit)))
  }

  function PrintOthers(groups: seq<GroupText>): string
    decreases |groups|
  {
    if groups == [] then [] else [','] + (PrintGroup(groups[0]) + PrintOthers(groups[1..]))
  }

  function PrintBlock(b: BlockText): string {
    "/0x" + (b.address + (['/'] + (PrintGroup(b.first) + PrintOthers(b.others))))
  }

  function PrintBlocks(blocks: seq<BlockText>): string
    decreases |blocks|
  {
    if blocks == [] then [] else PrintBlock(blocks[0]) + PrintBlocks(blocks[1..])
  }

  function PrintMap(name: Name, blocks: seq<BlockText>): string {
    ['@'] + (name + PrintBlocks(blocks))
  }

  // ----- what the text denotes

  /** K and M count 1024 and 1024 times 1024 bytes; everything else, and nothing, counts
      bytes. */
  function Factor(u: Unit): nat {
    match u
    case Plain(_) => 1
    case Scaled(multiplier, _) => if multiplier == 'K' then 1024 else if multiplier == 'M' then 1024 * 1024 else 1
  }

  function SectorBytes(g: GroupText): nat {
    Decimal(g.size) * Factor(g.unit)
  }

  function TypeCharOf(u: Unit): char {
    match u
    case Plain(letter) => letter
    case Scaled(_, kind) => kind
  }

  function GroupBytes(g: GroupText): nat {
    Decimal(g.sectors) * SectorBytes(g)
  }

  /** A group is `sectors` pages of `size` bytes at its address; for a "Device
      Feature" interface every type is 'e'. */
  function DenoteGroup(address: nat, g: GroupText, feature: bool): Segment {
    Segment(address, (address + GroupBytes(g) + SPACE - 1) % SPACE, SectorBytes(g),
            (if feature then 'e' else TypeCharOf(g.unit)) as nat % 8)
  }

  /** Which memory may be read, erased and written: of the letters a to g, a type allows
      reading as a, c, e, g, erasing as b, c, f, g and writing as d, e, f, g. A "Device Feature"
      counts as e. */
  lemma TypeLetters(address: nat, g: GroupText, feature: bool)
    ensures var s, letter := DenoteGroup(address, g, feature), if feature then 'e' else TypeCharOf(g.unit);
            'a' <= letter <= 'g' ==>
              && (s.Readable() <==> letter in {'a', 'c', 'e', 'g'})
              && (s.Erasable() <==> letter in {'b', 'c', 'f', 'g'})
              && (s.Writeable() <==> letter in {'d', 'e', 'f', 'g'})
  {
    hide GroupBytes, SectorBytes;
    var letter := if feature then 'e' else TypeCharOf(g.unit);
    if 'a' <= letter <= 'g' {
      LetterBits(letter);
    }
  }

  /** So it is for the addresses of a group, wherever in a map it stands. */
  lemma AddressLetters(layout: seq<Segment>, k: nat, address: nat, g: GroupText, feature: bool, x: nat)
    requires WellFormed(layout) && k < |layout| && layout[k] == DenoteGroup(address, g, feature)
    requires layout[k].Covers(x)
    ensures var letter := if feature then 'e' else TypeCharOf(g.unit);
            'a' <= letter <= 'g' ==>
              && (CanRead(layout, x) <==> letter in {'a', 'c', 'e', 'g'})
              && (IsFlash(layout, x) <==> letter in {'b', 'c', 'f', 'g'})
              && (CanWrite(layout, x) <==> letter in {'d', 'e', 'f', 'g'})
  {
    hide DenoteGroup, WellFormed, Find;
    FindUnique(layout, k, x);
    TypeLetters(address, g, feature);
  }

  lemma LetterBits(letter: char)
    requires 'a' <= letter <= 'g'
    ensures letter as nat % 8 % 2 == 1 <==> letter in {'a', 'c', 'e', 'g'}
    ensures letter as nat % 8 / 2 % 2 == 1 <==> letter in {'b', 'c', 'f', 'g'}
    ensures letter as nat % 8 / 4 % 2 == 1 <==> letter in {'d', 'e', 'f', 'g'}
  {
    assert letter in {'a', 'b', 'c', 'd', 'e', 'f', 'g'};
  }

  /** Groups of one block follow each other without gaps. */
  function DenoteGroups(address: nat, groups: seq<GroupText>, feature: bool): seq<Segment>
    decreases |groups|
  {
    if groups == [] then []
    else
      [DenoteGroup(address, groups[0], feature)]
      + DenoteGroups((address + GroupBytes(groups[0])) % SPACE, groups[1..], feature)
  }

  function DenoteBlocks(blocks: seq<BlockText>, feature: bool): seq<Segment>
    decreases |blocks|
  {
    if blocks == [] then []
    else
      DenoteGroups(Hexadecimal(blocks[0].address) % SPACE, [blocks[0].first] + blocks[0].others, feature)
      + DenoteBlocks(blocks[1..], feature)
  }

  // ----- parsing undoes printing

  lemma Cut(a: string, b: string)
    ensures (a + b)[..|a|] == a && (a + b)[|a|..] == b
  {
  }

  lemma {:induction false} DigitRunOf(d: string, tail: string)
    requires forall k :: 0 <= k < |d| ==> IsDigit(d[k])
    requires tail == [] || !IsDigit(tail[0])
    ensures DigitRun(d + tail) == |d|
    decreases |d|
  {
    if d == [] {
      assert d + tail == tail;
    } else {
      assert (d + tail)[1..] == d[1..] + tail;
      DigitRunOf(d[1..], tail);
    }
  }

  lemma {:induction false} HexRunOf(d: string, tail: string)
    requires forall k :: 0 <= k < |d| ==> IsHexDigit(d[k])
    requires tail == [] || !IsHexDigit(tail[0])
    ensures HexRun(d + tail) == |d|
    decreases |d|
  {
    if d == [] {
      assert d + tail == tail;
    } else {
      assert (d + tail)[1..] == d[1..] + tail;
      HexRunOf(d[1..], tail);
    }
  }

  lemma {:induction false} RunWithoutOf(d: string, tail: string, stops: set<char>)
    requires forall k :: 0 <= k < |d| ==> d[k] !in stops
    requires tail == [] || tail[0] in stops
    ensures RunWithout(d + tail, stops) == |d|
    decreases |d|
  {
    if d == [] {
      assert d + tail == tail;
    } else {
      assert (d + tail)[1..] == d[1..] + tail;
      RunWithoutOf(d[1..], tail, stops);
    }
  }

  /** A group ends at the end of the string, a comma or a slash. */
  predicate Ends(tail: string) {
    tail == [] || tail[0] in {',', '/'}
  }

  /** What scanning a printed group gives: four conversions, or three without a multiplier. */
  function Scanned(g: GroupText): Group {
    ScannedText(g.sectors, g.size, PrintUnit(g.unit)[0], PrintUnit(g.unit)[1..])
  }

  /** The same for any type, the empty one included. */
  function ScannedText(sectors: Digits, size: Digits, multiplier: char, kind: string): Group {
    if kind == [] then Group(3, Decimal(sectors), Decimal(size), multiplier, [], |sectors| + 1)
    else Group(4, Decimal(sectors), Decimal(size), multiplier, kind, |sectors| + |size| + |kind| + 2)
  }

  lemma SizeReadBack(size: Digits, multiplier: Multiplier, kind: string, tail: string, sectors: nat)
    requires Ends(tail) && forall k :: 0 <= k < |kind| ==> kind[k] !in {',', '/'}
    ensures ScanSize(size + ([multiplier] + (kind + tail)), sectors)
         == if kind == [] then Group(3, sectors, Decimal(size), multiplier, [], 0)
            else Group(4, sectors, Decimal(size), multiplier, kind, |size| + 1 + |kind|)
  {
    hide DigitRun, Decimal, RunWithout;
    var u := [multiplier] + (kind + tail);
    Cut(size, u);
    DigitRunOf(size, u);
    Cut([multiplier], kind + tail);
    Cut(kind, tail);
    RunWithoutOf(kind, tail, {',', '/'});
  }

  lemma SectorsReadBack(sectors: Digits, rest: string)
    ensures var g := ScanSize(rest, Decimal(sectors));
            ScanGroup(sectors + (['*'] + rest)) == g.(length := |sectors| + 1 + g.length)
  {
    hide DigitRun, Decimal, ScanSize;
    Cut(sectors, ['*'] + rest);
    DigitRunOf(sectors, ['*'] + rest);
    Cut(['*'], rest);
  }

  lemma Associate(a: string, b: string, c: string)
    ensures (a + b) + c == a + (b + c)
  {
  }

  lemma TextReadBack(sectors: Digits, size: Digits, multiplier: Multiplier, kind: string, tail: string)
    requires Ends(tail) && forall k :: 0 <= k < |kind| ==> kind[k] !in {',', '/'}
    ensures ScanGroup((sectors + (['*'] + (size + ([multiplier] + kind)))) + tail)
         == ScannedText(sectors, size, multiplier, kind)
  {
    hide ScanGroup, ScanSize, Decimal;
    var unit := [multiplier] + kind;
    Associate(sectors, ['*'] + (size + unit), tail);
    Associate(['*'], size + unit, tail);
    Associate(size, unit, tail);
    Associate([multiplier], kind, tail);
    SectorsReadBack(sectors, size + ([multiplier] + (kind + tail)));
    SizeReadBack(size, multiplier, kind, tail, Decimal(sectors));
  }

  lemma GroupReadBack(g: GroupText, tail: string)
    requires Ends(tail)
    ensures PrintGroup(g) != []
    ensures ScanGroup(PrintGroup(g) + tail) == Scanned(g)
    ensures g.unit.Scaled? ==> Scanned(g).length == |PrintGroup(g)|
  {
    hide ScanGroup, Decimal;
    var unit := PrintUnit(g.unit);
    assert unit == [unit[0]] + unit[1..];
    TextReadBack(g.sectors, g.size, unit[0], unit[1..], tail);
  }

  lemma GroupDenoted(g: GroupText, address: nat, feature: bool)
    ensures var scan := Scanned(g);
            && TypeOf(scan, feature) != 0
            && SegmentOf(address, scan, TypeOf(scan, feature)) == DenoteGroup(address, g, feature)
            && scan.sectors * Bytes(scan) == GroupBytes(g)
  {
    hide Decimal;
  }

  /** The segments from a point in front of a group to the end of the string. */
  function FromGroup(s: string, address: nat, feature: bool, scanned: nat): seq<Segment> {
    var r := Groups(s, address, feature, scanned);
    r.segments + Blocks(r.rest, feature, r.scanned)
  }

  lemma FromGroupStep(s: string, address: nat, feature: bool, scanned: nat)
    requires ScanGroup(s).ret > 2 && 0 < Step(ScanGroup(s), scanned) <= |s|
    ensures var g := ScanGroup(s);
            var step := Step(g, scanned);
            var rest := s[step..];
            var kind := TypeOf(g, feature);
            FromGroup(s, address, feature, scanned) ==
            if kind == 0 then FromGroup(rest, address, feature, step)
            else
              [SegmentOf(address, g, kind)] +
              if rest != [] && rest[0] == ',' then
                FromGroup(rest[1..], (address + g.sectors * Bytes(g)) % SPACE, feature, step)
              else Blocks(rest, feature, step)
  {
    hide ScanGroup, TypeOf, SegmentOf, Bytes, Blocks, Groups, Step;
    var g := ScanGroup(s);
    GroupsStep(s, address, feature, scanned);
    var rest := s[Step(g, scanned)..];
    if TypeOf(g, feature) != 0 && rest != [] && rest[0] == ',' {
      var segment := SegmentOf(address, g, TypeOf(g, feature));
      var r := Groups(rest[1..], (address + g.sectors * Bytes(g)) % SPACE, feature, Step(g, scanned));
      Prepended(segment, r.segments, Blocks(r.rest, feature, r.scanned));
    }
  }

  lemma Prepended(x: Segment, s: seq<Segment>, t: seq<Segment>)
    ensures ([x] + s) + t == [x] + (s + t)
  {
  }

  lemma FromGroupStop(s: string, address: nat, feature: bool, scanned: nat)
    ensures ScanGroup(s).ret <= 2 ==> FromGroup(s, address, feature, scanned) == Blocks(s, feature, scanned)
    ensures ScanGroup(s).ret > 2 && Step(ScanGroup(s), scanned) > |s| ==> FromGroup(s, address, feature, scanned) == []
  {
    hide ScanGroup, Groups, Step;
    GroupsStop(s, address, feature, scanned);
    NoAddressAtEnd();
  }

  lemma NoAddressAtEnd()
    ensures ScanAddress([]) == NoAddress
  {
  }

  /** The loop steps over every group by the length of its text. A scan with three conversions
      sets no length: the loop steps by the last one set. That may be less for the last group
      of a map. */
  predicate Fits(g: GroupText, scanned: nat, final: bool) {
    g.unit.Scaled? || scanned == |PrintGroup(g)| || (final && scanned <= |PrintGroup(g)|)
  }

  predicate GroupsFit(groups: seq<GroupText>, scanned: nat, last: bool)
    decreases |groups|
  {
    groups == [] ||
    (&& Fits(groups[0], scanned, last && |groups| == 1)
     && GroupsFit(groups[1..], if groups[0].unit.Scaled? then |PrintGroup(groups[0])| else scanned, last))
  }

  /** Wherever a group has no multiplier, the length set last is the group's own: that of the
      group with a multiplier before it in the block, or else that of the block's address,
      "/0x" and the slash included. */
  predicate Fitting(blocks: seq<BlockText>)
    decreases |blocks|
  {
    blocks == [] ||
    (GroupsFit(GroupsOf(blocks[0]), |blocks[0].address| + 4, |blocks| == 1) && Fitting(blocks[1..]))
  }

  lemma {:induction false} ScaledGroupsFit(groups: seq<GroupText>, scanned: nat, last: bool)
    requires forall k :: 0 <= k < |groups| ==> groups[k].unit.Scaled?
    ensures GroupsFit(groups, scanned, last)
    decreases |groups|
  {
    hide PrintGroup;
    if groups != [] {
      ScaledGroupsFit(groups[1..], |PrintGroup(groups[0])|, last);
    }
  }

  /** A map in which every group has a multiplier, the blank included, fits. */
  lemma {:induction false} ScaledFits(blocks: seq<BlockText>)
    requires forall k, l :: 0 <= k < |blocks| && 0 <= l < |GroupsOf(blocks[k])| ==>
                              GroupsOf(blocks[k])[l].unit.Scaled?
    ensures Fitting(blocks)
    decreases |blocks|
  {
    hide GroupsOf;
    if blocks != [] {
      ScaledGroupsFit(GroupsOf(blocks[0]), |blocks[0].address| + 4, |blocks| == 1);
      ScaledFits(blocks[1..]);
    }
  }

  /** One group of which the loop takes the whole text. */
  lemma GroupTaken(g: GroupText, more: string, address: nat, feature: bool, scanned: nat)
    requires Ends(more) && Fits(g, scanned, false)
    ensures PrintGroup(g) != []
    ensures var length := |PrintGroup(g)|;
            FromGroup(PrintGroup(g) + more, address, feature, scanned) ==
            [DenoteGroup(address, g, feature)] +
            if more != [] && more[0] == ',' then
              FromGroup(more[1..], (address + GroupBytes(g)) % SPACE, feature, length)
            else Blocks(more, feature, length)
  {
    hide FromGroup, Blocks, ScanGroup, PrintGroup, SegmentOf, TypeOf, Bytes, DenoteGroup, GroupBytes, Decimal;
    GroupReadBack(g, more);
    GroupDenoted(g, address, feature);
    Cut(PrintGroup(g), more);
    FromGroupStep(PrintGroup(g) + more, address, feature, scanned);
  }

  /** Where the characters of a printed group without multiplier are. */
  lemma PlainText(g: GroupText, k: nat)
    requires g.unit.Plain? && k < |PrintGroup(g)|
    ensures PrintGroup(g)[k] !in {',', '/'}
  {
  }

  lemma NoAddressWithin(s: string)
    requires s == [] || s[0] != '/'
    ensures ScanAddress(s) == NoAddress
  {
  }

  lemma NothingWithin(s: string, feature: bool, scanned: nat)
    requires ScanAddress(s) == NoAddress
    ensures Blocks(s, feature, scanned) == []
  {
  }

  /** A step too short lands inside the group, and the parser ends there. */
  lemma GroupCutShort(g: GroupText, more: string, address: nat, feature: bool, scanned: nat)
    requires Ends(more) && g.unit.Plain? && 0 < scanned < |PrintGroup(g)|
    ensures FromGroup(PrintGroup(g) + more, address, feature, scanned) == [DenoteGroup(address, g, feature)]
  {
    hide FromGroup, Blocks, ScanGroup, PrintGroup, SegmentOf, TypeOf, Bytes, DenoteGroup, GroupBytes, Decimal,
         ScanAddress;
    GroupReadBack(g, more);
    GroupDenoted(g, address, feature);
    var s := PrintGroup(g) + more;
    FromGroupStep(s, address, feature, scanned);
    PlainText(g, scanned);
    assert s[scanned..][0] == PrintGroup(g)[scanned];
    NoAddressWithin(s[scanned..]);
    NothingWithin(s[scanned..], feature, scanned);
  }

  // ----- text that denotes no segment

  /** A type of several characters ends the block: only the blocks after it are read, and they
      only if the group was the last of its own. */
  lemma LongTypeEnds(sectors: Digits, size: Digits, multiplier: Multiplier, kind: string, tail: string,
                     address: nat, feature: bool, scanned: nat)
    requires Ends(tail) && |kind| > 1 && forall k :: 0 <= k < |kind| ==> kind[k] !in {',', '/'}
    ensures var text := sectors + (['*'] + (size + ([multiplier] + kind)));
            FromGroup(text + tail, address, feature, scanned)
            == if tail != [] && tail[0] == '/' then Blocks(tail, feature, |text|) else []
  {
    hide FromGroup, Blocks, ScanGroup, Decimal, ScanAddress;
    var text := sectors + (['*'] + (size + ([multiplier] + kind)));
    TextReadBack(sectors, size, multiplier, kind, tail);
    Cut(text, tail);
    FromGroupStep(text + tail, address, feature, scanned);
    NoGroup(tail);
    FromGroupStop(tail, address, feature, |text|);
    if tail == [] || tail[0] != '/' {
      NoAddressWithin(tail);
      NothingWithin(tail, feature, |text|);
    }
  }

  lemma NoGroup(s: string)
    requires s == [] || !IsDigit(s[0])
    ensures ScanGroup(s).ret <= 2
  {
  }

  /** A group cut off before its multiplier, at the end of the string, or before its size ends the
      map: nothing is read from it on. */
  lemma CutGroupEnds(sectors: Digits, size: Digits, tail: string, address: nat, feature: bool, scanned: nat)
    ensures FromGroup(sectors + (['*'] + size), address, feature, scanned) == []
    ensures tail == [] || !IsDigit(tail[0]) ==> FromGroup(sectors + (['*'] + tail), address, feature, scanned) == []
    ensures tail == [] || (!IsDigit(tail[0]) && tail[0] != '*') ==>
              FromGroup(sectors + tail, address, feature, scanned) == []
  {
    hide FromGroup, ScanSize, Decimal, ScanGroup;
    SectorsReadBack(sectors, size);
    SizeCut(size, Decimal(sectors));
    NothingFrom(sectors + (['*'] + size), address, feature, scanned);
    if tail == [] || !IsDigit(tail[0]) {
      SectorsReadBack(sectors, tail);
      SizeMissing(tail, Decimal(sectors));
      NothingFrom(sectors + (['*'] + tail), address, feature, scanned);
      if tail == [] || tail[0] != '*' {
        SectorsAlone(sectors, tail);
        NothingFrom(sectors + tail, address, feature, scanned);
      }
    }
  }

  lemma NothingFrom(s: string, address: nat, feature: bool, scanned: nat)
    requires s != [] && IsDigit(s[0]) && ScanGroup(s).ret <= 2
    ensures FromGroup(s, address, feature, scanned) == []
  {
    hide FromGroup, ScanGroup, Blocks, ScanAddress;
    FromGroupStop(s, address, feature, scanned);
    NoAddressWithin(s);
    NothingWithin(s, feature, scanned);
  }

  lemma SizeCut(size: Digits, sectors: nat)
    ensures ScanSize(size, sectors).ret <= 2
  {
    hide DigitRun, Decimal;
    DigitRunOf(size, []);
    assert size + [] == size;
  }

  lemma SizeMissing(tail: string, sectors: nat)
    requires tail == [] || !IsDigit(tail[0])
    ensures ScanSize(tail, sectors).ret <= 2
  {
  }

  lemma SectorsAlone(sectors: Digits, tail: string)
    requires tail == [] || (!IsDigit(tail[0]) && tail[0] != '*')
    ensures ScanGroup(sectors + tail).ret <= 2
  {
    hide DigitRun, Decimal, ScanSize;
    DigitRunOf(sectors, tail);
    Cut(sectors, tail);
  }

  /** A single character that is no type letter is passed over, by the length set last and at the
      same address; for a "Device Feature" it is a type like any other. */
  lemma UnknownLetterPassed(sectors: Digits, size: Digits, letter: Multiplier, tail: string, address: nat,
                            feature: bool, scanned: nat)
    requires Ends(tail) && !('a' <= letter <= 'g')
    requires 0 < scanned <= |sectors| + |size| + 2 + |tail|
    ensures var s := (sectors + (['*'] + (size + [letter]))) + tail;
            var found := FromGroup(s, address, feature, scanned);
            if feature then
              found != [] && found[0] == DenoteGroup(address, GroupText(sectors, size, Scaled(letter, 'e')), feature)
            else found == FromGroup(s[scanned..], address, feature, scanned)
  {
    hide FromGroup, Blocks, ScanGroup, Decimal, ScannedText, TypeOf, SegmentOf, Bytes, DenoteGroup;
    var s := (sectors + (['*'] + (size + [letter]))) + tail;
    assert [letter] + [] == [letter];
    TextReadBack(sectors, size, letter, [], tail);
    UnknownLetter(sectors, size, letter, address, feature);
    FromGroupStep(s, address, feature, scanned);
  }

  lemma UnknownLetter(sectors: Digits, size: Digits, letter: Multiplier, address: nat, feature: bool)
    requires !('a' <= letter <= 'g')
    ensures var scan := ScannedText(sectors, size, letter, []);
            && scan.ret == 3
            && (if feature then
                  TypeOf(scan, feature) != 0
                  && SegmentOf(address, scan, TypeOf(scan, feature))
                     == DenoteGroup(address, GroupText(sectors, size, Scaled(letter, 'e')), feature)
                else TypeOf(scan, feature) == 0)
  {
    hide Decimal;
  }

  /** An address without closing slash sets no length: its groups begin where the length set last
      leads, which for the first block is that of the name. */
  lemma UnclosedAddress(address: HexDigits, tail: string, feature: bool, scanned: nat)
    requires tail == [] || (tail[0] != '/' && !IsHexDigit(tail[0]))
    requires 0 < scanned <= 3 + |address| + |tail|
    ensures var s := "/0x" + (address + tail);
            Blocks(s, feature, scanned) == FromGroup(s[scanned..], Hexadecimal(address) % SPACE, feature, scanned)
  {
    hide Groups, HexRun, Hexadecimal;
    Cut("/0x", address + tail);
    Cut(address, tail);
    HexRunOf(address, tail);
  }

  // ----- no more segments than asterisks

  function Stars(s: string): nat
    decreases |s|
  {
    if s == [] then 0 else (if s[0] == '*' then 1 else 0) + Stars(s[1..])
  }

  lemma {:induction false} StarsJoin(s: string, t: string)
    ensures Stars(s + t) == Stars(s) + Stars(t)
    decreases |s|
  {
    if s == [] {
      assert s + t == t;
    } else {
      assert (s + t)[1..] == s[1..] + t;
      StarsJoin(s[1..], t);
    }
  }

  lemma {:induction false} NoStars(s: string)
    requires forall k :: 0 <= k < |s| ==> s[k] != '*'
    ensures Stars(s) == 0
    decreases |s|
  {
    if s != [] {
      NoStars(s[1..]);
    }
  }

  /** What follows a point has no more of them, and fewer if one lies before the point. */
  lemma StarsAfter(s: string, n: nat, star: nat)
    requires n <= |s|
    ensures Stars(s[n..]) <= Stars(s)
    ensures star < n && s[star] == '*' ==> Stars(s[n..]) < Stars(s)
  {
    assert s == s[..n] + s[n..];
    StarsJoin(s[..n], s[n..]);
    if star < n && s[star] == '*' {
      assert s[..n] == s[..n][..star] + (['*'] + s[..n][star + 1..]);
      StarsJoin(s[..n][..star], ['*'] + s[..n][star + 1..]);
      assert (['*'] + s[..n][star + 1..])[1..] == s[..n][star + 1..];
    }
  }

  /** Three conversions take digits and an asterisk first. */
  lemma GroupStar(s: string) returns (star: nat)
    requires ScanGroup(s).ret > 2
    ensures star < |s| && s[star] == '*'
    ensures forall k :: 0 <= k < star ==> IsDigit(s[k])
  {
    star := DigitRun(s);
  }

  lemma SomeStar(s: string, star: nat)
    requires star < |s| && s[star] == '*'
    ensures Stars(s) > 0
  {
    StarsAfter(s, |s|, star);
  }

  /** A step over a group that ends at a comma or a slash leaves an asterisk behind. */
  lemma StarLeft(s: string, step: nat)
    requires ScanGroup(s).ret > 2 && step <= |s|
    ensures var rest := s[step..];
            && Stars(rest) <= Stars(s) && Stars(s) > 0 && Stars([]) == 0
            && (rest != [] && rest[0] == '/' ==> Stars(rest) < Stars(s))
            && (rest != [] && rest[0] == ',' ==> Stars(rest[1..]) < Stars(s))
  {
    hide ScanGroup, Stars;
    var rest := s[step..];
    var star := GroupStar(s);
    SomeStar(s, star);
    NoStars([]);
    StarsAfter(s, step, star);
    if rest != [] {
      assert rest[0] == s[step];
      StarsAfter(rest, 1, 0);
    }
  }

  lemma {:induction false} GroupsBounded(s: string, address: nat, feature: bool, scanned: nat)
    ensures var r := Groups(s, address, feature, scanned);
            && |r.segments| <= Stars(s)
            && (r.rest == [] || r.rest[0] == '/' ==> |r.segments| + Stars(r.rest) <= Stars(s))
    decreases |s|
  {
    hide ScanGroup, SegmentOf, TypeOf, Bytes, IsDigit, Stars, Groups, Step;
    var g := ScanGroup(s);
    var step := Step(g, scanned);
    GroupsStop(s, address, feature, scanned);
    if g.ret > 2 && 0 < step <= |s| {
      StarLeft(s, step);
      GroupsStep(s, address, feature, scanned);
      var rest := s[step..];
      if TypeOf(g, feature) == 0 {
        GroupsBounded(rest, address, feature, step);
      } else if rest != [] && rest[0] == ',' {
        GroupsBounded(rest[1..], (address + g.sectors * Bytes(g)) % SPACE, feature, step);
      }
    } else {
      assert Stars([]) == 0 by {
        NoStars([]);
      }
    }
  }

  /** A map never has more segments than asterisks, whatever the string. */
  lemma {:induction false} SegmentsBounded(s: string, feature: bool, scanned: nat)
    ensures |Blocks(s, feature, scanned)| <= Stars(s)
    decreases |s|
  {
    hide Groups, ScanAddress, Stars;
    var a := ScanAddress(s);
    var step := if a.Address? && a.length > 0 then a.length else scanned;
    if a.Address? && 0 < step <= |s| {
      var r := Groups(s[step..], a.value, feature, step);
      StarsAfter(s, step, 0);
      GroupsBounded(s[step..], a.value, feature, step);
      if r.rest == [] || r.rest[0] == '/' {
        SegmentsBounded(r.rest, feature, r.scanned);
      } else {
        NoAddressWithin(r.rest);
        NothingWithin(r.rest, feature, r.scanned);
      }
    }
  }

  lemma FromGroupBounded(s: string, address: nat, feature: bool, scanned: nat)
    ensures |FromGroup(s, address, feature, scanned)| <= Stars(s)
  {
    hide Groups, ScanAddress, Stars, Blocks;
    var r := Groups(s, address, feature, scanned);
    GroupsBounded(s, address, feature, scanned);
    if r.rest == [] || r.rest[0] == '/' {
      SegmentsBounded(r.rest, feature, r.scanned);
    } else {
      NoAddressWithin(r.rest);
      NothingWithin(r.rest, feature, r.scanned);
    }
  }

  // ----- exactly when parsing undoes printing

  /** The asterisk stands between sectors and size only. */
  predicate StarFree(g: GroupText) {
    g.unit.Scaled? ==> g.unit.multiplier != '*' && g.unit.kind != '*'
  }

  predicate StarFreeMap(blocks: seq<BlockText>) {
    forall k, l :: 0 <= k < |blocks| && 0 <= l < |GroupsOf(blocks[k])| ==> StarFree(GroupsOf(blocks[k])[l])
  }

  lemma BlocksTail(blocks: seq<BlockText>)
    ensures PrintBlocks(blocks) == [] || PrintBlocks(blocks)[0] == '/'
  {
  }

  lemma AddressScanned(address: HexDigits, body: string)
    ensures var s := "/0x" + (address + (['/'] + body));
            ScanAddress(s) == Address(Hexadecimal(address) % SPACE, |address| + 4) && s[|address| + 4..] == body
  {
    hide HexRun, Hexadecimal;
    var t := address + (['/'] + body);
    Cut("/0x", t);
    Cut(address, ['/'] + body);
    HexRunOf(address, ['/'] + body);
  }

  lemma BlockUnfolded(b: BlockText, tail: string)
    ensures PrintBlock(b) + tail
      == "/0x" + (b.address + (['/'] + (PrintGroup(b.first) + (PrintOthers(b.others) + tail))))
  {
    hide PrintGroup, PrintOthers;
    var groups := PrintGroup(b.first) + PrintOthers(b.others);
    Associate("/0x", b.address + (['/'] + groups), tail);
    Associate(b.address, ['/'] + groups, tail);
    Associate(['/'], groups, tail);
    Associate(PrintGroup(b.first), PrintOthers(b.others), tail);
  }

  lemma GroupStars(g: GroupText)
    requires StarFree(g)
    ensures Stars(PrintGroup(g)) == 1
  {
    hide Stars;
    var unit := PrintUnit(g.unit);
    StarsJoin(g.sectors, ['*'] + (g.size + unit));
    StarsJoin(['*'], g.size + unit);
    StarsJoin(g.size, unit);
    NoStars(g.sectors);
    NoStars(g.size);
    NoStars(unit);
    assert Stars(['*']) == 1 by {
      StarsAfter(['*'], 1, 0);
      OneStar();
    }
  }

  lemma OneStar()
    ensures Stars(['*']) == 1
  {
  }

  /** What is printed after a group: the others of its block and the blocks after it. */
  function After(others: seq<GroupText>, blocks: seq<BlockText>): string {
    PrintOthers(others) + PrintBlocks(blocks)
  }

  lemma AfterOther(others: seq<GroupText>, blocks: seq<BlockText>)
    requires others != []
    ensures After(others, blocks) == [','] + (PrintGroup(others[0]) + After(others[1..], blocks))
  {
    hide PrintGroup, PrintBlocks;
    Associate([','], PrintGroup(others[0]) + PrintOthers(others[1..]), PrintBlocks(blocks));
    Associate(PrintGroup(others[0]), PrintOthers(others[1..]), PrintBlocks(blocks));
  }

  lemma AfterBlock(blocks: seq<BlockText>)
    requires blocks != []
    ensures var b := blocks[0];
            After([], blocks) == PrintBlocks(blocks)
            && PrintBlocks(blocks)
               == "/0x" + (b.address + (['/'] + (PrintGroup(b.first) + After(b.others, blocks[1..]))))
  {
    hide PrintGroup, PrintBlock;
    assert After([], blocks) == PrintBlocks(blocks);
    BlockUnfolded(blocks[0], PrintBlocks(blocks[1..]));
  }

  lemma AfterEnds(others: seq<GroupText>, blocks: seq<BlockText>)
    ensures Ends(After(others, blocks))
  {
    hide PrintGroup;
    if others != [] {
      AfterOther(others, blocks);
    } else if blocks != [] {
      AfterBlock(blocks);
    }
  }

  /** Without stray asterisks there is one for every segment denoted. */
  lemma {:induction false} StarsDenoted(others: seq<GroupText>, blocks: seq<BlockText>, feature: bool)
    requires forall k :: 0 <= k < |others| ==> StarFree(others[k])
    requires StarFreeMap(blocks)
    ensures Stars(After(others, blocks)) == |others| + |DenoteBlocks(blocks, feature)|
    decreases |blocks|, |others|
  {
    hide PrintGroup, StarFree, After, DenoteGroups, Hexadecimal, PrintBlocks, Stars;
    if others != [] {
      AfterOther(others, blocks);
      var rest := After(others[1..], blocks);
      StarsJoin([','], PrintGroup(others[0]) + rest);
      StarsJoin(PrintGroup(others[0]), rest);
      NoStars([',']);
      GroupStars(others[0]);
      StarsDenoted(others[1..], blocks, feature);
    } else if blocks != [] {
      AfterBlock(blocks);
      var b := blocks[0];
      var rest := After(b.others, blocks[1..]);
      StarsJoin("/0x", b.address + (['/'] + (PrintGroup(b.first) + rest)));
      StarsJoin(b.address, ['/'] + (PrintGroup(b.first) + rest));
      StarsJoin(['/'], PrintGroup(b.first) + rest);
      StarsJoin(PrintGroup(b.first), rest);
      NoStars("/0x");
      NoStars(b.address);
      NoStars(['/']);
      assert GroupsOf(b)[0] == b.first && forall k :: 0 <= k < |b.others| ==> b.others[k] == GroupsOf(b)[k + 1];
      GroupStars(b.first);
      assert forall k :: 0 <= k < |blocks[1..]| ==> blocks[1..][k] == blocks[k + 1];
      StarsDenoted(b.others, blocks[1..], feature);
      FirstBlock(blocks, feature);
      GroupsDenoted(BlockStart(b), GroupsOf(b), feature);
    } else {
      NothingAfter(feature);
    }
  }

  lemma NothingAfter(feature: bool)
    ensures Stars(After([], [])) == 0 && DenoteBlocks([], feature) == []
  {
  }

  lemma {:induction false} GroupsDenoted(address: nat, groups: seq<GroupText>, feature: bool)
    ensures |DenoteGroups(address, groups, feature)| == |groups|
    decreases |groups|
  {
    hide DenoteGroup, GroupBytes;
    if groups != [] {
      GroupsDenoted((address + GroupBytes(groups[0])) % SPACE, groups[1..], feature);
    }
  }

  /** The point of a text `s` where a step `k` too long lands: before its first asterisk nothing
      goes on. */
  predicate Barren(s: string, star: nat) {
    && star < |s| && s[star] == '*'
    && forall k :: 0 < k <= star ==> s[k] != ',' && ScanAddress(s[k..]) == NoAddress
  }

  lemma BarrenOther(g: GroupText, rest: string)
    ensures Barren([','] + (PrintGroup(g) + rest), |g.sectors| + 1)
  {
    hide ScanAddress, PrintUnit;
    var s := [','] + (PrintGroup(g) + rest);
    assert forall k :: 0 <= k < |g.sectors| ==> s[k + 1] == g.sectors[k];
    forall k | 0 < k <= |g.sectors| + 1 ensures s[k] != ',' && ScanAddress(s[k..]) == NoAddress {
      if k <= |g.sectors| {
        assert s[k] == g.sectors[k - 1];
      }
      assert s[k..][0] == s[k];
      NoAddressWithin(s[k..]);
    }
  }

  lemma BarrenBlock(address: HexDigits, g: GroupText, rest: string)
    ensures Barren("/0x" + (address + (['/'] + (PrintGroup(g) + rest))), |address| + 4 + |g.sectors|)
  {
    hide ScanAddress, PrintUnit;
    var s := "/0x" + (address + (['/'] + (PrintGroup(g) + rest)));
    var slash := |address| + 3;
    assert forall k :: 0 <= k < |address| ==> s[k + 3] == address[k];
    assert s[slash] == '/';
    assert forall k :: 0 <= k < |g.sectors| ==> s[slash + 1 + k] == g.sectors[k];
    assert s[slash + 1 + |g.sectors|] == '*';
    forall k | 0 < k <= slash + 1 + |g.sectors| ensures s[k] != ',' && ScanAddress(s[k..]) == NoAddress {
      assert s[k..][0] == s[k];
      if k == slash {
        assert s[k..][2] == s[k + 2] == (g.sectors + ['*'])[1];
        SlashNoAddress(s[k..]);
      } else {
        if 3 <= k < slash {
          assert s[k] == address[k - 3];
        }
        if slash < k <= slash + |g.sectors| {
          assert s[k] == g.sectors[k - slash - 1];
        }
        NoAddressWithin(s[k..]);
      }
    }
  }

  lemma SlashNoAddress(s: string)
    requires |s| < 3 || s[2] != 'x'
    ensures ScanAddress(s) == NoAddress
  {
    if |s| >= 3 {
      assert s[..3][2] == s[2] && "/0x"[2] == 'x';
    }
  }

  lemma BarrenAfter(others: seq<GroupText>, blocks: seq<BlockText>) returns (star: nat)
    requires After(others, blocks) != []
    ensures Barren(After(others, blocks), star) && (others != [] || blocks != [])
  {
    hide Barren, PrintGroup, After;
    if others != [] {
      AfterOther(others, blocks);
      BarrenOther(others[0], After(others[1..], blocks));
      star := |others[0].sectors| + 1;
    } else {
      if blocks == [] {
        assert After([], []) == [] by {
          NothingPrinted();
        }
      } else {
        AfterBlock(blocks);
        var b := blocks[0];
        BarrenBlock(b.address, b.first, After(b.others, blocks[1..]));
        star := |b.address| + 4 + |b.first.sectors|;
      }
    }
  }

  lemma NothingPrinted()
    ensures After([], []) == []
  {
  }

  /** From a point behind the first character of such a text, less is found than the text has. */
  lemma BarrenBounded(s: string, star: nat, k: nat, next: nat, feature: bool, scanned: nat)
    requires Barren(s, star) && 0 < k <= |s|
    ensures |Blocks(s[k..], feature, scanned)| < Stars(s)
    ensures k < |s| && s[k] == ',' ==> |FromGroup(s[k..][1..], next, feature, scanned)| < Stars(s)
  {
    hide FromGroup, Blocks, ScanAddress, Stars;
    var rest := s[k..];
    StarsAfter(s, k, star);
    SomeStar(s, star);
    if k <= star {
      NothingWithin(rest, feature, scanned);
    } else {
      SegmentsBounded(rest, feature, scanned);
    }
    if k < |s| && s[k] == ',' {
      StarsAfter(rest, 1, 0);
      FromGroupBounded(rest[1..], next, feature, scanned);
    }
  }

  /** A step too long leaves a group out. */
  lemma GroupLost(g: GroupText, s: string, star: nat, address: nat, feature: bool, scanned: nat)
    requires Ends(s) && g.unit.Plain? && scanned > |PrintGroup(g)|
    requires s == [] || Barren(s, star)
    ensures |FromGroup(PrintGroup(g) + s, address, feature, scanned)| <= Stars(s)
  {
    hide FromGroup, Blocks, ScanGroup, PrintGroup, SegmentOf, TypeOf, Bytes, Decimal, Stars, Groups, Barren, GroupBytes;
    var whole := PrintGroup(g) + s;
    GroupReadBack(g, s);
    GroupDenoted(g, address, feature);
    FromGroupStop(whole, address, feature, scanned);
    if scanned <= |whole| {
      FromGroupStep(whole, address, feature, scanned);
      var k := scanned - |PrintGroup(g)|;
      assert whole[scanned..] == s[k..];
      BarrenBounded(s, star, k, (address + GroupBytes(g)) % SPACE, feature, scanned);
    }
  }

  lemma GroupsFitStep(g: GroupText, others: seq<GroupText>, scanned: nat, last: bool)
    ensures GroupsFit([g] + others, scanned, last) <==>
      && Fits(g, scanned, last && others == [])
      && GroupsFit(others, if g.unit.Scaled? then |PrintGroup(g)| else scanned, last)
  {
    hide Fits;
    assert ([g] + others)[1..] == others;
  }

  lemma SameTails(x: Segment, s: seq<Segment>, t: seq<Segment>)
    ensures [x] + s == [x] + t <==> s == t
  {
    if [x] + s == [x] + t {
      assert ([x] + s)[1..] == s && ([x] + t)[1..] == t;
    }
  }

  lemma DenoteFirst(g: GroupText, others: seq<GroupText>, address: nat, feature: bool, after: seq<Segment>)
    ensures DenoteGroups(address, [g] + others, feature) + after
         == [DenoteGroup(address, g, feature)]
            + (DenoteGroups((address + GroupBytes(g)) % SPACE, others, feature) + after)
  {
    hide DenoteGroup, GroupBytes;
    assert ([g] + others)[1..] == others;
    Prepended(DenoteGroup(address, g, feature),
              DenoteGroups((address + GroupBytes(g)) % SPACE, others, feature), after);
  }

  /** From a group on, the parser finds what is denoted exactly if the text fits. */
  lemma {:induction false} GroupsExactly(g: GroupText, others: seq<GroupText>, blocks: seq<BlockText>, address: nat,
                                         feature: bool, scanned: nat)
    requires scanned > 0
    ensures var found := FromGroup(PrintGroup(g) + After(others, blocks), address, feature, scanned);
            var denoted := DenoteGroups(address, [g] + others, feature) + DenoteBlocks(blocks, feature);
            var fit := GroupsFit([g] + others, scanned, blocks == []) && Fitting(blocks);
            && (fit ==> found == denoted)
            && (StarFreeMap(blocks) && (forall k :: 0 <= k < |others| ==> StarFree(others[k])) ==>
                  (found == denoted ==> fit))
    decreases |blocks|, 1 + |others|
  {
    hide FromGroup, Blocks, PrintGroup, DenoteGroup, GroupBytes, DenoteBlocks, After, GroupsFit, Fitting, StarFree,
         StarFreeMap, DenoteGroups, PrintBlocks;
    var more := After(others, blocks);
    var length := |PrintGroup(g)|;
    var next := (address + GroupBytes(g)) % SPACE;
    AfterEnds(others, blocks);
    GroupsFitStep(g, others, scanned, blocks == []);
    DenoteFirst(g, others, address, feature, DenoteBlocks(blocks, feature));
    if Fits(g, scanned, false) {
      GroupTaken(g, more, address, feature, scanned);
      if others != [] {
        AfterOther(others, blocks);
        var rest := PrintGroup(others[0]) + After(others[1..], blocks);
        Cut([','], rest);
        GroupsExactly(others[0], others[1..], blocks, next, feature, length);
        assert [others[0]] + others[1..] == others;
        SameTails(DenoteGroup(address, g, feature), FromGroup(rest, next, feature, length),
                  DenoteGroups(next, others, feature) + DenoteBlocks(blocks, feature));
      } else {
        LastOfBlock(blocks, next, feature, length);
        BlocksExactly(blocks, feature, length);
        SameTails(DenoteGroup(address, g, feature), Blocks(more, feature, length),
                  DenoteGroups(next, others, feature) + DenoteBlocks(blocks, feature));
      }
    } else if scanned < length {
      GroupCutShort(g, more, address, feature, scanned);
      CutShortFits(others, blocks, next, feature, scanned);
    } else if StarFreeMap(blocks) && forall k :: 0 <= k < |others| ==> StarFree(others[k]) {
      MisfitLost(g, others, blocks, address, feature, scanned);
    }
  }

  lemma LastOfBlock(blocks: seq<BlockText>, next: nat, feature: bool, length: nat)
    ensures After([], blocks) == PrintBlocks(blocks) && GroupsFit([], length, blocks == [])
    ensures PrintBlocks(blocks) == [] || PrintBlocks(blocks)[0] == '/'
    ensures DenoteGroups(next, [], feature) + DenoteBlocks(blocks, feature) == DenoteBlocks(blocks, feature)
  {
    hide PrintBlocks;
    BlocksTail(blocks);
    assert After([], blocks) == PrintBlocks(blocks);
  }

  /** After a step too short, all is found only if nothing was left to find. */
  lemma CutShortFits(others: seq<GroupText>, blocks: seq<BlockText>, next: nat, feature: bool, scanned: nat)
    ensures DenoteGroups(next, others, feature) + DenoteBlocks(blocks, feature) == [] <==>
              others == [] && blocks == []
    ensures GroupsFit([], scanned, true) && Fitting([])
  {
    hide DenoteBlocks;
    GroupsDenoted(next, others, feature);
    if blocks != [] {
      FirstBlock(blocks, feature);
      GroupsDenoted(BlockStart(blocks[0]), GroupsOf(blocks[0]), feature);
    } else {
      NothingAfter(feature);
    }
  }

  lemma MisfitLost(g: GroupText, others: seq<GroupText>, blocks: seq<BlockText>, address: nat,
                   feature: bool, scanned: nat)
    requires g.unit.Plain? && scanned > |PrintGroup(g)|
    requires StarFreeMap(blocks) && forall k :: 0 <= k < |others| ==> StarFree(others[k])
    ensures |FromGroup(PrintGroup(g) + After(others, blocks), address, feature, scanned)|
          < |DenoteGroups(address, [g] + others, feature) + DenoteBlocks(blocks, feature)|
  {
    hide FromGroup, PrintGroup, DenoteGroup, DenoteBlocks, After, StarFree, StarFreeMap, DenoteGroups, Barren;
    var star: nat := 0;
    if After(others, blocks) != [] {
      star := BarrenAfter(others, blocks);
    }
    AfterEnds(others, blocks);
    GroupLost(g, After(others, blocks), star, address, feature, scanned);
    StarsDenoted(others, blocks, feature);
    GroupsDenoted(address, [g] + others, feature);
  }

  /** From a block on. */
  lemma {:induction false} BlocksExactly(blocks: seq<BlockText>, feature: bool, scanned: nat)
    ensures var found, denoted := Blocks(PrintBlocks(blocks), feature, scanned), DenoteBlocks(blocks, feature);
            && (Fitting(blocks) ==> found == denoted)
            && (StarFreeMap(blocks) ==> (found == denoted ==> Fitting(blocks)))
    decreases |blocks|, 0
  {
    hide Groups, GroupsFit, DenoteGroups, DenoteBlocks, PrintBlocks, PrintGroup, After, ScanAddress, Hexadecimal,
         StarFree, Blocks;
    if blocks != [] {
      var b, rest := blocks[0], blocks[1..];
      var body := PrintGroup(b.first) + After(b.others, rest);
      AfterBlock(blocks);
      AddressScanned(b.address, body);
      BlockFound(blocks, b.address, body, feature, scanned);
      GroupsExactly(b.first, b.others, rest, BlockStart(b), feature, |b.address| + 4);
      FirstBlock(blocks, feature);
      assert forall k :: 0 <= k < |rest| ==> rest[k] == blocks[k + 1];
      assert forall k :: 0 <= k < |b.others| ==> b.others[k] == GroupsOf(b)[k + 1];
    } else {
      NoBlocks(feature, scanned);
    }
  }

  lemma BlockFound(blocks: seq<BlockText>, address: HexDigits, body: string, feature: bool, scanned: nat)
    ensures var s := "/0x" + (address + (['/'] + body));
            Blocks(s, feature, scanned) == FromGroup(body, Hexadecimal(address) % SPACE, feature, |address| + 4)
  {
    hide Groups, ScanAddress, Hexadecimal;
    AddressScanned(address, body);
  }

  lemma NoBlocks(feature: bool, scanned: nat)
    ensures Blocks(PrintBlocks([]), feature, scanned) == DenoteBlocks([], feature)
  {
    NoAddressAtEnd();
  }

  lemma NameRead(name: Name, blocks: seq<BlockText>)
    ensures ParseMap(PrintMap(name, blocks)) == Blocks(PrintBlocks(blocks), name == FEATURE_NAME, 1 + |name|)
  {
    hide Blocks, RunWithout, PrintBlocks;
    var tail := PrintBlocks(blocks);
    Cut(['@'], name + tail);
    Cut(name, tail);
    BlocksTail(blocks);
    RunWithoutOf(name, tail, {'/'});
    assert PrintMap(name, blocks)[1 + |name|..] == (name + tail)[|name|..];
  }

  /** Parsing a printed memory map yields exactly the segments it denotes, in order: always when
      the map fits, and, where the asterisk stands between sectors and size only, in no other
      case. */
  lemma MapReadBack(name: Name, blocks: seq<BlockText>)
    ensures var found, denoted := ParseMap(PrintMap(name, blocks)), DenoteBlocks(blocks, name == "Device Feature");
            && (Fitting(blocks) ==> found == denoted)
            && (StarFreeMap(blocks) ==> (found == denoted <==> Fitting(blocks)))
  {
    hide Blocks, DenoteBlocks, PrintBlocks, ParseMap, PrintMap, StarFreeMap, Fitting;
    NameRead(name, blocks);
    BlocksExactly(blocks, name == FEATURE_NAME, 1 + |name|);
  }

  /** Without a name there is no map. */
  lemma NameMissing(s: string)
    requires s == [] || s[0] != '@' || |s| == 1 || s[1] == '/'
    ensures ParseMap(s) == []
  {
  }

  // ----- three maps

  const KILO := GroupText("04", "016", Scaled('K', 'g'))
  const MEGA := GroupText("01", "1", Scaled('M', 'e'))
  const BLANK := GroupText("1", "8", Scaled(' ', 'e'))
  const PLAIN := GroupText("16", "8", Plain('d'))

  lemma KiloMega()
    ensures ParseMap("@F/0x8aF/04*016Kg,01*1Me")
         == [Segment(0x8af, 0x108ae, 16384, 7), Segment(0x108af, 0x1108ae, 1048576, 5)]
  {
    hide ParseMap, Hexadecimal, Decimal, PrintMap, PrintGroup;
    TwoGroups("F", "8aF", KILO, MEGA);
    Numbers();
    GroupTexts();
    OneBlockText("F", "8aF", KILO, MEGA);
    assert ['@'] + "F" + "/0x" + "8aF" + ['/'] + "04*016Kg" + [','] + "01*1Me" == "@F/0x8aF/04*016Kg,01*1Me";
  }

  lemma BlankAndPlain()
    ensures ParseMap("@F/0x8aF/1*8 e,16*8d") == [Segment(0x8af, 0x8b6, 8, 5), Segment(0x8b7, 0x936, 8, 4)]
  {
    hide ParseMap, Hexadecimal, Decimal, PrintMap, PrintGroup;
    GroupTexts();
    TwoGroups("F", "8aF", BLANK, PLAIN);
    Numbers();
    OneBlockText("F", "8aF", BLANK, PLAIN);
    assert ['@'] + "F" + "/0x" + "8aF" + ['/'] + "1*8 e" + [','] + "16*8d" == "@F/0x8aF/1*8 e,16*8d";
  }

  /** The group without multiplier is stepped over by the length of the address, 7 and not 5. */
  lemma StaleLength()
    ensures var blocks := [BlockText("8aF", PLAIN, [KILO])];
            && PrintMap("F", blocks) == "@F/0x8aF/16*8d,04*016Kg"
            && ParseMap(PrintMap("F", blocks)) != DenoteBlocks(blocks, false)
  {
    hide ParseMap, DenoteBlocks, PrintMap, PrintGroup;
    GroupTexts();
    var blocks := [BlockText("8aF", PLAIN, [KILO])];
    OneBlockText("F", "8aF", PLAIN, KILO);
    assert ['@'] + "F" + "/0x" + "8aF" + ['/'] + "16*8d" + [','] + "04*016Kg" == "@F/0x8aF/16*8d,04*016Kg";
    assert GroupsOf(blocks[0]) == [PLAIN, KILO];
    MapReadBack("F", blocks);
  }

  lemma GroupTexts()
    ensures PrintGroup(KILO) == "04*016Kg" && PrintGroup(MEGA) == "01*1Me"
    ensures PrintGroup(BLANK) == "1*8 e" && PrintGroup(PLAIN) == "16*8d"
  {
  }

  lemma Numbers()
    ensures Decimal("04") == 4 && Decimal("016") == 16 && Decimal("01") == 1 && Decimal("1") == 1
    ensures Decimal("16") == 16 && Decimal("8") == 8 && Hexadecimal("8aF") == 0x8af
  {
    assert Hexadecimal("8a") == 0x8a by {
      assert Hexadecimal("8") == 8;
      assert "8a"[..1] == "8";
    }
    assert "8aF"[..2] == "8a";
  }

  lemma OneBlockText(name: Name, address: HexDigits, first: GroupText, second: GroupText)
    ensures PrintMap(name, [BlockText(address, first, [second])])
         == ['@'] + name + "/0x" + address + ['/'] + PrintGroup(first) + [','] + PrintGroup(second)
  {
    hide PrintGroup;
    assert PrintOthers([second]) == [','] + PrintGroup(second);
    assert PrintBlocks([BlockText(address, first, [second])]) == PrintBlock(BlockText(address, first, [second]));
  }

  lemma TwoGroups(name: Name, address: HexDigits, first: GroupText, second: GroupText)
    requires first.unit.Scaled? && (second.unit.Scaled? || |PrintGroup(first)| == |PrintGroup(second)|)
    requires name != FEATURE_NAME
    ensures ParseMap(PrintMap(name, [BlockText(address, first, [second])]))
         == [DenoteGroup(Hexadecimal(address) % SPACE, first, false),
             DenoteGroup((Hexadecimal(address) % SPACE + GroupBytes(first)) % SPACE, second, false)]
  {
    hide ParseMap, PrintMap, Hexadecimal, DenoteGroup, GroupBytes, PrintGroup;
    var b := BlockText(address, first, [second]);
    assert GroupsOf(b) == [first] + [second];
    GroupsFitStep(first, [second], |address| + 4, true);
    GroupsFitStep(second, [], |PrintGroup(first)|, true);
    assert [second] + [] == [second];
    assert [b][1..] == [];
    assert Fitting([b]);
    MapReadBack(name, [b]);
    FirstBlock([b], false);
    DenoteFirst(first, [second], BlockStart(b), false, []);
  }

  function TotalBytes(groups: seq<GroupText>): nat
    decreases |groups|
  {
    if groups == [] then 0 else GroupBytes(groups[0]) + TotalBytes(groups[1..])
  }

  /** The groups of a block tile its address range: each begins where the one
      before it ends, as long as the block stays inside the address space. */
  lemma {:induction false} GroupsContiguous(address: nat, groups: seq<GroupText>, feature: bool)
    requires address + TotalBytes(groups) <= SPACE
    requires forall k :: 0 <= k < |groups| ==> GroupBytes(groups[k]) > 0
    ensures var s := DenoteGroups(address % SPACE, groups, feature);
            && |s| == |groups|
            && (s != [] ==> s[0].start == address && s[|s| - 1].end == address + TotalBytes(groups) - 1)
            && (forall k :: 0 <= k < |s| ==> s[k].start <= s[k].end)
            && (forall k :: 0 <= k < |s| - 1 ==> s[k + 1].start == s[k].end + 1)
    decreases |groups|
  {
    hide GroupBytes, SectorBytes;
    if groups != [] {
      var n := GroupBytes(groups[0]);
      assert address % SPACE == address;
      GroupsContiguous(address + n, groups[1..], feature);
      var s, t := DenoteGroups(address, groups, feature), DenoteGroups((address + n) % SPACE, groups[1..], feature);
      assert s == [DenoteGroup(address, groups[0], feature)] + t;
    }
  }

  /** Every group starts at a multiple of its sector size, which is a power of two. */
  predicate Aligned(address: nat, groups: seq<GroupText>)
    decreases |groups|
  {
    groups == [] ||
    (&& PowerOfTwo(SectorBytes(groups[0])) && Multiple(address, SectorBytes(groups[0]))
     && GroupBytes(groups[0]) > 0
     && Aligned(address + GroupBytes(groups[0]), groups[1..]))
  }

  lemma GroupEndsAligned(address: int, n: int, p: int)
    requires Multiple(address, p)
    ensures Multiple(address + n * p, p)
  {
    var q := address / p;
    assert address == p * q;
    Distribute(p, q, -n);
    assert p * -n == -(n * p);
    RemainderUnique(address + n * p, p, q + n, 0);
  }

  lemma GroupIsWholePages(address: nat, g: GroupText, feature: bool)
    requires PowerOfTwo(SectorBytes(g)) && Multiple(address, SectorBytes(g)) && GroupBytes(g) > 0
    requires address + GroupBytes(g) <= SPACE
    ensures WholePages(DenoteGroup(address, g, feature))
    ensures DenoteGroup(address, g, feature).start == address
    ensures DenoteGroup(address, g, feature).end == address + GroupBytes(g) - 1
  {
    hide PowerOfTwo, Decimal;
    GroupEndsAligned(address, Decimal(g.sectors), SectorBytes(g));
    RemainderUnique(address + GroupBytes(g) + SPACE - 1, SPACE, 1, address + GroupBytes(g) - 1);
  }

  /** The segments of an aligned block are whole pages and do not overlap: the map
      the programmer's page arithmetic relies on. */
  lemma {:induction false} AlignedIsWellFormed(address: nat, groups: seq<GroupText>, feature: bool)
    requires Aligned(address, groups) && address + TotalBytes(groups) <= SPACE
    ensures WellFormed(DenoteGroups(address % SPACE, groups, feature))
    ensures forall s :: s in DenoteGroups(address % SPACE, groups, feature) ==> address <= s.start
    decreases |groups|
  {
    hide PowerOfTwo, GroupBytes, SectorBytes, DenoteGroup, WholePages, Multiple, WellFormed;
    if groups == [] {
      assert WellFormed([]) by {
        NothingWellFormed(feature);
      }
    } else {
      var n := GroupBytes(groups[0]);
      GroupIsWholePages(address, groups[0], feature);
      AlignedIsWellFormed(address + n, groups[1..], feature);
      var first := DenoteGroup(address, groups[0], feature);
      assert address % SPACE == address;
      var rest := DenoteGroups((address + n) % SPACE, groups[1..], feature);
      var s := DenoteGroups(address, groups, feature);
      assert s == [first] + rest;
      forall x, y | x in [first] && y in rest ensures Disjoint(x, y) {
        assert x == first && first.end < address + n <= y.start;
      }
      OneWellFormed(first);
      WellFormedJoin([first], rest);
    }
  }

  lemma OneWellFormed(s: Segment)
    ensures WellFormed([s]) <==> WholePages(s)
  {
    hide WholePages;
    assert [s][0] == s;
  }

  /** Two lists of segments next to each other. */
  ghost predicate Aside(s: seq<Segment>, t: seq<Segment>) {
    forall x, y :: x in s && y in t ==> Disjoint(x, y)
  }

  lemma WellFormedJoin(s: seq<Segment>, t: seq<Segment>)
    ensures WellFormed(s + t) <==> WellFormed(s) && WellFormed(t) && Aside(s, t)
  {
    hide WholePages;
    var u := s + t;
    assert forall k :: 0 <= k < |s| ==> u[k] == s[k];
    assert forall k :: 0 <= k < |t| ==> u[|s| + k] == t[k];
    if WellFormed(u) {
      forall x, y | x in s && y in t ensures Disjoint(x, y) {
        var k :| 0 <= k < |s| && s[k] == x;
        var l :| 0 <= l < |t| && t[l] == y;
        assert u[k] == x && u[|s| + l] == y;
      }
    }
    if WellFormed(s) && WellFormed(t) && Aside(s, t) {
      forall k, l | 0 <= k < l < |u| ensures Disjoint(u[k], u[l]) {
        if k < |s| <= l {
          assert s[k] in s && t[l - |s|] in t;
        }
      }
    }
  }

  // ----- a whole map

  function BlockStart(b: BlockText): nat {
    Hexadecimal(b.address) % SPACE
  }

  /** One past the last address of a block. */
  function BlockEnd(b: BlockText): nat {
    BlockStart(b) + TotalBytes(GroupsOf(b))
  }

  /** No group of the block is empty, and the block ends inside the address space. */
  ghost predicate InSpace(b: BlockText) {
    BlockEnd(b) <= SPACE && forall k :: 0 <= k < |GroupsOf(b)| ==> GroupBytes(GroupsOf(b)[k]) > 0
  }

  ghost predicate AllInSpace(blocks: seq<BlockText>) {
    forall k :: 0 <= k < |blocks| ==> InSpace(blocks[k])
  }

  /** The blocks are aligned, and no two of them overlap. */
  ghost predicate AlignedMap(blocks: seq<BlockText>) {
    && (forall k :: 0 <= k < |blocks| ==> Aligned(BlockStart(blocks[k]), GroupsOf(blocks[k])))
    && (forall k, l :: 0 <= k < l < |blocks| ==>
          BlockEnd(blocks[k]) <= BlockStart(blocks[l]) || BlockEnd(blocks[l]) <= BlockStart(blocks[k]))
  }

  /** A block of whole pages is aligned. */
  lemma {:induction false} WellFormedIsAligned(address: nat, groups: seq<GroupText>, feature: bool)
    requires address + TotalBytes(groups) <= SPACE
    requires forall k :: 0 <= k < |groups| ==> GroupBytes(groups[k]) > 0
    requires WellFormed(DenoteGroups(address % SPACE, groups, feature))
    ensures Aligned(address, groups)
    decreases |groups|
  {
    hide GroupBytes, WellFormed, WholePages, DenoteGroup, PowerOfTwo, Multiple, SectorBytes;
    if groups != [] {
      var n := GroupBytes(groups[0]);
      assert address % SPACE == address;
      var first := DenoteGroup(address, groups[0], feature);
      var rest := DenoteGroups((address + n) % SPACE, groups[1..], feature);
      assert DenoteGroups(address, groups, feature) == [first] + rest;
      WellFormedJoin([first], rest);
      OneWellFormed(first);
      WholePagesAligned(address, groups[0], feature);
      WellFormedIsAligned(address + n, groups[1..], feature);
    }
  }

  lemma WholePagesAligned(address: nat, g: GroupText, feature: bool)
    requires WholePages(DenoteGroup(address, g, feature))
    ensures PowerOfTwo(SectorBytes(g)) && Multiple(address, SectorBytes(g))
  {
    hide PowerOfTwo, Multiple, GroupBytes, SectorBytes;
  }

  /** The segments of a block cover exactly its addresses. */
  lemma {:induction false} BlockCovers(address: nat, groups: seq<GroupText>, feature: bool, x: nat)
    requires address + TotalBytes(groups) <= SPACE
    requires forall k :: 0 <= k < |groups| ==> GroupBytes(groups[k]) > 0
    ensures (exists s :: s in DenoteGroups(address % SPACE, groups, feature) && s.Covers(x)) <==>
              address <= x < address + TotalBytes(groups)
    decreases |groups|
  {
    hide GroupBytes, SectorBytes;
    if groups != [] {
      var n := GroupBytes(groups[0]);
      assert address % SPACE == address;
      BlockCovers(address + n, groups[1..], feature, x);
      var first := DenoteGroup(address, groups[0], feature);
      var rest := DenoteGroups((address + n) % SPACE, groups[1..], feature);
      assert DenoteGroups(address, groups, feature) == [first] + rest;
      assert first.start == address && first.end == address + n - 1;
      assert first.Covers(x) <==> address <= x < address + n;
      if first.Covers(x) {
        assert first in [first] + rest;
      }
      if y :| y in rest && y.Covers(x) {
        assert y in [first] + rest;
      }
    }
  }

  ghost predicate SomeCovers(s: seq<Segment>, a: int) {
    exists x :: x in s && x.Covers(a)
  }

  ghost predicate NoneEmpty(s: seq<Segment>) {
    forall x :: x in s ==> x.start <= x.end
  }

  /** Lists of segments lie aside of each other if no address is covered by both. */
  lemma AsideIsApart(s: seq<Segment>, t: seq<Segment>)
    requires NoneEmpty(s) && NoneEmpty(t)
    ensures Aside(s, t) <==> forall a: int :: SomeCovers(s, a) ==> !SomeCovers(t, a)
  {
    if forall a: int :: SomeCovers(s, a) ==> !SomeCovers(t, a) {
      forall x, y | x in s && y in t ensures Disjoint(x, y) {
        var a := if x.start < y.start then y.start else x.start;
        if !Disjoint(x, y) {
          assert x.Covers(a) && y.Covers(a);
          assert SomeCovers(s, a) && SomeCovers(t, a);
        }
      }
    }
  }

  lemma JoinedCovers(s: seq<Segment>, t: seq<Segment>, a: int)
    ensures SomeCovers(s + t, a) <==> SomeCovers(s, a) || SomeCovers(t, a)
    ensures NoneEmpty(s) && NoneEmpty(t) ==> NoneEmpty(s + t)
  {
    if SomeCovers(s, a) {
      var x :| x in s && x.Covers(a);
      assert x in s + t;
    }
    if SomeCovers(t, a) {
      var x :| x in t && x.Covers(a);
      assert x in s + t;
    }
  }

  function DenoteBlock(b: BlockText, feature: bool): seq<Segment> {
    DenoteGroups(BlockStart(b), GroupsOf(b), feature)
  }

  lemma OneBlock(b: BlockText, feature: bool, a: int)
    requires InSpace(b)
    ensures NoneEmpty(DenoteBlock(b, feature)) && BlockStart(b) < BlockEnd(b)
    ensures SomeCovers(DenoteBlock(b, feature), a) <==> BlockStart(b) <= a < BlockEnd(b)
    ensures WellFormed(DenoteBlock(b, feature)) <==> Aligned(BlockStart(b), GroupsOf(b))
  {
    hide GroupBytes, WellFormed, Aligned, DenoteGroups;
    var start, groups := BlockStart(b), GroupsOf(b);
    assert start % SPACE == start;
    GroupsContiguous(start, groups, feature);
    if 0 <= a {
      BlockCovers(start, groups, feature, a);
    }
    if WellFormed(DenoteGroups(start, groups, feature)) {
      WellFormedIsAligned(start, groups, feature);
    }
    if Aligned(start, groups) {
      AlignedIsWellFormed(start, groups, feature);
    }
  }

  /** The segments of a map cover exactly the addresses of its blocks. */
  lemma {:induction false} MapCovers(blocks: seq<BlockText>, feature: bool, a: int)
    requires AllInSpace(blocks)
    ensures NoneEmpty(DenoteBlocks(blocks, feature))
    ensures SomeCovers(DenoteBlocks(blocks, feature), a) <==>
              exists k :: 0 <= k < |blocks| && BlockStart(blocks[k]) <= a < BlockEnd(blocks[k])
    decreases |blocks|
  {
    hide InSpace, BlockStart, BlockEnd, DenoteGroups;
    if blocks != [] {
      var rest := blocks[1..];
      assert forall k :: 0 <= k < |rest| ==> rest[k] == blocks[k + 1];
      assert DenoteBlocks(blocks, feature) == DenoteBlock(blocks[0], feature) + DenoteBlocks(rest, feature) by {
        FirstBlock(blocks, feature);
      }
      OneBlock(blocks[0], feature, a);
      MapCovers(rest, feature, a);
      JoinedCovers(DenoteBlock(blocks[0], feature), DenoteBlocks(rest, feature), a);
    }
  }

  lemma FirstBlock(blocks: seq<BlockText>, feature: bool)
    requires blocks != []
    ensures DenoteBlocks(blocks, feature) == DenoteBlock(blocks[0], feature) + DenoteBlocks(blocks[1..], feature)
  {
    hide DenoteGroups;
  }

  /** The blocks of a list that lie apart from this one. */
  ghost predicate ApartFromAll(b: BlockText, blocks: seq<BlockText>) {
    forall k :: 0 <= k < |blocks| ==> BlockEnd(b) <= BlockStart(blocks[k]) || BlockEnd(blocks[k]) <= BlockStart(b)
  }

  lemma BlockAside(b: BlockText, blocks: seq<BlockText>, feature: bool)
    requires InSpace(b) && AllInSpace(blocks)
    ensures Aside(DenoteBlock(b, feature), DenoteBlocks(blocks, feature)) <==> ApartFromAll(b, blocks)
  {
    hide InSpace, BlockStart, BlockEnd, DenoteGroups, NoneEmpty, SomeCovers, Aside, DenoteBlock, DenoteBlocks;
    var s, t := DenoteBlock(b, feature), DenoteBlocks(blocks, feature);
    forall a: int
      ensures SomeCovers(s, a) <==> BlockStart(b) <= a < BlockEnd(b)
      ensures SomeCovers(t, a) <==> exists k :: 0 <= k < |blocks| && BlockStart(blocks[k]) <= a < BlockEnd(blocks[k])
    {
      OneBlock(b, feature, a);
      MapCovers(blocks, feature, a);
    }
    OneBlock(b, feature, 0);
    MapCovers(blocks, feature, 0);
    AsideIsApart(s, t);
    forall k | 0 <= k < |blocks| ensures BlockStart(blocks[k]) < BlockEnd(blocks[k]) {
      OneBlock(blocks[k], feature, 0);
    }
    if Aside(s, t) {
      forall k | 0 <= k < |blocks|
        ensures BlockEnd(b) <= BlockStart(blocks[k]) || BlockEnd(blocks[k]) <= BlockStart(b)
      {
        var a := if BlockStart(b) < BlockStart(blocks[k]) then BlockStart(blocks[k]) else BlockStart(b);
        assert SomeCovers(s, a) ==> !SomeCovers(t, a);
      }
    }
  }

  /** A memory map denotes whole pages without overlap, as every download asks for, exactly
      when each block is aligned and no two blocks overlap. */
  lemma {:induction false} MapWellFormed(blocks: seq<BlockText>, feature: bool)
    requires AllInSpace(blocks)
    ensures WellFormed(DenoteBlocks(blocks, feature)) <==> AlignedMap(blocks)
    decreases |blocks|
  {
    hide InSpace, BlockStart, BlockEnd, DenoteGroups, WellFormed, DenoteBlock, Aside, Aligned, GroupsOf;
    if blocks != [] {
      var b, rest := blocks[0], blocks[1..];
      assert forall k :: 0 <= k < |rest| ==> rest[k] == blocks[k + 1];
      FirstBlock(blocks, feature);
      OneBlock(b, feature, 0);
      MapWellFormed(rest, feature);
      BlockAside(b, rest, feature);
      WellFormedJoin(DenoteBlock(b, feature), DenoteBlocks(rest, feature));
      AlignedFirst(blocks);
    } else {
      NothingWellFormed(feature);
    }
  }

  lemma NothingWellFormed(feature: bool)
    ensures WellFormed(DenoteBlocks([], feature))
  {
  }

  lemma AlignedFirst(blocks: seq<BlockText>)
    requires blocks != []
    ensures AlignedMap(blocks) <==>
      && Aligned(BlockStart(blocks[0]), GroupsOf(blocks[0]))
      && ApartFromAll(blocks[0], blocks[1..])
      && AlignedMap(blocks[1..])
  {
    hide BlockStart, BlockEnd, Aligned, GroupsOf;
    var rest := blocks[1..];
    assert forall k :: 0 <= k < |rest| ==> rest[k] == blocks[k + 1];
    if Aligned(BlockStart(blocks[0]), GroupsOf(blocks[0])) && ApartFromAll(blocks[0], rest) && AlignedMap(rest) {
      forall k | 0 <= k < |blocks| ensures Aligned(BlockStart(blocks[k]), GroupsOf(blocks[k])) {
        if k > 0 {
          assert blocks[k] == rest[k - 1];
        }
      }
      forall k, l | 0 <= k < l < |blocks|
        ensures BlockEnd(blocks[k]) <= BlockStart(blocks[l]) || BlockEnd(blocks[l]) <= BlockStart(blocks[k])
      {
        assert blocks[l] == rest[l - 1];
        if k > 0 {
          assert blocks[k] == rest[k - 1];
        }
      }
    }
    if AlignedMap(blocks) {
      forall k, l | 0 <= k < l < |rest|
        ensures BlockEnd(rest[k]) <= BlockStart(rest[l]) || BlockEnd(rest[l]) <= BlockStart(rest[k])
      {
        assert rest[k] == blocks[k + 1] && rest[l] == blocks[l + 1];
      }
    }
  }

  // ----- the parser

  /** Nodes have only been added at the end, and the added ones are new. */
  twostate predicate Extended(list: SegmentList)
    reads list
  {
    && |old(list.nodes)| <= |list.nodes|
    && list.nodes[..|old(list.nodes)|] == old(list.nodes)
    && forall k :: |old(list.nodes)| <= k < |list.nodes| ==> fresh(list.nodes[k])
  }

  /** The inner loop: appends the groups of one block. */
  method ParseGroups(list: SegmentList, desc: string, start: nat, feature: bool, scanned0: nat)
    returns (rest: string, scanned: nat)
    requires list.Valid()
    modifies list, list.nodes
    ensures list.Valid() && Extended(list)
    ensures var r := Groups(desc, start, feature, scanned0);
            && list.Contents() == old(list.Contents()) + r.segments
            && rest == r.rest && scanned == r.scanned
  {
    hide ScanGroup, SegmentOf, TypeOf, Bytes, Remains, Groups;
    rest, scanned := desc, scanned0;
    var address: nat := start;
    ghost var total := RemainsStart(list.Contents(), desc, start, feature, scanned0);
    while true
      invariant list.Valid() && Extended(list)
      invariant Remains(list.Contents(), rest, address, feature, scanned, total)
      decreases |rest|
    {
      var g := ScanGroup(rest);
      RemainsStop(list.Contents(), rest, address, feature, scanned, total);
      if g.ret <= 2 {
        return;
      }
      ghost var before := scanned;
      if g.ret == 4 {
        scanned := g.length;
      }
      if scanned == 0 || scanned > |rest| {
        rest := [];
        return;
      }
      RemainsStep(list.Contents(), rest, address, feature, before, total);
      rest := rest[scanned..];
      var kind := TypeOf(g, feature);
      if kind != 0 {
        list.Add(SegmentOf(address, g, kind));
        if rest == [] || rest[0] != ',' {
          return;
        }
        address := (address + g.sectors * Bytes(g)) % SPACE;
        rest := rest[1..];
      }
    }
  }

  lemma RemainsStart(before: seq<Segment>, s: string, address: nat, feature: bool, scanned: nat) returns (total: Scan)
    ensures var r := Groups(s, address, feature, scanned);
            total == Scan(before + r.segments, r.rest, r.scanned)
    ensures Remains(before, s, address, feature, scanned, total)
  {
    var r := Groups(s, address, feature, scanned);
    total := Scan(before + r.segments, r.rest, r.scanned);
  }

  /** What the outer loop still has to add. */
  ghost predicate BlocksRemain(before: seq<Segment>, s: string, feature: bool, scanned: nat, total: seq<Segment>) {
    before + Blocks(s, feature, scanned) == total
  }

  lemma BlocksStop(before: seq<Segment>, s: string, feature: bool, scanned: nat, total: seq<Segment>)
    requires BlocksRemain(before, s, feature, scanned, total)
    ensures var a := ScanAddress(s);
            var step := if a.Address? && a.length > 0 then a.length else scanned;
            if a.NoAddress? || step == 0 || step > |s| then total == before
            else
              var r := Groups(s[step..], a.value, feature, step);
              BlocksRemain(before + r.segments, r.rest, feature, r.scanned, total)
  {
    hide ScanAddress, Groups;
    var a := ScanAddress(s);
    var step := if a.Address? && a.length > 0 then a.length else scanned;
    if a.Address? && 0 < step <= |s| {
      var r := Groups(s[step..], a.value, feature, step);
      var more := Blocks(r.rest, feature, r.scanned);
      assert before + (r.segments + more) == (before + r.segments) + more;
    }
  }

  /** The outer loop: one address block after the other. */
  method ParseBlocks(list: SegmentList, desc: string, feature: bool, scanned0: nat)
    requires list.Valid()
    modifies list, list.nodes
    ensures list.Valid() && Extended(list)
    ensures list.Contents() == old(list.Contents()) + Blocks(desc, feature, scanned0)
  {
    hide ScanAddress, Groups, BlocksRemain, Blocks;
    var rest := desc;
    var scanned: nat := scanned0;
    ghost var total := list.Contents() + Blocks(desc, feature, scanned0);
    BlocksRemainStart(list.Contents(), desc, feature, scanned0);
    while true
      invariant list.Valid() && Extended(list)
      invariant BlocksRemain(list.Contents(), rest, feature, scanned, total)
      decreases |rest|
    {
      var a := ScanAddress(rest);
      BlocksStop(list.Contents(), rest, feature, scanned, total);
      if a.NoAddress? {
        return;
      }
      if a.length > 0 {
        scanned := a.length;
      }
      if scanned == 0 || scanned > |rest| {
        return;
      }
      ghost var mid := list.nodes;
      rest, scanned := ParseGroups(list, rest[scanned..], a.value, feature, scanned);
      assert forall k :: 0 <= k < |mid| ==> list.nodes[k] == list.nodes[..|mid|][k] == mid[k];
    }
  }

  lemma BlocksRemainStart(before: seq<Segment>, s: string, feature: bool, scanned: nat)
    ensures BlocksRemain(before, s, feature, scanned, before + Blocks(s, feature, scanned))
  {
  }

  /** Parses the memory map of an interface into a heap list of segments. */
  method ParseMemoryLayout(desc: string) returns (list: SegmentList)
    ensures fresh(list) && list.Valid() && fresh(list.nodes)
    ensures list.Contents() == ParseMap(desc)
  {
    hide Blocks;
    list := new SegmentList();
    if desc == [] || desc[0] != '@' {
      return;
    }
    var scanned := RunWithout(desc[1..], {'/'});
    if scanned == 0 {
      return;
    }
    ParseBlocks(list, desc[1 + scanned..], desc[1..][..scanned] == FEATURE_NAME, 1 + scanned);
  }
}
