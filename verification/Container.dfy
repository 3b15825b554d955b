/** The DfuSe container format (ST UM0391): a prefix, images for alternate
    settings, elements with an address and bytes. */
module Containers {
  import opened Bytes

  const PREFIX_SIZE: nat := 11
  const TARGET_SIZE: nat := 274
  const ELEMENT_SIZE: nat := 8

  const DFUSE_SIGNATURE: seq<bv8> := [0x44, 0x66, 0x75, 0x53, 0x65]          // DfuSe
  const TARGET_SIGNATURE: seq<bv8> := [0x54, 0x61, 0x72, 0x67, 0x65, 0x74]   // Target

  datatype Element = Element(alt: nat, address: nat, bytes: seq<bv8>)

  /** How reading a container ends: at its end, at a mark that is wrong or a header cut off, at a
      file or an element that is too short, or at a size of 2^31 or more, which the program
      reads as negative. */
  datatype Ending = Complete | Corrupt | Short | Negative

  /** The elements met, in order, and what is left of the bytes. */
  datatype Walk = Walk(elements: seq<Element>, rest: seq<bv8>, ending: Ending)

  /** A 32-bit word as the program's signed int. */
  function Signed(n: nat): int {
    if n < 0x8000_0000 then n else n - 0x1_0000_0000
  }

  function WalkElements(data: seq<bv8>, alt: nat, count: int): Walk
    decreases count
  {
    if count <= 0 then Walk([], data, Complete)
    else if |data| < ELEMENT_SIZE then Walk([], data, Corrupt)
    else
      var address := Quad(data[..4]);
      var size := Quad(data[4..8]);
      if Signed(size) < 0 then Walk([], data, Negative)
      else if size > |data| - ELEMENT_SIZE then Walk([], data, Short)
      else
        var body := data[ELEMENT_SIZE..];
        var w := WalkElements(body[size..], alt, count - 1);
        w.(elements := [Element(alt, address, body[..size])] + w.elements)
  }

  function WalkImages(data: seq<bv8>, count: nat): Walk
    decreases count
  {
    if count == 0 then Walk([], data, Complete)
    else if |data| < TARGET_SIZE || data[..6] != TARGET_SIGNATURE then Walk([], data, Corrupt)
    else
      var w := WalkElements(data[TARGET_SIZE..], ToInt(data[6]), Signed(Quad(data[270..274])));
      if w.ending != Complete then w
      else
        var v := WalkImages(w.rest, count - 1);
        v.(elements := w.elements + v.elements)
  }

  function WalkContainer(data: seq<bv8>): Walk {
    if |data| < PREFIX_SIZE + TARGET_SIZE + ELEMENT_SIZE then Walk([], data, Short)
    else if data[..5] != DFUSE_SIGNATURE || data[5] != 0x01 then Walk([], data, Corrupt)
    else WalkImages(data[PREFIX_SIZE..], ToInt(data[10]))
  }

  /** The element at the head of the bytes. */
  function HeadElement(data: seq<bv8>, alt: nat): Element
    requires |data| >= ELEMENT_SIZE && Quad(data[4..8]) <= |data| - ELEMENT_SIZE
  {
    Element(alt, Quad(data[..4]), data[ELEMENT_SIZE..ELEMENT_SIZE + Quad(data[4..8])])
  }

  /** Taking one element off the bytes takes it off the walk. */
  lemma WalkStep(data: seq<bv8>, alt: nat, count: int)
    requires count > 0 && WalkElements(data, alt, count).ending != Negative
    requires |data| >= ELEMENT_SIZE && Signed(Quad(data[4..8])) <= |data| - ELEMENT_SIZE
    ensures 0 <= Signed(Quad(data[4..8])) == Quad(data[4..8])
    ensures var w := WalkElements(data, alt, count);
            var v := WalkElements(data[ELEMENT_SIZE + Quad(data[4..8])..], alt, count - 1);
            w.ending == v.ending && w.rest == v.rest && w.elements == [HeadElement(data, alt)] + v.elements
  {
    hide Quad;
    var size := Quad(data[4..8]);
    var body := data[ELEMENT_SIZE..];
    assert body[size..] == data[ELEMENT_SIZE + size..];
    assert body[..size] == data[ELEMENT_SIZE..ELEMENT_SIZE + size];
  }

  /** Taking one image off the bytes takes its elements off the walk. */
  lemma ImageStep(data: seq<bv8>, count: nat)
    requires count > 0 && |data| >= TARGET_SIZE && data[..6] == TARGET_SIGNATURE
    ensures var w := WalkImages(data, count);
            var e := WalkElements(data[TARGET_SIZE..], ToInt(data[6]), Signed(Quad(data[270..274])));
            if e.ending != Complete then w == e
            else var v := WalkImages(e.rest, count - 1);
                 w.ending == v.ending && w.rest == v.rest && w.elements == e.elements + v.elements
  {
    hide Quad, ToInt, WalkElements;
  }

  /** The elements meant for one alternate setting. */
  function ForAlt(elements: seq<Element>, alt: nat): seq<Element>
    decreases |elements|
  {
    if elements == [] then []
    else (if elements[0].alt == alt then [elements[0]] else []) + ForAlt(elements[1..], alt)
  }

  lemma {:induction false} ForAltJoin(s: seq<Element>, t: seq<Element>, alt: nat)
    ensures ForAlt(s + t, alt) == ForAlt(s, alt) + ForAlt(t, alt)
    decreases |s|
  {
    if s == [] {
      assert s + t == t;
    } else {
      assert (s + t)[1..] == s[1..] + t && (s + t)[0] == s[0];
      ForAltJoin(s[1..], t, alt);
      var head := if s[0].alt == alt then [s[0]] else [];
      var rest, end := ForAlt(s[1..], alt), ForAlt(t, alt);
      assert ForAlt(s, alt) == head + rest;
      assert ForAlt(s + t, alt) == head + (rest + end);
      assert head + (rest + end) == (head + rest) + end;
    }
  }

  lemma {:induction false} WalkAddresses(data: seq<bv8>, alt: nat, count: int)
    ensures forall e :: e in WalkElements(data, alt, count).elements ==> e.address < 0x1_0000_0000
    decreases count
  {
    hide Quad;
    var size := if |data| >= ELEMENT_SIZE then Quad(data[4..8]) else 0;
    if count > 0 && |data| >= ELEMENT_SIZE && Signed(size) >= 0 && size <= |data| - ELEMENT_SIZE {
      WalkAddresses(data[ELEMENT_SIZE..][size..], alt, count - 1);
    }
  }

  lemma {:induction false} ImageAddresses(data: seq<bv8>, count: nat)
    ensures forall e :: e in WalkImages(data, count).elements ==> e.address < 0x1_0000_0000
    decreases count
  {
    hide Quad, WalkElements, ToInt;
    if count > 0 && |data| >= TARGET_SIZE && data[..6] == TARGET_SIGNATURE {
      var alt, n := ToInt(data[6]), Signed(Quad(data[270..274]));
      WalkAddresses(data[TARGET_SIZE..], alt, n);
      ImageAddresses(WalkElements(data[TARGET_SIZE..], alt, n).rest, count - 1);
    }
  }

  /** Addresses in a container are 32-bit words. */
  lemma ContainerAddresses(data: seq<bv8>)
    ensures forall e :: e in WalkContainer(data).elements ==> e.address < 0x1_0000_0000
  {
    hide WalkImages, ToInt;
    if |data| >= PREFIX_SIZE {
      ImageAddresses(data[PREFIX_SIZE..], ToInt(data[10]));
    }
  }

  // ----- writing a container

  datatype Part = Part(address: nat, bytes: seq<bv8>)

  /** `name` fills the target prefix up to its sizes; `size` is the image size
      field, which readers do not use. `count` is the number of parts; a count that the program
      reads as negative stands for none. */
  datatype Image = Image(alt: nat, name: seq<bv8>, size: nat, count: nat, parts: seq<Part>)

  predicate ValidPart(p: Part) {
    p.address < 0x1_0000_0000 && |p.bytes| < 0x8000_0000
  }

  predicate ValidImage(i: Image) {
    && i.alt < 256
    && |i.name| == 259
    && i.size < 0x1_0000_0000 && i.count < 0x1_0000_0000
    && |i.parts| == (if Signed(i.count) < 0 then 0 else i.count)
    && forall k :: 0 <= k < |i.parts| ==> ValidPart(i.parts[k])
  }

  function WritePart(p: Part): seq<bv8> {
    QuadBytes(p.address) + QuadBytes(|p.bytes|) + p.bytes
  }

  function WriteParts(parts: seq<Part>): seq<bv8>
    decreases |parts|
  {
    if parts == [] then [] else WritePart(parts[0]) + WriteParts(parts[1..])
  }

  /** The bytes of an image up to its parts. */
  function WriteTarget(i: Image): seq<bv8> {
    TARGET_SIGNATURE + [FromInt(i.alt)] + i.name + QuadBytes(i.size) + QuadBytes(i.count)
  }

  function WriteImage(i: Image): seq<bv8> {
    WriteTarget(i) + WriteParts(i.parts)
  }

  function WriteImages(images: seq<Image>): seq<bv8>
    decreases |images|
  {
    if images == [] then [] else WriteImage(images[0]) + WriteImages(images[1..])
  }

  function WritePrefix(size: nat, images: nat): (s: seq<bv8>)
    ensures |s| == PREFIX_SIZE
  {
    DFUSE_SIGNATURE + [0x01] + QuadBytes(size) + [FromInt(images)]
  }

  function WriteContainer(images: seq<Image>, size: nat): seq<bv8> {
    WritePrefix(size, |images|) + WriteImages(images)
  }

  function Elements(alt: nat, parts: seq<Part>): seq<Element>
    decreases |parts|
  {
    if parts == [] then []
    else [Element(alt, parts[0].address, parts[0].bytes)] + Elements(alt, parts[1..])
  }

  function AllElements(images: seq<Image>): seq<Element>
    decreases |images|
  {
    if images == [] then [] else Elements(images[0].alt, images[0].parts) + AllElements(images[1..])
  }

  lemma {:induction false} PartsReadBack(parts: seq<Part>, alt: nat, tail: seq<bv8>)
    requires forall k :: 0 <= k < |parts| ==> ValidPart(parts[k])
    ensures WalkElements(WriteParts(parts) + tail, alt, |parts|) == Walk(Elements(alt, parts), tail, Complete)
    decreases |parts|
  {
    hide Quad, QuadBytes;
    var data := WriteParts(parts) + tail;
    if parts == [] {
      assert data == tail;
    } else {
      var p := parts[0];
      var rest := WriteParts(parts[1..]) + tail;
      assert data == QuadBytes(p.address) + QuadBytes(|p.bytes|) + p.bytes + rest;
      assert data[..4] == QuadBytes(p.address);
      assert data[4..8] == QuadBytes(|p.bytes|);
      QuadOfBytes(p.address);
      QuadOfBytes(|p.bytes|);
      var body := data[ELEMENT_SIZE..];
      assert body == p.bytes + rest;
      assert body[..|p.bytes|] == p.bytes && body[|p.bytes|..] == rest;
      PartsReadBack(parts[1..], alt, tail);
    }
  }

  lemma NegativeCount(data: seq<bv8>, alt: nat, count: nat)
    ensures Signed(count) < 0 ==> WalkElements(data, alt, Signed(count)) == WalkElements(data, alt, 0)
  {
  }

  lemma TargetReadBack(i: Image, body: seq<bv8>)
    requires ValidImage(i)
    ensures var data := WriteTarget(i) + body;
            && |data| >= TARGET_SIZE && data[..6] == TARGET_SIGNATURE && data[TARGET_SIZE..] == body
            && ToInt(data[6]) == i.alt && Quad(data[270..274]) == i.count
  {
    hide Quad, QuadBytes, ToInt, FromInt, ValidPart;
    var data := WriteTarget(i) + body;
    assert data[270..274] == QuadBytes(i.count);
    FromIntToInt(i.alt);
    QuadOfBytes(i.count);
  }

  lemma {:induction false} ImagesReadBack(images: seq<Image>, tail: seq<bv8>)
    requires forall k :: 0 <= k < |images| ==> ValidImage(images[k])
    ensures WalkImages(WriteImages(images) + tail, |images|) == Walk(AllElements(images), tail, Complete)
    decreases |images|
  {
    hide Quad, ToInt, FromInt, WalkElements, WriteTarget, WriteParts, ValidPart;
    var data := WriteImages(images) + tail;
    if images == [] {
      assert data == tail;
    } else {
      var i := images[0];
      var rest := WriteImages(images[1..]) + tail;
      ImagesJoin(i, images[1..], tail);
      assert [i] + images[1..] == images;
      TargetReadBack(i, WriteParts(i.parts) + rest);
      NegativeCount(WriteParts(i.parts) + rest, i.alt, i.count);
      PartsReadBack(i.parts, i.alt, rest);
      ImagesReadBack(images[1..], tail);
    }
  }

  lemma {:induction false} WriteImagesSize(images: seq<Image>)
    requires forall k :: 0 <= k < |images| ==> ValidImage(images[k])
    requires AllElements(images) != []
    ensures |WriteImages(images)| >= TARGET_SIZE + ELEMENT_SIZE
    decreases |images|
  {
    if images != [] && images[0].parts == [] {
      WriteImagesSize(images[1..]);
    }
  }

  /** Reading what was written visits exactly the written elements, in order; any
      bytes after the container are left over. Only fewer than 293 bytes in all are refused, as
      short; no container with an element is. */
  lemma {:induction false} ContainerReadBack(images: seq<Image>, size: nat, tail: seq<bv8>)
    requires |images| < 256
    requires forall k :: 0 <= k < |images| ==> ValidImage(images[k])
    ensures var data := WriteContainer(images, size) + tail;
            && (AllElements(images) != [] ==> |data| >= 293)
            && WalkContainer(data)
               == if |data| >= 293 then Walk(AllElements(images), tail, Complete) else Walk([], data, Short)
  {
    hide QuadBytes, ToInt, FromInt, WalkImages, WriteImages, WritePrefix;
    var prefix, body := WritePrefix(size, |images|), WriteImages(images) + tail;
    var data := WriteContainer(images, size) + tail;
    assert data == prefix + body;
    if AllElements(images) != [] {
      WriteImagesSize(images);
    }
    PrefixParts(size, |images|);
    assert data[..5] == prefix[..5] && data[PREFIX_SIZE..] == body;
    FromIntToInt(|images|);
    ImagesReadBack(images, tail);
  }

  lemma PrefixParts(size: nat, images: nat)
    ensures var s := WritePrefix(size, images);
            s[..5] == DFUSE_SIGNATURE && s[5] == 0x01 && s[10] == FromInt(images)
  {
  }

  // ----- nothing else is read

  function PartOf(e: Element): Part {
    Part(e.address, e.bytes)
  }

  /** The parts that elements were read from. */
  function PartsOf(elements: seq<Element>): (parts: seq<Part>)
    ensures |parts| == |elements|
    decreases |elements|
  {
    if elements == [] then [] else [PartOf(elements[0])] + PartsOf(elements[1..])
  }

  ghost predicate AllValidImages(images: seq<Image>) {
    forall k :: 0 <= k < |images| ==> ValidImage(images[k])
  }

  ghost predicate AllValid(parts: seq<Part>) {
    forall k :: 0 <= k < |parts| ==> ValidPart(parts[k])
  }

  lemma CompletePart(data: seq<bv8>, alt: nat, count: int)
    requires count > 0 && WalkElements(data, alt, count).ending == Complete
    ensures |data| >= ELEMENT_SIZE && 0 <= Signed(Quad(data[4..8])) <= |data| - ELEMENT_SIZE
  {
    hide Quad;
  }

  lemma PartSplit(data: seq<bv8>, alt: nat)
    requires |data| >= ELEMENT_SIZE && 0 <= Signed(Quad(data[4..8])) <= |data| - ELEMENT_SIZE
    ensures Quad(data[4..8]) == Signed(Quad(data[4..8]))
    ensures var e := HeadElement(data, alt);
            && data == WritePart(PartOf(e)) + data[ELEMENT_SIZE + Quad(data[4..8])..]
            && ValidPart(PartOf(e)) && e.alt == alt
  {
    hide Quad, QuadBytes;
    BytesOfQuad(data[..4]);
    BytesOfQuad(data[4..8]);
  }

  lemma NoPartsRead(data: seq<bv8>, alt: nat, count: int)
    requires count <= 0
    ensures var w := WalkElements(data, alt, count);
            && data == WriteParts(PartsOf(w.elements)) + w.rest && w.elements == []
            && Elements(alt, PartsOf(w.elements)) == w.elements && AllValid(PartsOf(w.elements))
  {
    assert data == [] + data;
  }

  lemma {:induction false} PartsRead(data: seq<bv8>, alt: nat, count: int)
    requires WalkElements(data, alt, count).ending == Complete
    ensures var w := WalkElements(data, alt, count);
            && data == WriteParts(PartsOf(w.elements)) + w.rest
            && Elements(alt, PartsOf(w.elements)) == w.elements
            && |w.elements| == (if count < 0 then 0 else count)
            && AllValid(PartsOf(w.elements))
    decreases count
  {
    hide WalkElements, WriteParts, WritePart, PartsOf, PartOf, Elements, AllValid, ValidPart, HeadElement, Quad, Signed;
    if count <= 0 {
      NoPartsRead(data, alt, count);
    } else {
      CompletePart(data, alt, count);
      PartSplit(data, alt);
      WalkStep(data, alt, count);
      var after := data[ELEMENT_SIZE + Quad(data[4..8])..];
      PartsRead(after, alt, count - 1);
      var v := WalkElements(after, alt, count - 1);
      PartsJoin(HeadElement(data, alt), v.elements, v.rest);
    }
  }

  lemma PartsJoin(e: Element, others: seq<Element>, tail: seq<bv8>)
    ensures WriteParts(PartsOf([e] + others)) + tail == WritePart(PartOf(e)) + (WriteParts(PartsOf(others)) + tail)
    ensures Elements(e.alt, PartsOf(others)) == others ==> Elements(e.alt, PartsOf([e] + others)) == [e] + others
    ensures AllValid(PartsOf(others)) && ValidPart(PartOf(e)) ==> AllValid(PartsOf([e] + others))
    ensures |[e] + others| == 1 + |others|
  {
    hide WritePart, ValidPart;
    var p := PartOf(e);
    assert ([e] + others)[1..] == others;
    assert ([p] + PartsOf(others))[1..] == PartsOf(others);
  }

  lemma CompleteImage(data: seq<bv8>, count: nat)
    requires count > 0 && WalkImages(data, count).ending == Complete
    ensures |data| >= TARGET_SIZE && data[..6] == TARGET_SIGNATURE
    ensures WalkElements(data[TARGET_SIZE..], ToInt(data[6]), Signed(Quad(data[270..274]))).ending == Complete
  {
    hide Quad, ToInt, WalkElements;
  }

  lemma TargetSplit(data: seq<bv8>, parts: seq<Part>)
    requires |data| >= TARGET_SIZE && data[..6] == TARGET_SIGNATURE
    ensures var i := Image(ToInt(data[6]), data[7..266], Quad(data[266..270]), Quad(data[270..274]), parts);
            data == WriteTarget(i) + data[TARGET_SIZE..]
  {
    hide Quad, QuadBytes, ToInt, FromInt;
    FromIntIs(ToInt(data[6]), data[6]);
    BytesOfQuad(data[266..270]);
    BytesOfQuad(data[270..274]);
    assert data == data[..6] + [data[6]] + data[7..266] + data[266..270] + data[270..274] + data[TARGET_SIZE..];
  }

  lemma TargetValid(i: Image)
    requires i.alt < 256 && |i.name| == 259 && i.size < 0x1_0000_0000 && i.count < 0x1_0000_0000
    requires |i.parts| == (if Signed(i.count) < 0 then 0 else Signed(i.count)) && AllValid(i.parts)
    ensures ValidImage(i)
  {
  }

  lemma ImagesJoin(i: Image, others: seq<Image>, tail: seq<bv8>)
    ensures WriteImages([i] + others) + tail
         == WriteTarget(i) + (WriteParts(i.parts) + (WriteImages(others) + tail))
    ensures AllElements([i] + others) == Elements(i.alt, i.parts) + AllElements(others)
    ensures AllValidImages(others) && ValidImage(i) ==> AllValidImages([i] + others)
    ensures |[i] + others| == 1 + |others|
  {
    hide FromInt, QuadBytes, WriteParts, ValidImage;
    assert ([i] + others)[1..] == others;
  }

  lemma NoImagesRead(data: seq<bv8>)
    ensures var w := WalkImages(data, 0);
            data == WriteImages([]) + w.rest && AllElements([]) == w.elements && AllValidImages([])
  {
    assert data == [] + data;
  }

  lemma {:induction false} ImagesRead(data: seq<bv8>, count: nat) returns (images: seq<Image>)
    requires WalkImages(data, count).ending == Complete
    ensures |images| == count && AllValidImages(images)
    ensures var w := WalkImages(data, count);
            data == WriteImages(images) + w.rest && AllElements(images) == w.elements
    decreases count
  {
    hide WalkImages, WriteImages, WriteTarget, WalkElements, WriteParts, PartsOf, Elements, AllElements, AllValid,
         AllValidImages, ValidImage, Quad, ToInt, Signed;
    if count == 0 {
      images := [];
      NoImagesRead(data);
    } else {
      CompleteImage(data, count);
      ImageStep(data, count);
      var alt, n, body := ToInt(data[6]), Quad(data[270..274]), data[TARGET_SIZE..];
      var e := WalkElements(body, alt, Signed(n));
      PartsRead(body, alt, Signed(n));
      var others := ImagesRead(e.rest, count - 1);
      var parts := PartsOf(e.elements);
      TargetSplit(data, parts);
      var i := Image(alt, data[7..266], Quad(data[266..270]), n, parts);
      TargetValid(i);
      images := [i] + others;
      ImagesJoin(i, others, WalkImages(e.rest, count - 1).rest);
    }
  }

  /** A container is read to its end only if it is one that the format allows: a written one,
      with the elements met, and whatever follows it. */
  lemma ContainerRead(data: seq<bv8>) returns (images: seq<Image>, size: nat)
    requires WalkContainer(data).ending == Complete
    ensures |data| >= 293 && |images| < 256 && size < 0x1_0000_0000 && AllValidImages(images)
    ensures var w := WalkContainer(data);
            data == WriteContainer(images, size) + w.rest && AllElements(images) == w.elements
  {
    hide Quad, QuadBytes, ToInt, FromInt, WalkImages, WriteImages, ValidImage;
    var body := data[PREFIX_SIZE..];
    images := ImagesRead(body, ToInt(data[10]));
    size := Quad(data[6..10]);
    BytesOfQuad(data[6..10]);
    FromIntIs(|images|, data[10]);
    assert data == data[..5] + [data[5]] + data[6..10] + [data[10]] + body;
  }

  /** The bytes of a container: DfuSe and 1 at its head, its size and the number of images;
      numbers are spelt low byte first. */
  lemma ContainerInBytes(images: seq<Image>, size: nat)
    requires size < 0x1_0000_0000 && |images| < 256
    ensures var s := WriteContainer(images, size);
            && |s| >= 11 && s[..6] == [0x44, 0x66, 0x75, 0x53, 0x65, 0x01]
            && LowFirst(s[6..10]) == size && s[10] as int == |images|
            && s[11..] == WriteImages(images)
  {
    hide QuadBytes, FromInt, LowFirst, WriteImages;
    SpelledQuad(size);
    SpelledByte(|images|);
    var s := WriteContainer(images, size);
    assert s[6..10] == QuadBytes(size);
  }

  /** The bytes of an image: Target, its setting, its name, its size and the number of parts. */
  lemma ImageInBytes(i: Image)
    requires ValidImage(i)
    ensures var s := WriteImage(i);
            && |s| >= 274 && s[..6] == [0x54, 0x61, 0x72, 0x67, 0x65, 0x74]
            && s[6] as int == i.alt && s[7..266] == i.name
            && LowFirst(s[266..270]) == i.size && LowFirst(s[270..274]) == i.count
            && s[274..] == WriteParts(i.parts)
  {
    hide QuadBytes, FromInt, LowFirst, WriteParts, ValidPart;
    SpelledQuad(i.size);
    SpelledQuad(i.count);
    SpelledByte(i.alt);
    var s := WriteImage(i);
    assert s[266..270] == QuadBytes(i.size) && s[270..274] == QuadBytes(i.count);
  }

  /** The bytes of a part: its address, its size and its contents. */
  lemma PartInBytes(p: Part)
    requires ValidPart(p)
    ensures var s := WritePart(p);
            && |s| == 8 + |p.bytes| && s[8..] == p.bytes
            && LowFirst(s[..4]) == p.address && LowFirst(s[4..8]) == |p.bytes|
  {
    hide QuadBytes, LowFirst;
    SpelledQuad(p.address);
    SpelledQuad(|p.bytes|);
    var s := WritePart(p);
    assert s[..4] == QuadBytes(p.address) && s[4..8] == QuadBytes(|p.bytes|);
  }

  lemma SpelledQuad(n: nat)
    requires n < 0x1_0000_0000
    ensures LowFirst(QuadBytes(n)) == n
  {
    hide QuadBytes, LowFirst, Quad;
    QuadOfBytes(n);
    QuadValue(QuadBytes(n));
  }

  lemma SpelledByte(n: nat)
    requires n < 256
    ensures FromInt(n) as int == n
  {
    hide FromInt, ToInt;
    FromIntToInt(n);
    ToIntIsValue(FromInt(n));
  }
}
