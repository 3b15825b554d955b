/** DFU files: payload, optional vendor prefix, optional DFU suffix (USB DFU 1.1,
    Appendix B). */
module DfuFiles {
  import opened Outcomes
  import opened Bytes
  import opened Crc32

  const SUFFIX_LENGTH: nat := 16
  const LMDFU_PREFIX_LENGTH: nat := 8
  const LPCDFU_PREFIX_LENGTH: nat := 16

  const MAX_FILE: nat := 0x8000_0000

  datatype SuffixReq = NoSuffix | NeedsSuffix | MaybeSuffix
  datatype PrefixReq = NoPrefix | NeedsPrefix | MaybePrefix
  datatype PrefixType = ZeroPrefix | LmdfuPrefix | LpcdfuPrefix

  /** The fields the program keeps about a file. */
  datatype Fields = Fields(
    firmware: seq<bv8>,
    total: int,
    prefix: int,
    suffix: int,
    lmdfuAddress: bv32,
    prefixType: PrefixType,
    dwCRC: bv32,
    bcdDFU: bv16,
    idVendor: bv16,
    idProduct: bv16,
    bcdDevice: bv16)

  const BLANK_FIELDS := Fields([], 0, 0, 0, 0, ZeroPrefix, 0, 0, 0, 0, 0)

  /** The buffer holds the payload between prefix and suffix. */
  predicate Sized(f: Fields) {
    0 <= f.prefix && 0 <= f.suffix && f.prefix + f.suffix <= f.total == |f.firmware|
  }

  function Payload(f: Fields): seq<bv8>
    requires Sized(f)
  {
    f.firmware[f.prefix..f.total - f.suffix]
  }

  // ----- 16-bit fields

  function HalfWordBytes(h: bv16): (s: seq<bv8>)
    ensures |s| == 2
  {
    [(h & 0xff) as bv8, (h >> 8) as bv8]
  }

  function HalfWord(lo: bv8, hi: bv8): bv16 {
    ((hi as bv16) << 8) | (lo as bv16)
  }

  lemma HalfWordReadBack(h: bv16)
    ensures HalfWord(HalfWordBytes(h)[0], HalfWordBytes(h)[1]) == h
  {
  }

  // ----- the suffix

  /** Byte `k` of the last 16. */
  function SuffixByte(s: seq<bv8>, k: nat): bv8
    requires |s| >= SUFFIX_LENGTH && k < SUFFIX_LENGTH
  {
    s[|s| - SUFFIX_LENGTH + k]
  }

  predicate SuffixSignature(s: seq<bv8>) {
    && |s| >= SUFFIX_LENGTH
    && SuffixByte(s, 8) == 0x55 && SuffixByte(s, 9) == 0x46 && SuffixByte(s, 10) == 0x44
  }

  function StoredCrc(s: seq<bv8>): bv32
    requires |s| >= SUFFIX_LENGTH
  {
    Word(s[|s| - 4..])
  }

  /** A signature, and a stored CRC that is the CRC of everything before it. */
  predicate HasSuffix(s: seq<bv8>) {
    SuffixSignature(s) && StoredCrc(s) == Reference(INITIAL, s[..|s| - 4])
  }

  lemma HasSignature(s: seq<bv8>)
    ensures HasSuffix(s) ==> SuffixSignature(s)
  {
  }

  /** The suffix without its CRC. */
  function SuffixHead(f: Fields): (s: seq<bv8>)
    ensures |s| == SUFFIX_LENGTH - 4
  {
    HalfWordBytes(f.bcdDevice) + HalfWordBytes(f.idProduct) + HalfWordBytes(f.idVendor) + HalfWordBytes(f.bcdDFU)
    + [0x55, 0x46, 0x44, 0x10]
  }

  // ----- the prefix

  predicate LmdfuMark(b0: bv8, b1: bv8) {
    b0 == 0x01 && b1 == 0x00
  }

  predicate LpcdfuMark(b0: bv8, b1: bv8) {
    b0 & 0x3f == 0x1a && b1 & 0x3f == 0x3f
  }

  predicate LmdfuSignature(s: seq<bv8>) {
    |s| >= LMDFU_PREFIX_LENGTH && LmdfuMark(s[0], s[1])
  }

  predicate LpcdfuSignature(s: seq<bv8>) {
    |s| >= LMDFU_PREFIX_LENGTH && LpcdfuMark(s[0], s[1])
  }

  function PrefixLength(s: seq<bv8>): nat {
    if LmdfuSignature(s) then LMDFU_PREFIX_LENGTH
    else if LpcdfuSignature(s) then LPCDFU_PREFIX_LENGTH
    else 0
  }

  function PrefixAddress(lo: bv8, hi: bv8): bv32 {
    1024 * (((hi as bv32) << 8) | (lo as bv32))
  }

  /** The prefix the writer emits. */
  function PrefixBytes(f: Fields): seq<bv8> {
    match f.prefixType
    case ZeroPrefix => []
    case LmdfuPrefix =>
      var addr := f.lmdfuAddress / 1024;
      var len := f.total - f.prefix - f.suffix;
      [0x01, 0x00, (addr & 0xff) as bv8, ((addr >> 8) & 0xff) as bv8] + QuadBytes(if len < 0 then 0 else len)
    case LpcdfuPrefix =>
      var len := (f.total - f.suffix + 511) / 512;
      var n := if len < 0 then 0 else len;
      [0x1a, 0x3f, FromInt(n), FromInt(n / 0x100), 0, 0, 0, 0, 0, 0, 0, 0, 0xff, 0xff, 0xff, 0xff]
  }

  // ----- loading

  /** The fields of a suffix, if there is a valid one. */
  function WithSuffix(f: Fields, s: seq<bv8>): Fields
    requires HasSuffix(s)
  {
    f.(bcdDFU := HalfWord(SuffixByte(s, 6), SuffixByte(s, 7)),
       suffix := ToInt(SuffixByte(s, 11)),
       idVendor := HalfWord(SuffixByte(s, 4), SuffixByte(s, 5)),
       idProduct := HalfWord(SuffixByte(s, 2), SuffixByte(s, 3)),
       bcdDevice := HalfWord(SuffixByte(s, 0), SuffixByte(s, 1)))
  }

  function WithPrefix(f: Fields, s: seq<bv8>): (r: Fields)
    ensures r.firmware == f.firmware && r.total == f.total && r.suffix == f.suffix
    ensures |s| < LMDFU_PREFIX_LENGTH ==> r == f
  {
    if LmdfuSignature(s) then
      f.(prefixType := LmdfuPrefix, prefix := LMDFU_PREFIX_LENGTH, lmdfuAddress := PrefixAddress(s[2], s[3]))
    else if LpcdfuSignature(s) then f.(prefixType := LpcdfuPrefix, prefix := LPCDFU_PREFIX_LENGTH)
    else f
  }

  /** The fields before a load looks at the bytes; the prefix type and the CRC are
      kept when the file does not set them. */
  function Fresh(was: Fields, s: seq<bv8>): Fields {
    Fields(s, |s|, 0, 0, 0, was.prefixType, was.dwCRC, 0, 0xffff, 0xffff, 0xffff)
  }

  /** The fields after a load has looked for a suffix. A suffix whose signature and
      CRC are right but whose length field is not ends the program. */
  function Parsed(f: Fields, s: seq<bv8>): (r: Outcome<Fields>)
    ensures r.Return? ==> r.value.firmware == f.firmware && r.value.total == f.total && r.value.prefix == f.prefix
    ensures r.Exit? ==> r.code == EX_IOERR
  {
    if !SuffixSignature(s) then Return(f)
    else if !HasSuffix(s) then Return(f.(dwCRC := StoredCrc(s)))
    else if SUFFIX_LENGTH <= ToInt(SuffixByte(s, 11)) <= |s| then Return(WithSuffix(f.(dwCRC := StoredCrc(s)), s))
    else Exit(EX_IOERR)
  }

  /** The fields after a load has looked for a prefix and judged it. */
  function PrefixChecked(f: Fields, s: seq<bv8>, prefixReq: PrefixReq): Outcome<Fields> {
    var g := WithPrefix(f, s);
    if prefixReq == NeedsPrefix && (g.prefix == 0 || g.prefix + g.suffix > g.total) then Exit(EX_IOERR)
    else if prefixReq == NoPrefix && g.prefix != 0 then Exit(EX_IOERR)
    else Return(g)
  }

  /** Reading a file: what the fields are afterwards, or why the program exits. */
  function Loaded(was: Fields, s: seq<bv8>, suffixReq: SuffixReq, prefixReq: PrefixReq): Outcome<Fields> {
    if |s| >= MAX_FILE then Exit(EX_IOERR)
    else if !HasSuffix(s) && suffixReq == NeedsSuffix then Exit(EX_IOERR)
    else
      match Parsed(Fresh(was, s), s)
      case Exit(code) => Exit(code)
      case Return(f) =>
        if HasSuffix(s) && suffixReq == NoSuffix then Exit(EX_SOFTWARE) else PrefixChecked(f, s, prefixReq)
  }

  // ----- storing

  /** The bytes before the CRC of the file. */
  function Body(f: Fields, writePrefix: bool): seq<bv8>
    requires Sized(f)
  {
    (if writePrefix then PrefixBytes(f) else []) + Payload(f)
  }

  function Stored(f: Fields, writeSuffix: bool, writePrefix: bool): seq<bv8>
    requires Sized(f)
  {
    if !writeSuffix then Body(f, writePrefix)
    else Suffixed(Body(f, writePrefix), f)
  }

  /** A body with the suffix of the given fields. */
  function Suffixed(body: seq<bv8>, f: Fields): seq<bv8> {
    var covered := body + SuffixHead(f);
    covered + WordBytes(Reference(INITIAL, covered))
  }

  // ----- the suffix is a CRC residue of zero

  lemma StoredCrcIs(s: seq<bv8>, w: bv32)
    requires |s| >= SUFFIX_LENGTH
    ensures StoredCrc(s) == w <==> s[|s| - 4..] == WordBytes(w)
  {
    hide Word, WordBytes;
    WordOfBytes(w);
    if StoredCrc(s) == w {
      WordInjective(s[|s| - 4..], WordBytes(w));
    }
  }

  /** A file has a valid suffix exactly when it carries the signature and the CRC
      register is zero after the whole file, its own CRC field included. */
  lemma SuffixIsResidue(s: seq<bv8>)
    ensures HasSuffix(s) <==> SuffixSignature(s) && Reference(INITIAL, s) == 0
  {
    if SuffixSignature(s) {
      hide Reference, WordBytes, Word, StoredCrc;
      var covered, tail := s[..|s| - 4], s[|s| - 4..];
      assert s == covered + tail;
      ReferenceSplit(INITIAL, covered, tail);
      Residue(Reference(INITIAL, covered), tail);
      StoredCrcIs(s, Reference(INITIAL, covered));
    }
  }

  /** Changing a file with a valid suffix inside any four consecutive bytes,
      wherever they are, leaves no valid suffix, and a load that needs one exits. */
  lemma TamperDetected(was: Fields, s: seq<bv8>, t: seq<bv8>, at: nat, prefixReq: PrefixReq)
    requires HasSuffix(s) && DifferInWindow(s, t, at) && s != t
    ensures !HasSuffix(t)
    ensures Loaded(was, t, NeedsSuffix, prefixReq) == Exit(EX_IOERR)
  {
    hide Reference, StoredCrc, SuffixSignature;
    BurstDetected(INITIAL, s, t, at);
    SuffixIsResidue(s);
    SuffixIsResidue(t);
    hide HasSuffix;
  }

  lemma ReferenceNone(c: bv32, s: seq<bv8>)
    requires |s| == 0
    ensures Reference(c, s) == c
  {
  }

  lemma ReferenceOne(c: bv32, b: bv8)
    ensures Reference(c, [b]) == ReferenceByte(c, b)
  {
    hide ReferenceByte;
    assert [b][1..] == [];
    assert Reference(ReferenceByte(c, b), []) == ReferenceByte(c, b);
  }

  // ----- what the writer emits, read back

  lemma SuffixedParts(body: seq<bv8>, f: Fields)
    ensures var s := Suffixed(body, f);
            && |s| == |body| + SUFFIX_LENGTH
            && s[..|body|] == body
            && s[..|s| - 4] == body + SuffixHead(f)
            && s[|s| - 4..] == WordBytes(Reference(INITIAL, body + SuffixHead(f)))
            && (forall k: nat :: k < SUFFIX_LENGTH - 4 ==> SuffixByte(s, k) == SuffixHead(f)[k])
  {
    hide Reference, WordBytes, SuffixHead;
    var covered := body + SuffixHead(f);
    var s := Suffixed(body, f);
    assert s[..|covered|] == covered;
    assert s[|covered|..] == WordBytes(Reference(INITIAL, covered));
    assert s[..|body|] == covered[..|body|] == body;
  }

  /** The fields a stored suffix carries. */
  predicate Carries(s: seq<bv8>, f: Fields)
    requires |s| >= SUFFIX_LENGTH
  {
    && HalfWord(SuffixByte(s, 0), SuffixByte(s, 1)) == f.bcdDevice
    && HalfWord(SuffixByte(s, 2), SuffixByte(s, 3)) == f.idProduct
    && HalfWord(SuffixByte(s, 4), SuffixByte(s, 5)) == f.idVendor
    && HalfWord(SuffixByte(s, 6), SuffixByte(s, 7)) == f.bcdDFU
    && SuffixByte(s, 11) == 0x10
  }

  lemma SixteenIsTenHex()
    ensures ToInt(0x10) == SUFFIX_LENGTH
  {
  }

  lemma HeadBytes(f: Fields)
    ensures var h := SuffixHead(f);
            && h[0] == HalfWordBytes(f.bcdDevice)[0] && h[1] == HalfWordBytes(f.bcdDevice)[1]
            && h[2] == HalfWordBytes(f.idProduct)[0] && h[3] == HalfWordBytes(f.idProduct)[1]
            && h[4] == HalfWordBytes(f.idVendor)[0] && h[5] == HalfWordBytes(f.idVendor)[1]
            && h[6] == HalfWordBytes(f.bcdDFU)[0] && h[7] == HalfWordBytes(f.bcdDFU)[1]
            && h[8] == 0x55 && h[9] == 0x46 && h[10] == 0x44 && h[11] == 0x10
  {
    hide HalfWordBytes;
  }

  lemma HalfWordParts(h: bv16)
    ensures HalfWordBytes(h) == [(h % 256) as bv8, (h / 256) as bv8]
  {
  }

  /** The suffix byte by byte: release, product, vendor and version, low byte first, "UFD", its
      length and the CRC. */
  lemma SuffixInBytes(body: seq<bv8>, f: Fields)
    ensures Suffixed(body, f)[|body|..]
         == [(f.bcdDevice % 256) as bv8, (f.bcdDevice / 256) as bv8, (f.idProduct % 256) as bv8,
             (f.idProduct / 256) as bv8, (f.idVendor % 256) as bv8, (f.idVendor / 256) as bv8,
             (f.bcdDFU % 256) as bv8, (f.bcdDFU / 256) as bv8, 0x55, 0x46, 0x44, 16]
            + WordBytes(Reference(INITIAL, Suffixed(body, f)[..|body| + 12]))
  {
    hide HalfWordBytes, Reference, WordBytes, Suffixed;
    SuffixedParts(body, f);
    HalfWordParts(f.bcdDevice);
    HalfWordParts(f.idProduct);
    HalfWordParts(f.idVendor);
    HalfWordParts(f.bcdDFU);
    var s := Suffixed(body, f);
    assert s[|body|..] == s[..|s| - 4][|body|..] + s[|s| - 4..];
    assert s[..|s| - 4][|body|..] == SuffixHead(f);
  }

  lemma SuffixedReadBack(body: seq<bv8>, f: Fields)
    ensures HasSuffix(Suffixed(body, f))
    ensures Carries(Suffixed(body, f), f)
    ensures StoredCrc(Suffixed(body, f)) == Reference(INITIAL, body + SuffixHead(f))
  {
    hide Reference, WordBytes, Word, HalfWordBytes, HalfWord, SuffixHead, Suffixed, SuffixByte;
    var s := Suffixed(body, f);
    SuffixedParts(body, f);
    HeadBytes(f);
    HalfWordReadBack(f.bcdDevice);
    HalfWordReadBack(f.idProduct);
    HalfWordReadBack(f.idVendor);
    HalfWordReadBack(f.bcdDFU);
    WordOfBytes(Reference(INITIAL, body + SuffixHead(f)));
  }

  // ----- the program's file object

  /** The register after the first `n` bytes of a buffer. */
  method CrcOf(buf: seq<bv8>, n: nat) returns (crc: bv32)
    requires n <= |buf|
    ensures crc == Reference(INITIAL, buf[..n])
  {
    hide Reference, ReferenceByte, TableByte;
    crc := INITIAL;
    ReferenceNone(INITIAL, buf[..0]);
    for i := 0 to n
      invariant crc == Reference(INITIAL, buf[..i])
    {
      TableByteRefinesReference(crc, buf[i]);
      ReferenceSplit(INITIAL, buf[..i], [buf[i]]);
      ReferenceOne(Reference(INITIAL, buf[..i]), buf[i]);
      assert buf[..i + 1] == buf[..i] + [buf[i]];
      crc := TableByte(crc, buf[i]);
    }
  }

  class DfuFile {
    var firmware: seq<bv8>
    var total: int
    var prefix: int
    var suffix: int
    var lmdfuAddress: bv32
    var prefixType: PrefixType
    var dwCRC: bv32
    var bcdDFU: bv16
    var idVendor: bv16
    var idProduct: bv16
    var bcdDevice: bv16

    function View(): Fields
      reads this
    {
      Fields(firmware, total, prefix, suffix, lmdfuAddress, prefixType, dwCRC, bcdDFU, idVendor, idProduct, bcdDevice)
    }

    constructor ()
      ensures View() == BLANK_FIELDS
    {
      firmware, total, prefix, suffix, lmdfuAddress, prefixType := [], 0, 0, 0, 0, ZeroPrefix;
      dwCRC, bcdDFU, idVendor, idProduct, bcdDevice := 0, 0, 0, 0, 0;
    }

    /** Looks for a prefix; says whether none can be there or it overlaps the suffix. */
    method ProbePrefix() returns (res: bool)
      requires total == |firmware|
      modifies this
      ensures View() == WithPrefix(old(View()), firmware)
      ensures res <==> total < LMDFU_PREFIX_LENGTH || prefix + suffix > total
    {
      hide PrefixAddress;
      if total < LMDFU_PREFIX_LENGTH {
        return true;
      }
      if firmware[0] == 0x01 && firmware[1] == 0x00 {
        prefixType := LmdfuPrefix;
        prefix := LMDFU_PREFIX_LENGTH;
        lmdfuAddress := PrefixAddress(firmware[2], firmware[3]);
      } else if firmware[0] & 0x3f == 0x1a && firmware[1] & 0x3f == 0x3f {
        prefixType := LpcdfuPrefix;
        prefix := LPCDFU_PREFIX_LENGTH;
      }
      return prefix + suffix > total;
    }

    /** Parses a suffix. Exits on a suffix whose signature and CRC are right but
        whose length field is not. */
    method ParseSuffix() returns (missing: bool, r: Outcome<()>)
      requires total == |firmware|
      requires View() == Fresh(View(), firmware)
      modifies this
      ensures missing <==> !HasSuffix(old(firmware))
      ensures match Parsed(old(View()), old(firmware))
              case Exit(code) => r == Exit(code)
              case Return(f) => r == Return(()) && View() == f
    {
      hide Reference, Word, HalfWord, ToInt, SuffixByte;
      if total < SUFFIX_LENGTH {
        return true, Return(());
      }
      var crc := CrcOf(firmware, total - 4);
      if SuffixByte(firmware, 10) != 0x44 || SuffixByte(firmware, 9) != 0x46 || SuffixByte(firmware, 8) != 0x55 {
        return true, Return(());
      }
      dwCRC := StoredCrc(firmware);
      if dwCRC != crc {
        return true, Return(());
      }
      bcdDFU := HalfWord(SuffixByte(firmware, 6), SuffixByte(firmware, 7));
      suffix := ToInt(SuffixByte(firmware, 11));
      if suffix < SUFFIX_LENGTH {
        return false, Exit(EX_IOERR);
      }
      if suffix > total {
        return false, Exit(EX_IOERR);
      }
      idVendor := HalfWord(SuffixByte(firmware, 4), SuffixByte(firmware, 5));
      idProduct := HalfWord(SuffixByte(firmware, 2), SuffixByte(firmware, 3));
      bcdDevice := HalfWord(SuffixByte(firmware, 0), SuffixByte(firmware, 1));
      return false, Return(());
    }

    /** Sets the default values and reads the whole file. */
    method ReadAll(disk: OutputFile)
      modifies this
      ensures View() == Fresh(old(View()), disk.contents)
    {
      prefix, suffix := 0, 0;
      bcdDFU, idVendor, idProduct, bcdDevice := 0, 0xffff, 0xffff, 0xffff;
      lmdfuAddress := 0;
      total := |disk.contents|;
      firmware := disk.contents;
    }

    method Load(disk: OutputFile, suffixReq: SuffixReq, prefixReq: PrefixReq) returns (r: Outcome<()>)
      modifies this
      ensures match Loaded(old(View()), disk.contents, suffixReq, prefixReq)
              case Exit(code) => r == Exit(code)
              case Return(f) => r == Return(()) && View() == f
    {
      hide HasSuffix, Parsed, PrefixChecked;
      if |disk.contents| >= MAX_FILE {
        return Exit(EX_IOERR);
      }
      ReadAll(disk);
      ghost var blank := View();
      var missing;
      missing, r := ParseSuffix();
      if r.Exit? {
        return;
      }
      assert View() == Parsed(blank, old(disk.contents)).value;
      if missing {
        if suffixReq == NeedsSuffix {
          return Exit(EX_IOERR);
        }
      } else if suffixReq == NoSuffix {
        return Exit(EX_SOFTWARE);
      }
      r := CheckPrefix(prefixReq);
    }

    method CheckPrefix(prefixReq: PrefixReq) returns (r: Outcome<()>)
      requires total == |firmware| && prefix == 0
      modifies this
      ensures match PrefixChecked(old(View()), old(firmware), prefixReq)
              case Exit(code) => r == Exit(code)
              case Return(f) => r == Return(()) && View() == f
    {
      hide WithPrefix;
      var res := ProbePrefix();
      if (res || prefix == 0) && prefixReq == NeedsPrefix {
        return Exit(EX_IOERR);
      }
      if prefix != 0 && prefixReq == NoPrefix {
        return Exit(EX_IOERR);
      }
      return Return(());
    }

    /** Writes the file anew. */
    method Store(disk: OutputFile, writeSuffix: bool, writePrefix: bool)
      requires Sized(View())
      modifies disk
      ensures disk.contents == Stored(View(), writeSuffix, writePrefix)
    {
      hide Reference, PrefixBytes, SuffixHead, WordBytes, Sized;
      disk.contents := [];
      var crc := INITIAL;
      ReferenceNone(INITIAL, disk.contents);
      ghost var f := View();
      NoPrefixBytes(f);
      if writePrefix {
        if prefixType == LmdfuPrefix {
          crc := Append(disk, crc, PrefixBytes(View()));
        }
        if prefixType == LpcdfuPrefix {
          crc := Append(disk, crc, PrefixBytes(View()));
        }
      }
      assert disk.contents == if writePrefix then PrefixBytes(f) else [];
      crc := Append(disk, crc, Payload(View()));
      assert disk.contents == Body(f, writePrefix);
      if writeSuffix {
        crc := Append(disk, crc, SuffixHead(View()));
        crc := Append(disk, crc, WordBytes(crc));
      }
    }
  }

  lemma NoPrefixBytes(f: Fields)
    ensures f.prefixType == ZeroPrefix ==> PrefixBytes(f) == []
  {
  }

  /** Appends to a file of which the register is known. */
  method Append(disk: OutputFile, crc: bv32, buf: seq<bv8>) returns (result: bv32)
    requires crc == Reference(INITIAL, disk.contents)
    modifies disk
    ensures disk.contents == old(disk.contents) + buf
    ensures result == Reference(INITIAL, disk.contents)
  {
    hide Reference;
    ReferenceSplit(INITIAL, disk.contents, buf);
    result := WriteCrc(disk, crc, buf);
  }
}
