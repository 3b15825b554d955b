/** Loading a stored DFU file recovers what was stored. */
module FileRoundTrips {
  import opened Outcomes
  import opened Bytes
  import opened Crc32
  import opened DfuFiles

  /** The address the two address bytes of a prefix can carry: whole kibibytes,
      modulo 64 Mi. */
  function CarriedAddress(address: bv32): bv32 {
    1024 * ((address / 1024) % 65536)
  }

  lemma AddressReadBack(address: bv32)
    ensures var addr := address / 1024;
            PrefixAddress((addr & 0xff) as bv8, ((addr >> 8) & 0xff) as bv8) == CarriedAddress(address)
  {
  }

  function WrittenLength(t: PrefixType): nat {
    match t
    case ZeroPrefix => 0
    case LmdfuPrefix => LMDFU_PREFIX_LENGTH
    case LpcdfuPrefix => LPCDFU_PREFIX_LENGTH
  }

  lemma PrefixBytesLength(f: Fields)
    ensures |PrefixBytes(f)| == WrittenLength(f.prefixType)
  {
    hide FromInt, ToInt;
  }

  /** The fields a written prefix gives back. */
  function PrefixRead(g: Fields, f: Fields): Fields {
    match f.prefixType
    case ZeroPrefix => g
    case LmdfuPrefix =>
      g.(prefixType := LmdfuPrefix, prefix := LMDFU_PREFIX_LENGTH, lmdfuAddress := CarriedAddress(f.lmdfuAddress))
    case LpcdfuPrefix => g.(prefixType := LpcdfuPrefix, prefix := LPCDFU_PREFIX_LENGTH)
  }

  /** Whatever follows a written prefix, the reader recognizes it. */
  lemma PrefixReadBack(f: Fields, rest: seq<bv8>, g: Fields)
    requires f.prefixType != ZeroPrefix
    ensures PrefixLength(PrefixBytes(f) + rest) == WrittenLength(f.prefixType)
    ensures WithPrefix(g, PrefixBytes(f) + rest) == PrefixRead(g, f)
  {
    hide FromInt, ToInt, PrefixAddress, CarriedAddress;
    AddressReadBack(f.lmdfuAddress);
    PrefixBytesLength(f);
    var p := PrefixBytes(f);
    var s := p + rest;
    assert s[0] == p[0] && s[1] == p[1] && s[2] == p[2] && s[3] == p[3];
  }

  lemma WithPrefixLength(f: Fields, s: seq<bv8>)
    requires f.prefix == 0
    ensures WithPrefix(f, s).prefix == PrefixLength(s)
    ensures WithPrefix(f, s) == f.(prefix := PrefixLength(s), prefixType := WithPrefix(f, s).prefixType,
                                   lmdfuAddress := WithPrefix(f, s).lmdfuAddress)
  {
    hide PrefixAddress;
  }

  /** The fields of a suffixed file before its prefix is looked at. */
  function SuffixRead(was: Fields, body: seq<bv8>, f: Fields): Fields {
    var s := Suffixed(body, f);
    Fields(s, |s|, 0, SUFFIX_LENGTH, 0, was.prefixType, Reference(INITIAL, body + SuffixHead(f)),
           f.bcdDFU, f.idVendor, f.idProduct, f.bcdDevice)
  }

  lemma LoadSuffixed(was: Fields, body: seq<bv8>, f: Fields, suffixReq: SuffixReq, prefixReq: PrefixReq)
    requires |body| + SUFFIX_LENGTH < MAX_FILE
    requires suffixReq != NoSuffix
    ensures var s := Suffixed(body, f);
            var g := WithPrefix(SuffixRead(was, body, f), s);
            Loaded(was, s, suffixReq, prefixReq)
            == (if prefixReq == NeedsPrefix && (g.prefix == 0 || g.prefix + SUFFIX_LENGTH > g.total) then Exit(EX_IOERR)
                else if prefixReq == NoPrefix && g.prefix != 0 then Exit(EX_IOERR)
                else Return(g))
  {
    hide Reference, HalfWord, HalfWordBytes, StoredCrc, SuffixHead, Suffixed, SuffixByte, ToInt, LmdfuSignature,
         LpcdfuSignature;
    hide HasSuffix, WithPrefix;
    var s := Suffixed(body, f);
    SuffixedParts(body, f);
    SuffixedReadBack(body, f);
    SixteenIsTenHex();
    HasSignature(s);
    WithPrefixLength(SuffixRead(was, body, f), s);
  }

  /** The load succeeded and gives back the payload and the suffix fields. */
  predicate CameBack(r: Outcome<Fields>, f: Fields)
    requires Sized(f)
  {
    && r.Return?
    && Sized(r.value)
    && Payload(r.value) == Payload(f)
    && r.value.suffix == SUFFIX_LENGTH
    && r.value.bcdDevice == f.bcdDevice
    && r.value.idProduct == f.idProduct
    && r.value.idVendor == f.idVendor
    && r.value.bcdDFU == f.bcdDFU
  }

  /** Store with prefix and suffix, then load: payload, suffix fields, prefix type
      and the carried part of the address come back. */
  lemma StoreThenLoad(was: Fields, f: Fields, suffixReq: SuffixReq, prefixReq: PrefixReq)
    requires Sized(f) && f.prefixType != ZeroPrefix
    requires |Stored(f, true, true)| < MAX_FILE
    requires suffixReq != NoSuffix && prefixReq != NoPrefix
    ensures var r := Loaded(was, Stored(f, true, true), suffixReq, prefixReq);
            && CameBack(r, f)
            && r.value.prefixType == f.prefixType
            && r.value.prefix == WrittenLength(f.prefixType)
            && r.value.lmdfuAddress == (if f.prefixType == LmdfuPrefix then CarriedAddress(f.lmdfuAddress) else 0)
            && r.value.dwCRC == Reference(INITIAL, Body(f, true) + SuffixHead(f))
  {
    hide Reference, HalfWordBytes, CarriedAddress, PrefixBytes, Suffixed, Loaded, SuffixHead, WordBytes;
    var body := PrefixBytes(f) + Payload(f);
    var s := Suffixed(body, f);
    SuffixedParts(body, f);
    LoadSuffixed(was, body, f, suffixReq, prefixReq);
    PrefixBytesLength(f);
    assert s == PrefixBytes(f) + s[|PrefixBytes(f)|..] by {
      assert s[..|PrefixBytes(f)|] == s[..|body|][..|PrefixBytes(f)|] == PrefixBytes(f);
    }
    PrefixReadBack(f, s[|PrefixBytes(f)|..], SuffixRead(was, body, f));
    assert s[|PrefixBytes(f)|..|body|] == s[..|body|][|PrefixBytes(f)|..] == Payload(f);
  }

  /** Two opening bytes that read as one of the two prefixes. */
  predicate Marked(b0: bv8, b1: bv8) {
    LmdfuMark(b0, b1) || LpcdfuMark(b0, b1)
  }

  lemma MarkedIsPrefix(s: seq<bv8>)
    requires |s| >= LMDFU_PREFIX_LENGTH
    ensures PrefixLength(s) != 0 <==> Marked(s[0], s[1])
  {
    hide LmdfuMark, LpcdfuMark;
  }

  /** The bytes that open a stored file without prefix: the payload's own, or,
      in a payload shorter than two bytes, the device release of the suffix. */
  function Opening(f: Fields): (s: seq<bv8>)
    requires Sized(f)
    ensures |s| >= 2
  {
    Payload(f) + HalfWordBytes(f.bcdDevice)
  }

  lemma OpeningOpens(f: Fields)
    requires Sized(f)
    ensures var s := Suffixed(Payload(f), f);
            |s| >= SUFFIX_LENGTH && s[0] == Opening(f)[0] && s[1] == Opening(f)[1]
  {
    hide Reference, HalfWordBytes, Suffixed, SuffixHead, WordBytes;
    var p := Payload(f);
    var s := Suffixed(p, f);
    SuffixedParts(p, f);
    HeadBytes(f);
    assert s[0] == s[..|s| - 4][0] && s[1] == s[..|s| - 4][1];
  }

  /** Store without prefix, then load: payload and suffix fields come back exactly
      when the file does not happen to open like a prefix. */
  lemma StoreThenLoadPlain(was: Fields, f: Fields, suffixReq: SuffixReq)
    requires Sized(f)
    requires |Stored(f, true, false)| < MAX_FILE
    requires suffixReq != NoSuffix
    ensures CameBack(Loaded(was, Stored(f, true, false), suffixReq, MaybePrefix), f)
       <==> !Marked(Opening(f)[0], Opening(f)[1])
  {
    hide Reference, HalfWordBytes, Suffixed, Loaded, SuffixHead, Marked, Opening, WordBytes, PrefixLength, WithPrefix;
    var body := Payload(f);
    assert Body(f, false) == body by { assert [] + body == body; }
    var s := Suffixed(body, f);
    SuffixedParts(body, f);
    LoadSuffixed(was, body, f, suffixReq, MaybePrefix);
    WithPrefixLength(SuffixRead(was, body, f), s);
    OpeningOpens(f);
    MarkedIsPrefix(s);
  }
}
