/** The suffix tool and the prefix tool: what adding, deleting and checking do to
    the bytes of a file. */
module FileTools {
  import opened Outcomes
  import opened Bytes
  import opened Crc32
  import opened DfuFiles
  import opened FileRoundTrips

  const EX_USAGE: int := 64

  datatype Mode = ModeNone | ModeAdd | ModeDelete | ModeCheck

  /** The identifiers a suffix is given on the command line. */
  datatype Ids = Ids(did: bv16, pid: bv16, vid: bv16, spec: bv16)

  function SuffixLength(s: seq<bv8>): nat {
    if HasSuffix(s) then ToInt(SuffixByte(s, 11)) else 0
  }

  /** Prefix and suffix do not overlap. */
  predicate Fits(s: seq<bv8>) {
    PrefixLength(s) + SuffixLength(s) <= |s|
  }

  lemma LoadedSizes(was: Fields, s: seq<bv8>, suffixReq: SuffixReq, prefixReq: PrefixReq)
    ensures var r := Loaded(was, s, suffixReq, prefixReq);
            r.Return? ==>
              && r.value.firmware == s && r.value.total == |s|
              && r.value.prefix == PrefixLength(s) && r.value.suffix == SuffixLength(s)
              && (HasSuffix(s) ==> SUFFIX_LENGTH <= r.value.suffix <= |s|)
              && (prefixReq != MaybePrefix ==> Sized(r.value))
              && (suffixReq == NoSuffix ==> !HasSuffix(s))
              && (suffixReq == NeedsSuffix ==> HasSuffix(s))
              && (PrefixLength(s) == 0 ==> r.value.prefixType == was.prefixType && r.value.lmdfuAddress == 0)
  {
    hide Reference, SuffixByte, StoredCrc, HalfWord, ToInt, PrefixAddress, LmdfuMark, LpcdfuMark, HasSuffix;
    hide SuffixSignature;
    HasSignature(s);
  }

  function Identified(f: Fields, ids: Ids): Fields {
    f.(bcdDevice := ids.did, idProduct := ids.pid, idVendor := ids.vid, bcdDFU := ids.spec)
  }

  /** Adding a suffix: the new contents, or why the program exits. */
  function SuffixAdd(s: seq<bv8>, ids: Ids): Outcome<seq<bv8>>
    requires HasSuffix(s) || Fits(s)
  {
    LoadedSizes(BLANK_FIELDS, s, NoSuffix, MaybePrefix);
    match Loaded(BLANK_FIELDS, s, NoSuffix, MaybePrefix)
    case Exit(code) => Exit(code)
    case Return(f) => Return(Stored(Identified(f, ids), true, f.prefix != 0))
  }

  function SuffixDelete(s: seq<bv8>): Outcome<seq<bv8>>
    requires !HasSuffix(s) || Fits(s)
  {
    LoadedSizes(BLANK_FIELDS, s, NeedsSuffix, MaybePrefix);
    match Loaded(BLANK_FIELDS, s, NeedsSuffix, MaybePrefix)
    case Exit(code) => Exit(code)
    case Return(f) => Return(Stored(f, false, f.prefix != 0))
  }

  function Directed(f: Fields, t: PrefixType, address: bv32): Fields {
    f.(lmdfuAddress := address, prefixType := t)
  }

  function PrefixAdd(s: seq<bv8>, t: PrefixType, address: bv32): Outcome<seq<bv8>> {
    LoadedSizes(BLANK_FIELDS, s, MaybeSuffix, NoPrefix);
    if t == ZeroPrefix then Exit(EX_IOERR)
    else
      match Loaded(BLANK_FIELDS, s, MaybeSuffix, NoPrefix)
      case Exit(code) => Exit(code)
      case Return(f) => Return(Stored(Directed(f, t, address), f.suffix != 0, true))
  }

  function PrefixDelete(s: seq<bv8>, t: PrefixType): Outcome<seq<bv8>> {
    LoadedSizes(BLANK_FIELDS, s, MaybeSuffix, NeedsPrefix);
    match Loaded(BLANK_FIELDS, s, MaybeSuffix, NeedsPrefix)
    case Exit(code) => Exit(code)
    case Return(f) =>
      if t != ZeroPrefix && f.prefixType != t then Exit(EX_IOERR)
      else Return(Stored(f, f.suffix != 0, false))
  }

  // ----- the suffix tool undoes itself

  /** The fields of a suffix-free file after its prefix has been looked at. */
  function PlainFields(s: seq<bv8>): Fields {
    WithPrefix(Fresh(BLANK_FIELDS, s), s)
  }

  /** What a store puts in place of the prefix of a suffix-free file. */
  function RewrittenPrefix(s: seq<bv8>): seq<bv8> {
    if PrefixLength(s) == 0 then [] else PrefixBytes(PlainFields(s))
  }

  /** The file has no prefix, or the very one the writer would emit. */
  predicate PrefixAsWritten(s: seq<bv8>)
    requires PrefixLength(s) <= |s|
  {
    s[..PrefixLength(s)] == RewrittenPrefix(s)
  }

  function Rewritten(s: seq<bv8>): seq<bv8>
    requires PrefixLength(s) <= |s|
  {
    RewrittenPrefix(s) + s[PrefixLength(s)..]
  }

  /** The prefix bytes depend on these fields alone. */
  lemma PrefixBytesDepend(f: Fields, g: Fields)
    requires f.prefixType == g.prefixType
    requires CarriedAddress(f.lmdfuAddress) == CarriedAddress(g.lmdfuAddress)
    requires f.total - f.suffix == g.total - g.suffix
    requires f.prefix == g.prefix
    ensures PrefixBytes(f) == PrefixBytes(g)
  {
    hide FromInt, QuadBytes, CarriedAddress;
    AddressBytesDepend(f.lmdfuAddress, g.lmdfuAddress);
    assert f.total - f.prefix - f.suffix == g.total - g.prefix - g.suffix;
  }

  lemma AddressBytesDepend(a: bv32, b: bv32)
    requires CarriedAddress(a) == CarriedAddress(b)
    ensures (a / 1024) & 0xff == (b / 1024) & 0xff
    ensures ((a / 1024) >> 8) & 0xff == ((b / 1024) >> 8) & 0xff
  {
  }

  lemma CarriedTwice(a: bv32)
    ensures CarriedAddress(CarriedAddress(a)) == CarriedAddress(a)
  {
  }

  lemma PlainType(s: seq<bv8>)
    ensures PrefixLength(s) == WrittenLength(PlainFields(s).prefixType)
    ensures PlainFields(s).prefix == PrefixLength(s) && PlainFields(s).suffix == 0 && PlainFields(s).total == |s|
    ensures |RewrittenPrefix(s)| == PrefixLength(s)
  {
    hide PrefixAddress, PrefixBytes;
    PrefixBytesLength(PlainFields(s));
  }

  lemma AddSuffixShape(s: seq<bv8>, ids: Ids)
    requires !HasSuffix(s) && Fits(s) && |s| < MAX_FILE
    ensures SuffixAdd(s, ids) == Return(Suffixed(Rewritten(s), Identified(BLANK_FIELDS, ids)))
  {
    hide HasSuffix, PrefixLength, WithPrefix, PrefixBytes, CarriedAddress, Suffixed, SuffixSignature, StoredCrc;
    LoadedSizes(BLANK_FIELDS, s, NoSuffix, MaybePrefix);
    var p := Parsed(Fresh(BLANK_FIELDS, s), s).value;
    var f := WithPrefix(p, s);
    assert Loaded(BLANK_FIELDS, s, NoSuffix, MaybePrefix) == Return(f);
    var g := Identified(f, ids);
    WithPrefixSame(p, Fresh(BLANK_FIELDS, s), s);
    PrefixBytesDepend(g, PlainFields(s));
    SuffixedDepends(Rewritten(s), g, Identified(BLANK_FIELDS, ids));
    assert Payload(g) == s[PrefixLength(s)..];
  }

  lemma WithPrefixSame(f: Fields, g: Fields, s: seq<bv8>)
    requires f.prefixType == g.prefixType && f.prefix == g.prefix && f.lmdfuAddress == g.lmdfuAddress
    ensures WithPrefix(f, s).prefixType == WithPrefix(g, s).prefixType
    ensures WithPrefix(f, s).prefix == WithPrefix(g, s).prefix
    ensures WithPrefix(f, s).lmdfuAddress == WithPrefix(g, s).lmdfuAddress
  {
    hide PrefixAddress, LmdfuMark, LpcdfuMark;
  }

  lemma SuffixedDepends(body: seq<bv8>, f: Fields, g: Fields)
    requires f.bcdDevice == g.bcdDevice && f.idProduct == g.idProduct && f.idVendor == g.idVendor
      && f.bcdDFU == g.bcdDFU
    ensures Suffixed(body, f) == Suffixed(body, g)
  {
    hide Reference, HalfWordBytes, WordBytes;
  }

  /** The opening bytes of a file decide its prefix, once it is long enough. */
  lemma SamePrefix(s: seq<bv8>, t: seq<bv8>)
    requires |s| >= LMDFU_PREFIX_LENGTH && |t| >= LMDFU_PREFIX_LENGTH
    requires s[0] == t[0] && s[1] == t[1]
    ensures PrefixLength(s) == PrefixLength(t)
  {
    hide LmdfuMark, LpcdfuMark;
  }

  /** After an add, the prefix is there exactly when it was there before, except
      in a file too short to have had one. */
  lemma PrefixAfterAdd(s: seq<bv8>, ids: Fields)
    requires PrefixLength(s) <= |s|
    ensures var a := Suffixed(Rewritten(s), ids);
            |a| == |s| + SUFFIX_LENGTH
            && (PrefixLength(s) != 0 ==>
                  && PrefixLength(a) == PrefixLength(s)
                  && (forall g: Fields :: WithPrefix(g, a) == PrefixRead(g, PlainFields(s))))
            && (|s| >= LMDFU_PREFIX_LENGTH ==> PrefixLength(a) == PrefixLength(s))
  {
    hide Reference, WithPrefix, PrefixBytes, CarriedAddress, Suffixed, PrefixRead, SuffixHead, WordBytes,
         PrefixLength;
    PlainType(s);
    var a := Suffixed(Rewritten(s), ids);
    SuffixedParts(Rewritten(s), ids);
    var n := PrefixLength(s);
    if n == 0 {
      assert Rewritten(s) == s;
      if |s| >= LMDFU_PREFIX_LENGTH {
        assert a[0] == a[..|s|][0] && a[1] == a[..|s|][1];
        SamePrefix(s, a);
      }
    } else {
      var f := PlainFields(s);
      assert a[..n] == a[..|Rewritten(s)|][..n] == PrefixBytes(f);
      assert a == PrefixBytes(f) + a[n..];
      forall g: Fields ensures WithPrefix(g, a) == PrefixRead(g, f) {
        PrefixReadBack(f, a[n..], g);
      }
      PrefixReadBack(f, a[n..], BLANK_FIELDS);
    }
  }

  lemma PrefixLengths(s: seq<bv8>)
    ensures PrefixLength(s) == 0 || PrefixLength(s) == LMDFU_PREFIX_LENGTH || PrefixLength(s) == LPCDFU_PREFIX_LENGTH
    ensures PrefixLength(s) != 0 ==> |s| >= LMDFU_PREFIX_LENGTH
  {
  }

  lemma FittingPrefix(s: seq<bv8>, ids: Fields)
    requires PrefixLength(s) <= |s|
    ensures SuffixLength(Suffixed(Rewritten(s), ids)) == SUFFIX_LENGTH
    ensures Fits(Suffixed(Rewritten(s), ids)) ==> PrefixLength(Suffixed(Rewritten(s), ids)) == PrefixLength(s)
    ensures |s| >= LMDFU_PREFIX_LENGTH ==> Fits(Suffixed(Rewritten(s), ids))
  {
    hide HasSuffix, Suffixed, PrefixLength, Rewritten, StoredCrc, Reference;
    PrefixAfterAdd(s, ids);
    PrefixLengths(s);
    PrefixLengths(Suffixed(Rewritten(s), ids));
    SuffixedReadBack(Rewritten(s), ids);
    SixteenIsTenHex();
  }

  /** What the file reads as after an add. */
  function AfterAdd(s: seq<bv8>, ids: Fields): Fields
    requires PrefixLength(s) <= |s|
  {
    WithPrefix(SuffixRead(BLANK_FIELDS, Rewritten(s), ids), Suffixed(Rewritten(s), ids))
  }

  lemma LoadAfterAdd(s: seq<bv8>, ids: Fields)
    requires PrefixLength(s) <= |s| && |s| + SUFFIX_LENGTH < MAX_FILE
    requires Fits(Suffixed(Rewritten(s), ids))
    ensures Loaded(BLANK_FIELDS, Suffixed(Rewritten(s), ids), NeedsSuffix, MaybePrefix) == Return(AfterAdd(s, ids))
    ensures Sized(AfterAdd(s, ids)) && AfterAdd(s, ids).prefix == PrefixLength(s)
    ensures AfterAdd(s, ids).total == |s| + SUFFIX_LENGTH && AfterAdd(s, ids).suffix == SUFFIX_LENGTH
    ensures Payload(AfterAdd(s, ids)) == s[PrefixLength(s)..]
  {
    hide Reference, HasSuffix, WithPrefix, Suffixed, Loaded, PrefixLength, SuffixHead, WordBytes, RewrittenPrefix;
    var body := Rewritten(s);
    var a := Suffixed(body, ids);
    FittingPrefix(s, ids);
    SuffixedParts(body, ids);
    PlainType(s);
    LoadSuffixed(BLANK_FIELDS, body, ids, NeedsSuffix, MaybePrefix);
    WithPrefixLength(SuffixRead(BLANK_FIELDS, body, ids), a);
    var n := PrefixLength(s);
    assert a[n..|s|] == a[..|s|][n..] == s[n..];
  }

  lemma DeleteSuffixShape(s: seq<bv8>, ids: Fields)
    requires PrefixLength(s) <= |s| && |s| + SUFFIX_LENGTH < MAX_FILE
    requires Fits(Suffixed(Rewritten(s), ids))
    ensures SuffixDelete(Suffixed(Rewritten(s), ids)) == Return(Rewritten(s))
  {
    var g := AfterAdd(s, ids);
    assert g == WithPrefix(SuffixRead(BLANK_FIELDS, Rewritten(s), ids), Suffixed(Rewritten(s), ids));
    hide Reference, WithPrefix, HasSuffix, PrefixBytes, CarriedAddress, Suffixed, Loaded, Fresh, PrefixLength,
         AfterAdd;
    hide Sized, Payload;
    LoadAfterAdd(s, ids);
    var n := PrefixLength(s);
    if n != 0 {
      var f := PlainFields(s);
      PlainType(s);
      PrefixAfterAdd(s, ids);
      assert g == PrefixRead(SuffixRead(BLANK_FIELDS, Rewritten(s), ids), f);
      PrefixBytesDepend2(g, f);
    }
  }

  /** The prefix of a file read back and written again. */
  lemma PrefixBytesDepend2(g: Fields, f: Fields)
    requires f.prefixType == g.prefixType != ZeroPrefix
    requires f.prefixType == LmdfuPrefix ==> g.lmdfuAddress == CarriedAddress(f.lmdfuAddress)
    requires f.total - f.suffix == g.total - g.suffix && f.prefix == g.prefix
    ensures PrefixBytes(f) == PrefixBytes(g)
  {
    hide FromInt, CarriedAddress;
    if f.prefixType == LmdfuPrefix {
      CarriedTwice(f.lmdfuAddress);
      PrefixBytesDepend(f, g);
    }
  }

  /** What an add leaves is read with the identifiers it was given, each in its place, whatever
      the fields were before. */
  lemma SuffixAddCarries(s: seq<bv8>, ids: Ids, was: Fields, suffixReq: SuffixReq)
    requires !HasSuffix(s) && Fits(s) && |s| + SUFFIX_LENGTH < MAX_FILE && suffixReq != NoSuffix
    ensures SuffixAdd(s, ids).Return?
    ensures var r := Loaded(was, SuffixAdd(s, ids).value, suffixReq, MaybePrefix);
            && r.Return?
            && r.value.idVendor == ids.vid && r.value.idProduct == ids.pid
            && r.value.bcdDevice == ids.did && r.value.bcdDFU == ids.spec
  {
    hide Reference, HasSuffix, WithPrefix, Suffixed, PrefixLength, RewrittenPrefix, SuffixAdd, Loaded;
    AddSuffixShape(s, ids);
    var f := Identified(BLANK_FIELDS, ids);
    PlainType(s);
    LoadSuffixed(was, Rewritten(s), f, suffixReq, MaybePrefix);
    WithPrefixLength(SuffixRead(was, Rewritten(s), f), Suffixed(Rewritten(s), f));
  }

  /** Adding a suffix and deleting it again. A second add is refused; the file
      keeps its length and its payload; and it is the same file exactly when its
      prefix, if any, is the one the writer emits. Only a file shorter than eight
      bytes can be read as prefixed after the add. */
  lemma SuffixAddThenDelete(s: seq<bv8>, ids: Ids, again: Ids)
    requires !HasSuffix(s) && Fits(s) && |s| + SUFFIX_LENGTH < MAX_FILE
    ensures SuffixAdd(s, ids).Return?
    ensures var a := SuffixAdd(s, ids).value;
            && HasSuffix(a)
            && SuffixAdd(a, again) == Exit(EX_SOFTWARE)
            && (|s| >= LMDFU_PREFIX_LENGTH ==> Fits(a))
            && (Fits(a) ==>
                  && SuffixDelete(a).Return?
                  && |SuffixDelete(a).value| == |s|
                  && SuffixDelete(a).value[PrefixLength(s)..] == s[PrefixLength(s)..]
                  && (SuffixDelete(a).value == s <==> PrefixAsWritten(s)))
  {
    hide Reference, HasSuffix, WithPrefix, PrefixBytes, Suffixed, StoredCrc, PrefixLength, RewrittenPrefix;
    hide SuffixAdd, SuffixDelete, WordBytes;
    AddSuffixShape(s, ids);
    var f := Identified(BLANK_FIELDS, ids);
    var a := Suffixed(Rewritten(s), f);
    PlainType(s);
    PrefixAfterAdd(s, f);
    SuffixedReadBack(Rewritten(s), f);
    SixteenIsTenHex();
    SecondAddRefused(a, again);
    if Fits(a) {
      DeleteSuffixShape(s, f);
    }
    var n := PrefixLength(s);
    assert s == s[..n] + s[n..];
    assert Rewritten(s)[..n] == RewrittenPrefix(s);
  }

  lemma SecondAddRefused(a: seq<bv8>, ids: Ids)
    requires HasSuffix(a) && SuffixByte(a, 11) == 0x10 && |a| < MAX_FILE
    ensures SuffixAdd(a, ids) == Exit(EX_SOFTWARE)
  {
    hide Reference, StoredCrc, HalfWord, SuffixByte, ToInt;
    SixteenIsTenHex();
  }

  /** Deleting where there is no valid suffix exits. */
  lemma DeleteNeedsSuffix(s: seq<bv8>)
    requires !HasSuffix(s)
    ensures SuffixDelete(s) == Exit(EX_IOERR)
  {
    hide HasSuffix;
  }

  const LPC_MARK: seq<bv8> := [0x1a, 0x3f]
  const LPC_ZEROS: seq<bv8> := [0, 0, 0, 0, 0, 0, 0, 0]
  const LPC_ONES: seq<bv8> := [0xff, 0xff, 0xff, 0xff]

  /** That condition in bytes: no prefix; or an LMDFU prefix whose length field counts the
      rest of the file; or an LPC prefix that begins with 0x1a 0x3f, counts the 512-byte
      blocks of the whole file, and goes on with eight bytes 0x00 and four 0xff. */
  lemma PrefixInBytes(s: seq<bv8>)
    requires PrefixLength(s) <= |s|
    ensures PrefixAsWritten(s) <==>
      var n := (|s| + 511) / 512;
      || PrefixLength(s) == 0
      || (LmdfuSignature(s) && s[4..8] == QuadBytes(|s| - LMDFU_PREFIX_LENGTH))
      || (LpcdfuSignature(s) && s[..2] == LPC_MARK && s[2..4] == [FromInt(n), FromInt(n / 0x100)]
          && s[4..12] == LPC_ZEROS && s[12..16] == LPC_ONES)
  {
    if LmdfuSignature(s) {
      LmdfuInBytes(s);
      LmdfuIsNotLpc(s);
    } else if LpcdfuSignature(s) {
      LpcInBytes(s);
    }
  }

  lemma LmdfuIsNotLpc(s: seq<bv8>)
    requires LmdfuSignature(s)
    ensures !LpcdfuSignature(s)
  {
  }

  lemma AddressKept(lo: bv8, hi: bv8)
    ensures var addr := PrefixAddress(lo, hi) / 1024;
            (addr & 0xff) as bv8 == lo && ((addr >> 8) & 0xff) as bv8 == hi
  {
  }

  lemma LmdfuRewritten(s: seq<bv8>)
    requires LmdfuSignature(s)
    ensures RewrittenPrefix(s) == [0x01, 0x00, s[2], s[3]] + QuadBytes(|s| - LMDFU_PREFIX_LENGTH)
  {
    hide QuadBytes, PrefixAddress;
    AddressKept(s[2], s[3]);
  }

  lemma LmdfuInBytes(s: seq<bv8>)
    requires LmdfuSignature(s)
    ensures PrefixAsWritten(s) <==> s[4..8] == QuadBytes(|s| - LMDFU_PREFIX_LENGTH)
  {
    hide QuadBytes, PrefixBytes, RewrittenPrefix, WithPrefix;
    LmdfuRewritten(s);
    var head := [0x01, 0x00, s[2], s[3]];
    assert s[..8] == head + s[4..8];
    SameHead(head, s[4..8], QuadBytes(|s| - LMDFU_PREFIX_LENGTH));
  }

  lemma SameHead(head: seq<bv8>, u: seq<bv8>, v: seq<bv8>)
    ensures head + u == head + v <==> u == v
  {
    assert (head + u)[|head|..] == u && (head + v)[|head|..] == v;
  }

  lemma LpcRewritten(s: seq<bv8>, n: nat)
    requires LpcdfuSignature(s) && !LmdfuSignature(s) && n == (|s| + 511) / 512
    ensures RewrittenPrefix(s) == LPC_MARK + [FromInt(n), FromInt(n / 0x100)] + LPC_ZEROS + LPC_ONES
  {
    hide FromInt, LpcdfuMark, LmdfuMark;
  }

  lemma LpcInBytes(s: seq<bv8>)
    requires LpcdfuSignature(s) && !LmdfuSignature(s) && LPCDFU_PREFIX_LENGTH <= |s|
    ensures PrefixAsWritten(s) <==>
      var n := (|s| + 511) / 512;
      s[..2] == LPC_MARK && s[2..4] == [FromInt(n), FromInt(n / 0x100)] && s[4..12] == LPC_ZEROS
        && s[12..16] == LPC_ONES
  {
    var n := (|s| + 511) / 512;
    LpcRewritten(s, n);
    var a, b: seq<bv8>, c, d := LPC_MARK, [FromInt(n), FromInt(n / 0x100)], LPC_ZEROS, LPC_ONES;
    assert |a| == |b| == 2 && |c| == 8 && |d| == 4;
    assert PrefixAsWritten(s) <==> s[..16] == a + b + c + d;
    hide PrefixAsWritten, LpcdfuSignature, LmdfuSignature, RewrittenPrefix, FromInt, LPC_MARK, LPC_ZEROS, LPC_ONES;
    FourParts(s[..16], a, b, c, d);
    SlicesOfHead(s);
  }

  lemma SlicesOfHead(s: seq<bv8>)
    requires 16 <= |s|
    ensures s[..16][..2] == s[..2] && s[..16][2..4] == s[2..4] && s[..16][4..12] == s[4..12]
      && s[..16][12..] == s[12..16]
  {
  }

  lemma FourParts(s: seq<bv8>, a: seq<bv8>, b: seq<bv8>, c: seq<bv8>, d: seq<bv8>)
    requires |s| == 16 && |a| == |b| == 2 && |c| == 8 && |d| == 4
    ensures s == a + b + c + d <==> s[..2] == a && s[2..4] == b && s[4..12] == c && s[12..] == d
  {
    assert s == s[..2] + s[2..4] + s[4..12] + s[12..];
    var t := a + b + c + d;
    assert t[..2] == a && t[2..4] == b && t[4..12] == c && t[12..] == d;
  }

  /** An LMDFU file that counts one byte too many does not survive an added and deleted
      suffix: the length field is corrected on the way. */
  lemma LmdfuLengthCorrected(ids: Ids)
    ensures var s: seq<bv8> := [0x01, 0x00, 0, 0, 0x01, 0, 0, 0];
            && !HasSuffix(s) && Fits(s) && SuffixAdd(s, ids).Return? && Fits(SuffixAdd(s, ids).value)
            && SuffixDelete(SuffixAdd(s, ids).value).Return? && SuffixDelete(SuffixAdd(s, ids).value).value != s
  {
    var s: seq<bv8> := [0x01, 0x00, 0, 0, 0x01, 0, 0, 0];
    ShortHasNone(s);
    assert LmdfuSignature(s) && s[4..8][0] == 0x01;
    ZeroQuad();
    WrongLengthCorrected(s, ids);
  }

  lemma ZeroQuad()
    ensures QuadBytes(0)[0] == 0
  {
  }

  lemma WrongLengthCorrected(s: seq<bv8>, ids: Ids)
    requires LmdfuSignature(s) && !HasSuffix(s) && |s| + SUFFIX_LENGTH < MAX_FILE
    requires s[4..8] != QuadBytes(|s| - LMDFU_PREFIX_LENGTH)
    ensures Fits(s) && SuffixAdd(s, ids).Return? && Fits(SuffixAdd(s, ids).value)
    ensures SuffixDelete(SuffixAdd(s, ids).value).Return? && SuffixDelete(SuffixAdd(s, ids).value).value != s
  {
    hide HasSuffix, SuffixAdd, SuffixDelete, QuadBytes, PrefixAsWritten, LmdfuMark, LpcdfuMark;
    assert PrefixLength(s) == LMDFU_PREFIX_LENGTH;
    LmdfuInBytes(s);
    SuffixAddThenDelete(s, ids, ids);
  }

  lemma ShortHasNone(s: seq<bv8>)
    requires |s| < SUFFIX_LENGTH
    ensures !HasSuffix(s)
  {
  }

  /** Nor does an LPC file whose two high type bits are set, though it is recognised as one. */
  lemma LpcMarkCorrected(s: seq<bv8>, ids: Ids)
    requires LPCDFU_PREFIX_LENGTH <= |s| && |s| + SUFFIX_LENGTH < MAX_FILE && !HasSuffix(s)
    requires s[0] == 0xda && s[1] == 0x3f
    ensures PrefixLength(s) == LPCDFU_PREFIX_LENGTH && Fits(s) && SuffixAdd(s, ids).Return?
      && Fits(SuffixAdd(s, ids).value)
    ensures SuffixDelete(SuffixAdd(s, ids).value).Return? && SuffixDelete(SuffixAdd(s, ids).value).value != s
  {
    hide HasSuffix, SuffixAdd, SuffixDelete, PrefixAsWritten;
    assert PrefixLength(s) == LPCDFU_PREFIX_LENGTH;
    assert s[..2][0] == 0xda;
    PrefixInBytes(s);
    SuffixAddThenDelete(s, ids, ids);
  }

  // ----- the prefix tool undoes itself

  /** The prefix the tool writes in front of a file. */
  function NewPrefix(s: seq<bv8>, t: PrefixType, address: bv32): seq<bv8> {
    PrefixBytes(Fields(s, |s|, 0, SuffixLength(s), address, t, 0, 0, 0, 0, 0))
  }

  lemma NewPrefixIs(s: seq<bv8>, f: Fields, t: PrefixType, address: bv32)
    requires f.total == |s| && f.prefix == 0 && f.suffix == SuffixLength(s)
    ensures PrefixBytes(Directed(f, t, address)) == NewPrefix(s, t, address)
    ensures |NewPrefix(s, t, address)| == WrittenLength(t)
  {
    hide CarriedAddress, PrefixBytes;
    var g := Fields(s, |s|, 0, SuffixLength(s), address, t, 0, 0, 0, 0, 0);
    PrefixBytesDepend(Directed(f, t, address), g);
    PrefixBytesLength(g);
  }

  /** A file that starts with a prefix the writer emitted. */
  lemma NewPrefixReadBack(s: seq<bv8>, t: PrefixType, address: bv32, rest: seq<bv8>, g: Fields)
    requires t != ZeroPrefix
    ensures PrefixLength(NewPrefix(s, t, address) + rest) == WrittenLength(t)
    ensures WithPrefix(g, NewPrefix(s, t, address) + rest).prefixType == t
    ensures WithPrefix(g, NewPrefix(s, t, address) + rest).prefix == WrittenLength(t)
  {
    hide CarriedAddress, PrefixBytes, PrefixLength, WithPrefix;
    PrefixReadBack(Fields(s, |s|, 0, SuffixLength(s), address, t, 0, 0, 0, 0, 0), rest, g);
  }

  /** A prefixed file takes no second prefix. */
  lemma SecondPrefixRefused(a: seq<bv8>, t: PrefixType, address: bv32)
    requires PrefixLength(a) != 0
    ensures PrefixAdd(a, t, address) == Exit(EX_IOERR)
  {
    hide HasSuffix, PrefixLength, SuffixSignature, StoredCrc, SuffixByte, ToInt, WithPrefix;
    var f := Parsed(Fresh(BLANK_FIELDS, a), a);
    if f.Return? {
      WithPrefixLength(f.value, a);
    }
  }

  /** Adding a prefix to a file without suffix puts it in front. */
  lemma AddPrefixPlain(s: seq<bv8>, t: PrefixType, address: bv32)
    requires !HasSuffix(s) && PrefixLength(s) == 0 && t != ZeroPrefix && |s| < MAX_FILE
    ensures PrefixAdd(s, t, address) == Return(NewPrefix(s, t, address) + s)
  {
    hide HasSuffix, PrefixLength, SuffixSignature, StoredCrc, WithPrefix, NewPrefix, PrefixBytes;
    var f := WithPrefix(Parsed(Fresh(BLANK_FIELDS, s), s).value, s);
    WithPrefixLength(Parsed(Fresh(BLANK_FIELDS, s), s).value, s);
    NewPrefixIs(s, f, t, address);
    assert Payload(Directed(f, t, address)) == s;
  }

  /** Deleting the prefix of a file without suffix. */
  lemma DeletePrefixPlain(s: seq<bv8>, t: PrefixType, address: bv32)
    requires t != ZeroPrefix && |s| + LPCDFU_PREFIX_LENGTH < MAX_FILE
    requires !HasSuffix(NewPrefix(s, t, address) + s)
    ensures PrefixDelete(NewPrefix(s, t, address) + s, t) == Return(s)
  {
    hide HasSuffix, PrefixLength, SuffixSignature, StoredCrc, WithPrefix, NewPrefix, PrefixBytes;
    var a := NewPrefix(s, t, address) + s;
    NewPrefixIs(s, Fields(s, |s|, 0, SuffixLength(s), 0, t, 0, 0, 0, 0, 0), t, address);
    var g := Parsed(Fresh(BLANK_FIELDS, a), a).value;
    NewPrefixReadBack(s, t, address, s, g);
    var f := WithPrefix(g, a);
    assert Loaded(BLANK_FIELDS, a, MaybeSuffix, NeedsPrefix) == Return(f);
    assert Body(f, false) == Payload(f);
    assert Payload(f) == a[|NewPrefix(s, t, address)|..] == s;
  }

  /** What is stored with a suffix has one. */
  lemma DeletePrefixKeepsSuffix(a: seq<bv8>, t: PrefixType)
    requires HasSuffix(a)
    ensures var r := PrefixDelete(a, t); r.Return? ==> HasSuffix(r.value)
  {
    hide HasSuffix, Loaded, Suffixed, PrefixLength, PrefixBytes;
    LoadedSizes(BLANK_FIELDS, a, MaybeSuffix, NeedsPrefix);
    var r := Loaded(BLANK_FIELDS, a, MaybeSuffix, NeedsPrefix);
    if r.Return? {
      SuffixedReadBack(Body(r.value, false), r.value);
    }
  }

  /** A file with neither prefix nor suffix: deleting the added prefix gives the
      file back exactly when the prefixed file does not, by a CRC collision, end in
      a valid suffix. */
  lemma PrefixAddThenDelete(s: seq<bv8>, t: PrefixType, address: bv32, again: PrefixType)
    requires !HasSuffix(s) && PrefixLength(s) == 0 && t != ZeroPrefix
    requires |s| + LPCDFU_PREFIX_LENGTH < MAX_FILE
    ensures PrefixAdd(s, t, address).Return?
    ensures var a := PrefixAdd(s, t, address).value;
            && PrefixAdd(a, again, address) == Exit(EX_IOERR)
            && (PrefixDelete(a, t) == Return(s) <==> !HasSuffix(a))
  {
    hide HasSuffix, PrefixLength, NewPrefix, PrefixAdd, PrefixDelete;
    var a := NewPrefix(s, t, address) + s;
    AddPrefixPlain(s, t, address);
    NewPrefixReadBack(s, t, address, s, BLANK_FIELDS);
    SecondPrefixRefused(a, again, address);
    if HasSuffix(a) {
      DeletePrefixKeepsSuffix(a, t);
    } else {
      DeletePrefixPlain(s, t, address);
    }
  }

  /** What an add leaves is read with the type and the address it was given, as far as a prefix
      carries it. */
  lemma PrefixAddCarries(s: seq<bv8>, t: PrefixType, address: bv32, was: Fields)
    requires !HasSuffix(s) && PrefixLength(s) == 0 && t != ZeroPrefix
    requires |s| + LPCDFU_PREFIX_LENGTH < MAX_FILE
    ensures PrefixAdd(s, t, address).Return?
    ensures var r := Loaded(was, PrefixAdd(s, t, address).value, MaybeSuffix, NeedsPrefix);
            r.Return? ==>
              && r.value.prefixType == t && r.value.prefix == WrittenLength(t)
              && (t == LmdfuPrefix ==> r.value.lmdfuAddress == CarriedAddress(address))
  {
    hide HasSuffix, PrefixLength, PrefixAdd, WithPrefix, PrefixBytes, CarriedAddress, StoredCrc, SuffixByte, ToInt,
         SuffixSignature;
    AddPrefixPlain(s, t, address);
    var a := NewPrefix(s, t, address) + s;
    var g := Parsed(Fresh(was, a), a);
    if g.Return? {
      PrefixReadBack(Fields(s, |s|, 0, SuffixLength(s), address, t, 0, 0, 0, 0, 0), s, g.value);
    }
  }

  // ----- a file that gains a suffix by being prefixed

  /** The LMDFU prefix of a file without suffix, by its length. */
  function LmdfuBytes(n: nat, address: bv32): seq<bv8> {
    PrefixBytes(Fields([], n, 0, 0, address, LmdfuPrefix, 0, 0, 0, 0, 0))
  }

  lemma LmdfuIs(s: seq<bv8>, address: bv32)
    requires !HasSuffix(s)
    ensures NewPrefix(s, LmdfuPrefix, address) == LmdfuBytes(|s|, address)
  {
    hide HasSuffix, PrefixBytes, CarriedAddress;
    PrefixBytesDepend(Fields(s, |s|, 0, 0, address, LmdfuPrefix, 0, 0, 0, 0, 0),
                      Fields([], |s|, 0, 0, address, LmdfuPrefix, 0, 0, 0, 0, 0));
  }

  /** Two addresses whose prefixes of the same length differ in one byte. */
  lemma LmdfuDiffer(n: nat)
    ensures |LmdfuBytes(n, 0)| == |LmdfuBytes(n, 1024)| == 8
    ensures DifferInWindow(LmdfuBytes(n, 0), LmdfuBytes(n, 1024), 0) && LmdfuBytes(n, 0) != LmdfuBytes(n, 1024)
  {
    hide QuadBytes;
    var u, v := LmdfuBytes(n, 0), LmdfuBytes(n, 1024);
    assert u[2] == 0 && v[2] == 1;
    assert u[4..] == QuadBytes(n) == v[4..];
  }

  /** A suffix made for a prefixed body is none for the body alone, as long as the prefix
      moves the CRC register. */
  lemma SuffixOfPrefixed(p: seq<bv8>, u: seq<bv8>, f: Fields)
    requires Reference(INITIAL, p) != INITIAL
    ensures !HasSuffix(SuffixOfOther(p, u, f)) && |SuffixOfOther(p, u, f)| == |u| + SUFFIX_LENGTH
    ensures p + SuffixOfOther(p, u, f) == Suffixed(p + u, f)
  {
    hide Reference, WordBytes, SuffixHead, Word, StoredCrc, SuffixSignature, SuffixOfOther, Suffixed;
    var covered := u + SuffixHead(f);
    var w := Reference(INITIAL, p + covered);
    SuffixOfOtherParts(p, u, f);
    StoredCrcIs(SuffixOfOther(p, u, f), w);
    ReferenceSplit(INITIAL, p, covered);
    if Reference(INITIAL, covered) == w {
      ReferenceInjective(INITIAL, Reference(INITIAL, p), covered);
    }
  }

  lemma SuffixOfOtherParts(p: seq<bv8>, u: seq<bv8>, f: Fields)
    ensures var s := SuffixOfOther(p, u, f);
            && |s| == |u| + SUFFIX_LENGTH && s[..|s| - 4] == u + SuffixHead(f)
            && s[|s| - 4..] == WordBytes(Reference(INITIAL, p + (u + SuffixHead(f))))
            && p + s == Suffixed(p + u, f)
  {
    hide Reference, WordBytes, SuffixHead;
    var head := SuffixHead(f);
    assert p + (u + head) == (p + u) + head;
    var tail := WordBytes(Reference(INITIAL, p + (u + head)));
    assert p + ((u + head) + tail) == ((p + u) + head) + tail;
  }

  /** `u` with the suffix that belongs to `p + u`. */
  function SuffixOfOther(p: seq<bv8>, u: seq<bv8>, f: Fields): seq<bv8> {
    u + SuffixHead(f) + WordBytes(Reference(INITIAL, p + (u + SuffixHead(f))))
  }

  lemma SuffixOfOtherOpens(p: seq<bv8>, u: seq<bv8>, f: Fields)
    requires 2 <= |u| && !Marked(u[0], u[1])
    ensures PrefixLength(SuffixOfOther(p, u, f)) == 0
  {
    hide Reference, WordBytes, SuffixHead, PrefixLength, Marked;
    var s := SuffixOfOther(p, u, f);
    assert s[0] == u[0] && s[1] == u[1];
    MarkedIsPrefix(s);
  }

  /** The failing side is there, whatever the file begins with: for any body that does not
      open like a prefix, one of two addresses makes a file without suffix that has a valid one
      once it is prefixed, and is not given back. */
  lemma PrefixGainsSuffix(u: seq<bv8>, f: Fields, again: PrefixType) returns (s: seq<bv8>, address: bv32)
    requires 2 <= |u| && !Marked(u[0], u[1]) && |u| + SUFFIX_LENGTH + LPCDFU_PREFIX_LENGTH < MAX_FILE
    ensures |s| == |u| + SUFFIX_LENGTH && !HasSuffix(s) && PrefixLength(s) == 0
    ensures PrefixAdd(s, LmdfuPrefix, address).Return?
    ensures var a := PrefixAdd(s, LmdfuPrefix, address).value; HasSuffix(a) && PrefixDelete(a, LmdfuPrefix) != Return(s)
  {
    hide HasSuffix, PrefixLength, PrefixAdd, PrefixDelete, NewPrefix, Suffixed, Reference, LmdfuBytes, SuffixOfOther,
         Marked;
    var n := |u| + SUFFIX_LENGTH;
    LmdfuDiffer(n);
    BurstDetected(INITIAL, LmdfuBytes(n, 0), LmdfuBytes(n, 1024), 0);
    address := if Reference(INITIAL, LmdfuBytes(n, 0)) != INITIAL then 0 else 1024;
    var p := LmdfuBytes(n, address);
    s := SuffixOfOther(p, u, f);
    SuffixOfOtherOpens(p, u, f);
    SuffixOfPrefixed(p, u, f);
    LmdfuIs(s, address);
    AddPrefixPlain(s, LmdfuPrefix, address);
    SuffixedReadBack(p + u, f);
    PrefixAddThenDelete(s, LmdfuPrefix, address, again);
  }

  // ----- the prefix tool on a file with a suffix

  /** The fields of an unprefixed file with a suffix. */
  function SuffixFields(s: seq<bv8>): Fields
    requires HasSuffix(s)
  {
    WithSuffix(Fresh(BLANK_FIELDS, s), s)
  }

  lemma HalfWordSplit(lo: bv8, hi: bv8)
    ensures HalfWordBytes(HalfWord(lo, hi)) == [lo, hi]
  {
  }

  lemma TenHexIsSixteen(b: bv8)
    requires ToInt(b) == SUFFIX_LENGTH
    ensures b == 0x10
  {
  }

  lemma WordRoundTrip(s: seq<bv8>, w: bv32)
    requires |s| == 4 && Word(s) == w
    ensures WordBytes(w) == s
  {
    hide Word, WordBytes;
    WordOfBytes(w);
    WordInjective(s, WordBytes(w));
  }

  lemma SuffixHeadIs(s: seq<bv8>)
    requires HasSuffix(s) && SuffixLength(s) == SUFFIX_LENGTH
    ensures SuffixHead(SuffixFields(s)) == s[|s| - SUFFIX_LENGTH..|s| - 4]
  {
    hide Reference, StoredCrc, HalfWord, HalfWordBytes, ToInt;
    var h := SuffixHead(SuffixFields(s));
    HalfWordSplit(SuffixByte(s, 0), SuffixByte(s, 1));
    HalfWordSplit(SuffixByte(s, 2), SuffixByte(s, 3));
    HalfWordSplit(SuffixByte(s, 4), SuffixByte(s, 5));
    HalfWordSplit(SuffixByte(s, 6), SuffixByte(s, 7));
    TenHexIsSixteen(SuffixByte(s, 11));
  }

  /** A sixteen-byte suffix is rewritten as it was. */
  lemma SuffixRewritten(s: seq<bv8>)
    requires HasSuffix(s) && SuffixLength(s) <= |s|
    ensures Suffixed(s[..|s| - SuffixLength(s)], SuffixFields(s)) == s <==> SuffixLength(s) == SUFFIX_LENGTH
  {
    hide Reference, Word, WordBytes, SuffixFields, SuffixHead, ToInt;
    var n := SuffixLength(s);
    var r := Suffixed(s[..|s| - n], SuffixFields(s));
    SuffixedParts(s[..|s| - n], SuffixFields(s));
    if n == SUFFIX_LENGTH {
      SuffixHeadIs(s);
      assert s[..|s| - 4] == s[..|s| - n] + SuffixHead(SuffixFields(s));
      WordRoundTrip(s[|s| - 4..], Reference(INITIAL, s[..|s| - 4]));
      assert s == s[..|s| - 4] + s[|s| - 4..];
      assert r == r[..|r| - 4] + r[|r| - 4..];
    }
  }

  lemma AddPrefixSuffixed(s: seq<bv8>, t: PrefixType, address: bv32)
    requires HasSuffix(s) && SUFFIX_LENGTH <= SuffixLength(s) <= |s| < MAX_FILE
    requires PrefixLength(s) == 0 && t != ZeroPrefix
    ensures PrefixAdd(s, t, address)
         == Return(Suffixed(NewPrefix(s, t, address) + s[..|s| - SuffixLength(s)], SuffixFields(s)))
  {
    hide HasSuffix, PrefixLength, StoredCrc, WithPrefix, NewPrefix, PrefixBytes, Suffixed, HalfWord, SuffixByte,
         ToInt;
    HasSignature(s);
    hide SuffixSignature;
    var p := Parsed(Fresh(BLANK_FIELDS, s), s).value;
    var f := WithPrefix(p, s);
    WithPrefixLength(p, s);
    assert Loaded(BLANK_FIELDS, s, MaybeSuffix, NoPrefix) == Return(f);
    NewPrefixIs(s, f, t, address);
    var g := Directed(f, t, address);
    assert Payload(g) == s[..|s| - SuffixLength(s)];
    SuffixedDepends(NewPrefix(s, t, address) + Payload(g), g, SuffixFields(s));
  }

  lemma DeletePrefixSuffixed(p: seq<bv8>, body: seq<bv8>, ids: Fields, t: PrefixType)
    requires t != ZeroPrefix && Recognized(p, t)
    requires |p| + |body| + SUFFIX_LENGTH < MAX_FILE
    ensures PrefixDelete(Suffixed(p + body, ids), t) == Return(Suffixed(body, ids))
  {
    hide HasSuffix, PrefixLength, StoredCrc, WithPrefix, Suffixed, Loaded, Reference, SuffixHead, WordBytes;
    var a := Suffixed(p + body, ids);
    SuffixedParts(p + body, ids);
    assert a[..|p|] == a[..|p + body|][..|p|] == p;
    assert a == p + a[|p|..];
    LoadSuffixed(BLANK_FIELDS, p + body, ids, MaybeSuffix, NeedsPrefix);
    var r := SuffixRead(BLANK_FIELDS, p + body, ids);
    WithPrefixLength(r, a);
    var f := WithPrefix(r, a);
    assert Loaded(BLANK_FIELDS, a, MaybeSuffix, NeedsPrefix) == Return(f);
    assert Payload(f) == a[..|p + body|][|p|..] == body;
    assert Body(f, false) == body;
    SuffixedDepends(body, f, ids);
  }

  /** Whatever follows it, the prefix the tool writes is read as one. */
  ghost predicate Recognized(p: seq<bv8>, t: PrefixType) {
    && |p| == WrittenLength(t)
    && (forall rest: seq<bv8>, g: Fields ::
          WithPrefix(g, p + rest).prefixType == t && WithPrefix(g, p + rest).prefix == |p|)
    && (forall rest: seq<bv8> :: PrefixLength(p + rest) == |p|)
  }

  lemma NewPrefixRecognized(s: seq<bv8>, t: PrefixType, address: bv32)
    requires t != ZeroPrefix
    ensures Recognized(NewPrefix(s, t, address), t)
  {
    hide PrefixLength, NewPrefix, WithPrefix;
    var p := NewPrefix(s, t, address);
    NewPrefixIs(s, Fields(s, |s|, 0, SuffixLength(s), 0, t, 0, 0, 0, 0, 0), t, address);
    forall rest: seq<bv8>, g: Fields
      ensures WithPrefix(g, p + rest).prefixType == t && WithPrefix(g, p + rest).prefix == |p|
    {
      NewPrefixReadBack(s, t, address, rest, g);
    }
    forall rest: seq<bv8> ensures PrefixLength(p + rest) == |p| {
      NewPrefixReadBack(s, t, address, rest, BLANK_FIELDS);
    }
  }

  lemma SuffixedLeads(p: seq<bv8>, body: seq<bv8>, ids: Fields)
    ensures var a := Suffixed(p + body, ids); |a| >= |p| && a == p + a[|p|..]
  {
    hide Suffixed, SuffixHead, WordBytes, Reference;
    var a := Suffixed(p + body, ids);
    SuffixedParts(p + body, ids);
    assert a[..|p|] == a[..|p + body|][..|p|] == p;
  }

  /** A file with a suffix and no prefix: adding a prefix and deleting it keeps
      payload and identifiers, and gives the same file exactly when its suffix was
      sixteen bytes long. */
  lemma PrefixAddThenDeleteSuffixed(s: seq<bv8>, t: PrefixType, address: bv32, again: PrefixType)
    requires HasSuffix(s) && SUFFIX_LENGTH <= SuffixLength(s) <= |s|
    requires PrefixLength(s) == 0 && t != ZeroPrefix
    requires |s| + LPCDFU_PREFIX_LENGTH < MAX_FILE
    ensures PrefixAdd(s, t, address).Return?
    ensures var a := PrefixAdd(s, t, address).value;
            && HasSuffix(a) && PrefixLength(a) == WrittenLength(t)
            && PrefixAdd(a, again, address) == Exit(EX_IOERR)
            && PrefixDelete(a, t) == Return(Suffixed(s[..|s| - SuffixLength(s)], SuffixFields(s)))
            && (PrefixDelete(a, t) == Return(s) <==> SuffixLength(s) == SUFFIX_LENGTH)
  {
    hide HasSuffix, PrefixLength, NewPrefix, PrefixAdd, PrefixDelete, Suffixed, SuffixFields, SuffixLength,
         WithPrefix;
    hide Reference, WordBytes, SuffixHead;
    var p := NewPrefix(s, t, address);
    var body := s[..|s| - SuffixLength(s)];
    var a := Suffixed(p + body, SuffixFields(s));
    NewPrefixRecognized(s, t, address);
    AddPrefixSuffixed(s, t, address);
    SuffixedReadBack(p + body, SuffixFields(s));
    DeletePrefixSuffixed(p, body, SuffixFields(s), t);
    SuffixedLeads(p, body, SuffixFields(s));
    assert PrefixLength(a) == |p|;
    SecondPrefixRefused(a, again, address);
    SuffixRewritten(s);
  }

  // ----- the two tools disagree on the length field of an LPC prefix

  lemma SameLowBytes(a: nat, b: nat)
    requires a <= b <= a + 1
    ensures FromInt(a) == FromInt(b) <==> a == b
  {
    hide FromInt, ToInt;
    FromIntToInt(a);
    FromIntToInt(b);
  }

  lemma RoundedUp(n: nat)
    ensures (n + 511) / 512 <= (n + 527) / 512 <= (n + 511) / 512 + 1
    ensures (n + 511) / 512 == (n + 527) / 512 <==> 1 <= n % 512 <= 496
  {
  }

  /** The prefix tool counts the payload without the prefix it writes, a later
      store counts both: a suffix added to an LPC file and deleted again leaves the
      prefix bytes alone exactly when the payload length is 1 to 496 modulo 512. */
  lemma LpcPrefixSurvives(s: seq<bv8>, address: bv32)
    requires !HasSuffix(s)
    ensures var a := NewPrefix(s, LpcdfuPrefix, address) + s;
            && PrefixLength(a) == LPCDFU_PREFIX_LENGTH
            && (PrefixAsWritten(a) <==> 1 <= |s| % 512 <= 496)
  {
    hide HasSuffix, FromInt, CarriedAddress, WithPrefix, PrefixLength;
    var p := NewPrefix(s, LpcdfuPrefix, address);
    var a := p + s;
    NewPrefixReadBack(s, LpcdfuPrefix, address, s, Fresh(BLANK_FIELDS, a));
    PlainType(a);
    var m, n := (|s| + 511) / 512, (|s| + 527) / 512;
    RoundedUp(|s|);
    SameLowBytes(m, n);
    var q := RewrittenPrefix(a);
    assert a[..LPCDFU_PREFIX_LENGTH] == p;
    assert p[2] == FromInt(m) && p[3] == FromInt(m / 0x100);
    assert q[2] == FromInt(n) && q[3] == FromInt(n / 0x100);
    if m == n {
      assert p == q;
    }
  }

  /** A suffix added to a file the prefix tool made for an LPC part and deleted
      again: the same file, exactly for those payload lengths. */
  lemma LpcSuffixRoundTrip(s: seq<bv8>, address: bv32, ids: Ids)
    requires !HasSuffix(s) && PrefixLength(s) == 0 && |s| + 2 * SUFFIX_LENGTH < MAX_FILE
    requires !HasSuffix(NewPrefix(s, LpcdfuPrefix, address) + s)
    ensures PrefixAdd(s, LpcdfuPrefix, address) == Return(NewPrefix(s, LpcdfuPrefix, address) + s)
    ensures var a := NewPrefix(s, LpcdfuPrefix, address) + s;
            && Fits(a) && SuffixAdd(a, ids).Return?
            && var b := SuffixAdd(a, ids).value;
            && Fits(b) && (SuffixDelete(b) == Return(a) <==> 1 <= |s| % 512 <= 496)
  {
    hide HasSuffix, PrefixLength, NewPrefix, PrefixAdd, SuffixAdd, SuffixDelete, PrefixAsWritten;
    var a := NewPrefix(s, LpcdfuPrefix, address) + s;
    AddPrefixPlain(s, LpcdfuPrefix, address);
    NewPrefixRecognized(s, LpcdfuPrefix, address);
    LpcPrefixSurvives(s, address);
    SuffixAddThenDelete(a, ids, ids);
  }

  // ----- the programs

  /** A run of the suffix tool on a file: its new contents, or the exit status. */
  function SuffixRun(mode: Mode, ids: Ids, s: seq<bv8>): Outcome<seq<bv8>>
    requires mode == ModeAdd ==> HasSuffix(s) || Fits(s)
    requires mode == ModeDelete ==> !HasSuffix(s) || Fits(s)
  {
    if ids.spec != 0x0100 && ids.spec != 0x011a then Exit(EX_USAGE)
    else
      match mode
      case ModeAdd => SuffixAdd(s, ids)
      case ModeDelete => SuffixDelete(s)
      case ModeCheck =>
        (match Loaded(BLANK_FIELDS, s, NeedsSuffix, MaybePrefix)
         case Exit(code) => Exit(code)
         case Return(_) => Return(s))
      case ModeNone => Exit(EX_USAGE)
  }

  method SuffixTool(mode: Mode, ids: Ids, disk: OutputFile) returns (r: Outcome<()>)
    requires mode == ModeAdd ==> HasSuffix(disk.contents) || Fits(disk.contents)
    requires mode == ModeDelete ==> !HasSuffix(disk.contents) || Fits(disk.contents)
    modifies disk
    ensures match SuffixRun(mode, ids, old(disk.contents))
            case Exit(code) => r == Exit(code) && disk.contents == old(disk.contents)
            case Return(s) => r == Return(()) && disk.contents == s
  {
    hide HasSuffix, Loaded, Stored, PrefixLength;
    if ids.spec != 0x0100 && ids.spec != 0x011a {
      return Exit(EX_USAGE);
    }
    var file := new DfuFile();
    match mode
    case ModeAdd =>
      r := file.Load(disk, NoSuffix, MaybePrefix);
      if r.Exit? {
        return;
      }
      LoadedSizes(BLANK_FIELDS, disk.contents, NoSuffix, MaybePrefix);
      file.idVendor := ids.vid;
      file.idProduct := ids.pid;
      file.bcdDevice := ids.did;
      file.bcdDFU := ids.spec;
      file.Store(disk, true, file.prefix != 0);
    case ModeCheck =>
      r := file.Load(disk, NeedsSuffix, MaybePrefix);
    case ModeDelete =>
      r := file.Load(disk, NeedsSuffix, MaybePrefix);
      if r.Exit? {
        return;
      }
      LoadedSizes(BLANK_FIELDS, disk.contents, NeedsSuffix, MaybePrefix);
      file.Store(disk, false, file.prefix != 0);
    case ModeNone =>
      r := Exit(EX_USAGE);
  }

  /** A run of the prefix tool. */
  function PrefixRun(mode: Mode, t: PrefixType, address: bv32, s: seq<bv8>): Outcome<seq<bv8>> {
    match mode
    case ModeAdd => PrefixAdd(s, t, address)
    case ModeDelete => PrefixDelete(s, t)
    case ModeCheck =>
      (match Loaded(BLANK_FIELDS, s, MaybeSuffix, MaybePrefix)
       case Exit(code) => Exit(code)
       case Return(f) => if t != ZeroPrefix && f.prefixType != t then Exit(EX_IOERR) else Return(s))
    case ModeNone => Exit(EX_USAGE)
  }

  method PrefixTool(mode: Mode, t: PrefixType, address: bv32, disk: OutputFile) returns (r: Outcome<()>)
    modifies disk
    ensures match PrefixRun(mode, t, address, old(disk.contents))
            case Exit(code) => r == Exit(code) && disk.contents == old(disk.contents)
            case Return(s) => r == Return(()) && disk.contents == s
  {
    hide HasSuffix, Loaded, Stored, PrefixLength;
    var file := new DfuFile();
    match mode
    case ModeAdd =>
      if t == ZeroPrefix {
        return Exit(EX_IOERR);
      }
      r := file.Load(disk, MaybeSuffix, NoPrefix);
      if r.Exit? {
        return;
      }
      LoadedSizes(BLANK_FIELDS, disk.contents, MaybeSuffix, NoPrefix);
      file.lmdfuAddress := address;
      file.prefixType := t;
      file.Store(disk, file.suffix != 0, true);
    case ModeCheck =>
      r := file.Load(disk, MaybeSuffix, MaybePrefix);
      if r.Return? && t != ZeroPrefix && file.prefixType != t {
        return Exit(EX_IOERR);
      }
    case ModeDelete =>
      r := file.Load(disk, MaybeSuffix, NeedsPrefix);
      if r.Exit? {
        return;
      }
      LoadedSizes(BLANK_FIELDS, disk.contents, MaybeSuffix, NeedsPrefix);
      if t != ZeroPrefix && file.prefixType != t {
        return Exit(EX_IOERR);
      }
      file.Store(disk, file.suffix != 0, false);
    case ModeNone =>
      r := Exit(EX_USAGE);
  }

  // ----- what the programs accept

  /** Short enough to be read, and with a length field that fits if there is a suffix. */
  predicate Readable(s: seq<bv8>) {
    |s| < 0x8000_0000 && (HasSuffix(s) ==> 16 <= SuffixLength(s) <= |s|)
  }

  predicate HasPrefixOf(s: seq<bv8>, t: PrefixType) {
    match t
    case ZeroPrefix => true
    case LmdfuPrefix => LmdfuSignature(s)
    case LpcdfuPrefix => LpcdfuSignature(s)
  }

  lemma LoadAccepts(s: seq<bv8>, suffixReq: SuffixReq, prefixReq: PrefixReq)
    ensures Loaded(BLANK_FIELDS, s, suffixReq, prefixReq).Return? <==>
      && Readable(s)
      && (suffixReq == NoSuffix ==> !HasSuffix(s)) && (suffixReq == NeedsSuffix ==> HasSuffix(s))
      && (prefixReq == NoPrefix ==> PrefixLength(s) == 0)
      && (prefixReq == NeedsPrefix ==> PrefixLength(s) != 0 && Fits(s))
  {
    hide HasSuffix, PrefixLength, StoredCrc, WithPrefix, SuffixByte, ToInt, SuffixSignature;
    HasSignature(s);
    var r := Parsed(Fresh(BLANK_FIELDS, s), s);
    if r.Return? {
      WithPrefixLength(r.value, s);
    }
  }

  lemma TypeFound(s: seq<bv8>, suffixReq: SuffixReq, prefixReq: PrefixReq, t: PrefixType)
    requires Loaded(BLANK_FIELDS, s, suffixReq, prefixReq).Return?
    ensures t == ZeroPrefix || Loaded(BLANK_FIELDS, s, suffixReq, prefixReq).value.prefixType == t
       <==> HasPrefixOf(s, t)
  {
    hide HasSuffix, StoredCrc, SuffixByte, ToInt, SuffixSignature, PrefixAddress;
    MarksDiffer();
    hide LmdfuMark, LpcdfuMark;
  }

  lemma MarksDiffer()
    ensures forall b0, b1 :: LmdfuMark(b0, b1) ==> !LpcdfuMark(b0, b1)
  {
  }

  /** When the suffix tool succeeds, and that a check leaves the file as it is. */
  lemma SuffixToolAccepts(s: seq<bv8>, ids: Ids)
    requires Fits(s)
    ensures !(ids.spec in {0x0100, 0x011a}) ==> forall mode :: SuffixRun(mode, ids, s) == Exit(64)
    ensures ids.spec in {0x0100, 0x011a} ==>
              && (SuffixRun(ModeAdd, ids, s).Return? <==> Readable(s) && !HasSuffix(s))
              && (SuffixRun(ModeDelete, ids, s).Return? <==> Readable(s) && HasSuffix(s))
              && (SuffixRun(ModeCheck, ids, s) == Return(s) <==> Readable(s) && HasSuffix(s))
              && SuffixRun(ModeNone, ids, s) == Exit(64)
    ensures ids.spec in {0x0100, 0x011a} ==>
              && (var r := SuffixRun(ModeAdd, ids, s);
                  r.Exit? ==> r.code == if Readable(s) then 70 else 74)
              && (var r := SuffixRun(ModeDelete, ids, s); r.Exit? ==> r.code == 74)
              && (var r := SuffixRun(ModeCheck, ids, s); r.Exit? ==> r.code == 74)
  {
    hide HasSuffix, Loaded, Readable, Stored;
    LoadExits(s, NoSuffix, MaybePrefix);
    LoadExits(s, NeedsSuffix, MaybePrefix);
    LoadAccepts(s, NoSuffix, MaybePrefix);
    LoadAccepts(s, NeedsSuffix, MaybePrefix);
  }

  /** When the prefix tool succeeds, and that a check leaves the file as it is. */
  lemma PrefixToolAccepts(s: seq<bv8>, t: PrefixType, address: bv32)
    ensures PrefixRun(ModeAdd, t, address, s).Return? <==> Readable(s) && t != ZeroPrefix && PrefixLength(s) == 0
    ensures PrefixRun(ModeDelete, t, address, s).Return? <==>
              Readable(s) && HasPrefixOf(s, t) && PrefixLength(s) != 0 && Fits(s)
    ensures PrefixRun(ModeCheck, t, address, s) == if Readable(s) && HasPrefixOf(s, t) then Return(s) else Exit(74)
    ensures PrefixRun(ModeNone, t, address, s) == Exit(64)
    ensures forall mode :: mode in {ModeAdd, ModeDelete} ==>
              var r := PrefixRun(mode, t, address, s); r.Exit? ==> r.code == 74
  {
    hide HasSuffix, Loaded, Readable, Stored, HasPrefixOf, PrefixLength;
    LoadAccepts(s, MaybeSuffix, NoPrefix);
    LoadAccepts(s, MaybeSuffix, NeedsPrefix);
    LoadAccepts(s, MaybeSuffix, MaybePrefix);
    if Loaded(BLANK_FIELDS, s, MaybeSuffix, NeedsPrefix).Return? {
      TypeFound(s, MaybeSuffix, NeedsPrefix, t);
    }
    if Loaded(BLANK_FIELDS, s, MaybeSuffix, MaybePrefix).Return? {
      TypeFound(s, MaybeSuffix, MaybePrefix, t);
    }
    LoadExits(s, MaybeSuffix, NoPrefix);
    LoadExits(s, MaybeSuffix, NeedsPrefix);
    LoadExits(s, MaybeSuffix, MaybePrefix);
  }

  /** Only a suffix that must not be there has a status of its own. */
  lemma LoadExits(s: seq<bv8>, suffixReq: SuffixReq, prefixReq: PrefixReq)
    ensures var r := Loaded(BLANK_FIELDS, s, suffixReq, prefixReq);
            r.Exit? ==> r.code == if suffixReq == NoSuffix && Readable(s) && HasSuffix(s) then 70 else 74
  {
    hide HasSuffix, PrefixLength, StoredCrc, SuffixByte, ToInt, SuffixSignature, WithPrefix;
    HasSignature(s);
  }

  /** A file without suffix is for any device: its identifiers are all ones, its version 0. */
  lemma PlainIdentifiers(s: seq<bv8>, was: Fields, prefixReq: PrefixReq)
    requires !HasSuffix(s)
    ensures var r := Loaded(was, s, MaybeSuffix, prefixReq);
            r.Return? ==>
              && r.value.suffix == 0 && r.value.bcdDFU == 0
              && r.value.idVendor == r.value.idProduct == r.value.bcdDevice == 0xffff
  {
    hide HasSuffix, PrefixLength, StoredCrc, SuffixByte, ToInt, SuffixSignature, WithPrefix;
    var r := Parsed(Fresh(was, s), s);
    if r.Return? {
      WithPrefixLength(r.value, s);
    }
  }
}
