/** From a stored DFU file to the device. */
module FileDownloads {
  import opened Crc32
  import opened DfuFiles
  import opened DfuMachine
  import opened Downloads
  import opened FileRoundTrips
  import opened Outcomes
  import opened Recovery

  /** From file to device: a stored file, with prefix or without and whatever it opens like, is
      loaded and sent to a device at rest without faults, and arrives as what was stored in
      front of its suffix. */
  lemma StoredFileArrives(was: Fields, f: Fields, writePrefix: bool, suffixReq: SuffixReq, m: Machine, size: nat)
    requires Sized(f) && Body(f, writePrefix) != [] && |Stored(f, true, writePrefix)| < MAX_FILE
    requires suffixReq != NoSuffix && 0 < size < WRAP
    requires m.state in {DfuIdle, DnloadIdle, UploadIdle, Error} && Conforming(m) && FaultFree(m.script)
    ensures var r := Loaded(was, Stored(f, true, writePrefix), suffixReq, MaybePrefix);
            && r.Return? && 0 <= r.value.suffix <= r.value.total == |r.value.firmware|
            && Recover(m).GoOn? && Recover(m).m.legal == m.legal
            && var t := Transmit(Recover(m).m, r.value.firmware[..r.value.total - r.value.suffix], 0, 0, size);
               && t.r == Return(|Body(f, writePrefix)|)
               && t.m.installed.Installed? && Joined(t.m.installed.blocks) == Body(f, writePrefix)
  {
    hide Loaded, Transmit, Joined, FaultFree, PrefixBytes, Suffixed, Sized, Recover, Body;
    LoadedBody(was, f, Body(f, writePrefix), suffixReq);
    RecoverReady(m);
    RecoverBounded(m);
    SentWhole(Recover(m).m, Body(f, writePrefix), size);
  }

  lemma SentWhole(m: Machine, data: seq<bv8>, size: nat)
    requires data != [] && Conforming(m) && FaultFree(m.script) && m.state == DfuIdle && 0 < size < WRAP
    ensures var t := Transmit(m, data, 0, 0, size);
            t.r == Return(|data|) && t.m.installed.Installed? && Joined(t.m.installed.blocks) == data
  {
    hide Transmit, Chunks, Joined, Boundaries, Dnloads, FaultFree;
    TransmitComplete(m, data, 0, 0, size);
    ChunksJoin(data, 0, 0, size);
    assert data[0..] == data;
    var c := Chunks(data, 0, 0, size);
    assert [] + c == c;
  }

  /** What is sent of a suffixed body is the body. */
  lemma LoadedBody(was: Fields, f: Fields, body: seq<bv8>, suffixReq: SuffixReq)
    requires |Suffixed(body, f)| < MAX_FILE && suffixReq != NoSuffix
    ensures var r := Loaded(was, Suffixed(body, f), suffixReq, MaybePrefix);
            && r.Return? && 0 <= r.value.suffix <= r.value.total == |r.value.firmware|
            && r.value.firmware[..r.value.total - r.value.suffix] == body
  {
    hide Reference, Loaded, SuffixHead, WordBytes, WithPrefix, Suffixed;
    SuffixedParts(body, f);
    LoadSuffixed(was, body, f, suffixReq, MaybePrefix);
  }
}
