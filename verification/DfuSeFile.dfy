/** From the bytes of a file to the memory of a DfuSe device. */
module DfuSeFiles {
  import opened Bytes
  import opened Crc32
  import opened DfuFiles
  import opened FileRoundTrips
  import opened Pages
  import opened DfuMachine
  import opened Outcomes
  import opened FlashMemory
  import opened Programming
  import opened Containers
  import opened Overlays
  import opened DfuSeClient

  /** Downloads what lies between prefix and suffix of a loaded file. */
  method DnloadLoaded(c: Client, file: DfuFile, altName: string, altsetting: nat, xferSize: nat)
    returns (r: Outcome<int>)
    requires c.Started(altName) && c.dev.m.state == DfuIdle && c.dfuseAddress < SPACE
    requires Sized(file.View())
    requires c.dfuseAddress == 0 ==> WalkContainer(Payload(file.View())).ending != Negative
    requires AllRoomy(c.dev.layout, c.Wanted(Payload(file.View()), altsetting), xferSize, !c.dfuseMassErase)
    requires c.dfuseLeave ==> Leaves(c.dev.m)
    modifies c.dev, c`memLayout, c`lastErasedPage, c`dfuseAddress
    ensures c.dev.m.legal == old(c.dev.m.legal)
    ensures !c.dfuseMassErase && !c.dfuseUnprotect ==>
      FileConfined(c.dev.layout, old(c.dev.Memory()), c.dev.Memory(), old(c.Wanted(Payload(file.View()), altsetting)))
    ensures r.Return? ==>
      var payload := Payload(file.View());
      && c.Linked() && c.Ended(old(c.StartOf(payload)))
      && c.Downloaded(old(c.Before()), old(c.Wanted(payload, altsetting)), xferSize)
      && (file.bcdDFU == 0x11a <==> old(c.dfuseAddress) == 0)
      && r.value == (if old(c.dfuseAddress) != 0 then |payload| else 0)
    ensures r.Return? ==>
      var wanted, last := old(c.Wanted(Payload(file.View()), altsetting)), old(c.lastErasedPage);
      Suited(c.dev.layout, wanted, xferSize, !c.dfuseMassErase, last) ==>
        (Overlaid(c.dev.layout, old(c.Before()).flash, c.dev.Memory(), wanted, !c.dfuseMassErase) <==>
           Harmless(c.dev.layout, wanted, !c.dfuseMassErase, last))
    ensures Obliging(old(c.dev.m)) && c.Permitted()
            && old(c.MayDownload(Payload(file.View()), file.bcdDFU, altsetting, xferSize)) ==>
      r.Return?
  {
    hide Replay, WellFormed, Sound, Sized, WalkContainer, AllRoomy, AllowedAll, Overlaid, Suited, Harmless, Obliging,
         Client.Downloaded, Client.Permitted, Client.MayDownload, Client.Wanted, Client.Linked, Leaves,
         FileConfined;
    r := c.DoDnload(altName, Payload(file.View()), file.bcdDFU, altsetting, xferSize);
  }

  /** Loads a file and downloads it: the exit of the load with the device untouched, or the
      download of what the load found. */
  method DnloadFile(c: Client, disk: OutputFile, file: DfuFile, suffixReq: SuffixReq, prefixReq: PrefixReq,
                    altName: string, altsetting: nat, xferSize: nat)
    returns (r: Outcome<int>)
    requires c.Started(altName) && c.dev.m.state == DfuIdle && c.dfuseAddress < SPACE
    requires var l := Loaded(file.View(), disk.contents, suffixReq, prefixReq);
             l.Return? ==>
               && Sized(l.value)
               && (c.dfuseAddress == 0 ==> WalkContainer(Payload(l.value)).ending != Negative)
               && AllRoomy(c.dev.layout, c.Wanted(Payload(l.value), altsetting), xferSize, !c.dfuseMassErase)
    requires c.dfuseLeave ==> Leaves(c.dev.m)
    modifies file, c.dev, c`memLayout, c`lastErasedPage, c`dfuseAddress
    ensures c.dev.m.legal == old(c.dev.m.legal)
    ensures match old(Loaded(file.View(), disk.contents, suffixReq, prefixReq))
            case Exit(code) => r == Exit(code) && c.dev.m == old(c.dev.m)
            case Return(g) =>
              var payload := Payload(g);
              var wanted, last := old(c.Wanted(payload, altsetting)), old(c.lastErasedPage);
              && (!c.dfuseMassErase && !c.dfuseUnprotect ==>
                    FileConfined(c.dev.layout, old(c.dev.Memory()), c.dev.Memory(), wanted))
              && (r.Return? ==>
                    && c.Linked() && c.Ended(old(c.StartOf(payload)))
                    && c.Downloaded(old(c.Before()), wanted, xferSize)
                    && (g.bcdDFU == 0x11a <==> old(c.dfuseAddress) == 0)
                    && r.value == (if old(c.dfuseAddress) != 0 then |payload| else 0)
                    && (Suited(c.dev.layout, wanted, xferSize, !c.dfuseMassErase, last) ==>
                          (Overlaid(c.dev.layout, old(c.Before()).flash, c.dev.Memory(), wanted, !c.dfuseMassErase) <==>
                             Harmless(c.dev.layout, wanted, !c.dfuseMassErase, last))))
              && (Obliging(old(c.dev.m)) && c.Permitted()
                  && old(c.MayDownload(payload, g.bcdDFU, altsetting, xferSize)) ==>
                    r.Return?)
  {
    hide Loaded, Replay, WellFormed, Sound, Sized, WalkContainer, AllRoomy, AllowedAll, Overlaid, Suited, Harmless,
         Obliging, Client.Downloaded, Client.Permitted, Client.MayDownload, Client.Linked, Leaves, FileConfined, ForAlt;
    var loaded := file.Load(disk, suffixReq, prefixReq);
    if loaded.Exit? {
      return Exit(loaded.code);
    }
    r := DnloadLoaded(c, file, altName, altsetting, xferSize);
  }

  // ----- a container in a file

  /** A written container does not open like a prefix. */
  lemma ContainerUnmarked(f: Fields, images: seq<Image>, size: nat)
    requires Sized(f) && Payload(f) == WriteContainer(images, size)
    ensures !Marked(Opening(f)[0], Opening(f)[1])
  {
    hide WriteImages, QuadBytes, FromInt, HalfWordBytes, Sized;
    assert Payload(f)[0] == 0x44;
    assert Opening(f)[0] == Payload(f)[0];
  }

  /** A container stored with a suffix comes back from a load, and is read as its elements. */
  lemma ContainerLoaded(was: Fields, f: Fields, images: seq<Image>, size: nat, suffixReq: SuffixReq)
    requires Sized(f) && Payload(f) == WriteContainer(images, size) && |Stored(f, true, false)| < MAX_FILE
    requires |images| < 256 && (forall k :: 0 <= k < |images| ==> ValidImage(images[k])) && AllElements(images) != []
    requires suffixReq != NoSuffix
    ensures var r := Loaded(was, Stored(f, true, false), suffixReq, MaybePrefix);
            && r.Return? && Sized(r.value) && Payload(r.value) == Payload(f) && r.value.bcdDFU == f.bcdDFU
    ensures WalkContainer(Payload(f)) == Walk(AllElements(images), [], Complete)
  {
    hide Loaded, Stored, Marked, Opening, WriteContainer, WalkContainer, ValidImage, Sized;
    ContainerUnmarked(f, images, size);
    StoreThenLoadPlain(was, f, suffixReq);
    ContainerReadBack(images, size, []);
    assert WriteContainer(images, size) + [] == WriteContainer(images, size);
  }

  /** From file bytes to flash: a container stored as a DfuSe file is loaded and downloaded. What
      the device holds afterwards is the overlay of the elements for this alternate setting,
      exactly when none of them harms another; and on an obliging device that accepts them it
      gets there. */
  method DnloadStored(c: Client, disk: OutputFile, file: DfuFile, suffixReq: SuffixReq, altName: string,
                      altsetting: nat,
                      xferSize: nat, ghost f: Fields, ghost images: seq<Image>, ghost size: nat)
    returns (r: Outcome<int>)
    requires c.Started(altName) && c.dev.m.state == DfuIdle && c.dfuseAddress == 0 && suffixReq != NoSuffix
    requires Sized(f) && Payload(f) == WriteContainer(images, size) && f.bcdDFU == 0x11a
    requires disk.contents == Stored(f, true, false) && |disk.contents| < MAX_FILE
    requires |images| < 256 && (forall k :: 0 <= k < |images| ==> ValidImage(images[k])) && AllElements(images) != []
    requires AllRoomy(c.dev.layout, ForAlt(AllElements(images), altsetting), xferSize, !c.dfuseMassErase)
    requires c.dfuseLeave ==> Leaves(c.dev.m)
    modifies file, c.dev, c`memLayout, c`lastErasedPage, c`dfuseAddress
    ensures c.dev.m.legal == old(c.dev.m.legal)
    ensures r.Return? ==>
      var wanted, last := ForAlt(AllElements(images), altsetting), old(c.lastErasedPage);
      && r.value == 0 && c.Linked() && c.Ended(AllElements(images)[0].address)
      && (Suited(c.dev.layout, wanted, xferSize, !c.dfuseMassErase, last) ==>
            (Overlaid(c.dev.layout, old(c.Before()).flash, c.dev.Memory(), wanted, !c.dfuseMassErase) <==>
               Harmless(c.dev.layout, wanted, !c.dfuseMassErase, last)))
    ensures Obliging(old(c.dev.m)) && c.Permitted()
            && AllowedAll(c.dev.layout, old(c.Before()), ForAlt(AllElements(images), altsetting), xferSize,
                          !c.dfuseMassErase) ==>
      r.Return?
  {
    ContainerLoaded(file.View(), f, images, size, suffixReq);
    assert 0 < xferSize;
    hide Loaded, Stored, Replay, WellFormed, Sound, Sized, WalkContainer, AllRoomy, AllowedAll, Overlaid, Suited,
         Harmless,
         Obliging, Client.Downloaded, Client.Permitted, Client.Linked, Leaves, FileConfined, ValidImage, ForAlt;
    r := DnloadFile(c, disk, file, suffixReq, MaybePrefix, altName, altsetting, xferSize);
  }
}
