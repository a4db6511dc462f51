/** From the host's image to the running application: what main decides after a download and after a
    change of flash contents. */
module FirmwareUpdate {
  import opened Layout
  import opened Bytes
  import opened FlashControl
  import opened DfuMachine
  import opened Invariant
  import opened ManifestSteps
  import opened Protocol
  import opened Delivery
  import opened Bootloader
  import opened Header
  import opened UploadStream

  // ---------- The installed image ----------

  lemma InstalledWord(base: seq<byte>, start: nat, stream: seq<byte>, at: nat)
    requires start + PageEnd(|stream|) <= |base| && at + 4 <= |stream|
    ensures Word(Install(base, start, stream), start + at) == Word(stream, at)
  {
    var mem := Install(base, start, stream);
    assert mem[start + at..start + at + 4] == stream[at..at + 4];
  }

  lemma InstalledPart(base: seq<byte>, start: nat, stream: seq<byte>, n: nat)
    requires start + PageEnd(|stream|) <= |base| && n <= |stream|
    ensures Install(base, start, stream)[start..start + n] == stream[..n]
  {
  }

  /** What main finds: the magic, and the image its header delimits. */
  lemma InstalledHeader(base: seq<byte>, stream: seq<byte>)
    requires |base| == FLASH_END && APP_START + PageEnd(|stream|) <= FLASH_END
    requires |stream| >= MINIMUM_SIZE && ParseInfo(stream).length <= |stream|
    ensures var mem, n := Install(base, APP_START, stream), ParseInfo(stream).length;
      && (HasImage(mem) <==> ParseInfo(stream).magic == BOOTLOADER_MAGIC)
      && ImageAt(mem, APP_START) == if CHECKSUM_END <= n then Some(stream[..n]) else None
  {
    var n := ParseInfo(stream).length;
    InstalledWord(base, APP_START, stream, INFO_OFFSET);
    InstalledWord(base, APP_START, stream, INFO_OFFSET + LENGTH_FIELD);
    InstalledPart(base, APP_START, stream, n);
  }

  /** An application image that its own checksum vouches for. */
  predicate Bootable(stream: seq<byte>) {
    && |stream| >= MINIMUM_SIZE
    && ParseInfo(stream).magic == BOOTLOADER_MAGIC
    && CHECKSUM_END <= ParseInfo(stream).length <= |stream|
    && Intact(stream[..ParseInfo(stream).length])
  }

  lemma InstalledSelf(base: seq<byte>, stream: seq<byte>)
    requires |base| == FLASH_END && APP_START + PageEnd(|stream|) <= FLASH_END
    ensures SelfReadable(Install(base, APP_START, stream)) == SelfReadable(base)
  {
    SelfReadableAlike(base, Install(base, APP_START, stream));
  }

  /** Main starts an installed application exactly when it is bootable, nobody asked for DFU, and main
      can read its own image; it leaves memory exactly when it cannot, or when the application's length
      falls short of the checksum. */
  lemma InstalledBoots(base: seq<byte>, stream: seq<byte>, magicReceived: bool)
    requires |base| == FLASH_END && APP_START + PageEnd(|stream|) <= FLASH_END
    requires |stream| >= MINIMUM_SIZE && ParseInfo(stream).magic == BOOTLOADER_MAGIC && ParseInfo(stream).length <= |stream|
    ensures var outcome := Decide(Install(base, APP_START, stream), magicReceived);
      && (outcome == JumpToApp <==> SelfReadable(base) && Bootable(stream) && !magicReceived)
      && (outcome == ReadFault <==> !SelfReadable(base) || ParseInfo(stream).length < CHECKSUM_END)
  {
    InstalledSelf(base, stream);
    InstalledHeader(base, stream);
    JumpsIffIntact(Install(base, APP_START, stream), magicReceived);
  }

  /** Main can read an installed bootloader image exactly when its length reaches past the checksum. */
  lemma InstalledBootloaderReadable(base: seq<byte>, stream: seq<byte>)
    requires |base| == FLASH_END && BOOTLOADER_START + PageEnd(|stream|) <= FLASH_END
    requires |stream| >= MINIMUM_SIZE && ParseInfo(stream).length <= |stream|
    ensures SelfReadable(Install(base, BOOTLOADER_START, stream)) <==> ParseInfo(stream).length >= CHECKSUM_END
  {
    InstalledWord(base, BOOTLOADER_START, stream, INFO_OFFSET + LENGTH_FIELD);
    ImageOfLength(Install(base, BOOTLOADER_START, stream), BOOTLOADER_START, ParseInfo(stream).length);
  }

  // ---------- Until the next manifest ----------

  /** No manifest runs in these events. */
  ghost predicate WithoutManifest(drv: Driver, m: Machine, events: seq<Event>)
    requires Fitting(m) && drv.Sane()
  {
    events != [] ==>
      (var prefix := events[..|events| - 1];
       WithoutManifest(drv, m, prefix) && !(Run(drv, m, prefix).state == Manifest && events[|events| - 1] == Poll))
  }

  lemma {:induction false} CommittedStays(drv: Driver, m: Machine, events: seq<Event>)
    requires drv.Honest() && Inv(m) && WithoutManifest(drv, m, events)
    ensures Run(drv, m, events).log.committed == m.log.committed
  {
    if events != [] {
      var prefix := events[..|events| - 1];
      CommittedStays(drv, m, prefix);
      RunKeeps(drv, m, prefix);
      CommittedByManifest(drv, Run(drv, m, prefix), events[|events| - 1]);
    }
  }

  /** On any hardware, after any history: once a manifest has succeeded and the engine later detaches
      without another one, whatever else it was asked for in between, flash holds the image in its
      region and nothing else has changed since the session began. */
  lemma DetachKeepsImage(drv: Driver, m: Machine, events: seq<Event>)
    requires drv.Honest() && Inv(m) && m.state == Manifest && OnPoll(drv, m).state != Error
    requires WithoutManifest(drv, OnPoll(drv, m), events) && Run(drv, OnPoll(drv, m), events).state == Detach
    ensures var start := ParseInfo(m.log.stream).startAddress;
      && start + PageEnd(|m.log.stream|) <= |m.log.base| == FLASH_END
      && |m.log.stream| >= MINIMUM_SIZE && |m.log.stream| >= ParseInfo(m.log.stream).length && Acceptable(ParseInfo(m.log.stream))
      && Run(drv, OnPoll(drv, m), events).flash.mem == Install(m.log.base, start, m.log.stream)
  {
    var n := OnPoll(drv, m);
    PollKeeps(drv, m);
    ManifestDelivers(drv, m);
    CommittedStays(drv, n, events);
    RunKeeps(drv, n, events);
    ManifestOnlyWhole(m);
  }

  /** For an application: the reset starts it if and only if it is bootable, nobody asked for DFU, and
      main can read its own image; and it leaves memory if and only if it cannot, or the application's
      length falls short of its checksum. */
  lemma DetachBootsImage(drv: Driver, m: Machine, events: seq<Event>, magicReceived: bool)
    requires drv.Honest() && Inv(m) && m.state == Manifest && OnPoll(drv, m).state != Error
    requires ParseInfo(m.log.stream).startAddress == APP_START
    requires WithoutManifest(drv, OnPoll(drv, m), events) && Run(drv, OnPoll(drv, m), events).state == Detach
    ensures |m.log.base| == FLASH_END
    ensures var outcome := Decide(Run(drv, OnPoll(drv, m), events).flash.mem, magicReceived);
      && (outcome == JumpToApp <==> SelfReadable(m.log.base) && Bootable(m.log.stream) && !magicReceived)
      && (outcome == ReadFault <==> !SelfReadable(m.log.base) || ParseInfo(m.log.stream).length < CHECKSUM_END)
  {
    DetachKeepsImage(drv, m, events);
    InstalledBoots(m.log.base, m.log.stream, magicReceived);
  }

  /** For a bootloader: every later reset leaves memory before anything else if the image's length falls
      short of its checksum, and only then can main not read itself. */
  lemma DetachBootsBootloader(drv: Driver, m: Machine, events: seq<Event>, magicReceived: bool)
    requires drv.Honest() && Inv(m) && m.state == Manifest && OnPoll(drv, m).state != Error
    requires ParseInfo(m.log.stream).startAddress == BOOTLOADER_START
    requires WithoutManifest(drv, OnPoll(drv, m), events) && Run(drv, OnPoll(drv, m), events).state == Detach
    ensures var mem := Run(drv, OnPoll(drv, m), events).flash.mem;
      && (SelfReadable(mem) <==> ParseInfo(m.log.stream).length >= CHECKSUM_END)
      && (ParseInfo(m.log.stream).length < CHECKSUM_END ==> Decide(mem, magicReceived) == ReadFault)
  {
    DetachKeepsImage(drv, m, events);
    InstalledBootloaderReadable(m.log.base, m.log.stream);
  }

  // ---------- From host to application ----------

  /** What main does with a bootable application that is in place. */
  function WithApp(mem: seq<byte>, magicReceived: bool): Outcome
    requires |mem| == FLASH_END
  {
    if !SelfReadable(mem) then ReadFault else if magicReceived then EnterDfu else JumpToApp
  }

  /** A fault-free download of a bootable application, then a detach request: main starts it, unless
      it is asked for DFU or cannot read its own image. */
  lemma DownloadedAppStarts(
    drv: Driver, m: Machine, image: seq<byte>, events: seq<Event>, wLength: uint16, accepted: bool, magicReceived: bool)
    requires Healthy(drv) && Inv(m) && m.state == Idle && AllNominal(m.flash.script)
    requires Installable(image) && ParseInfo(image).startAddress == APP_START && Bootable(image)
    requires FaultFree(drv, m, image, events) && Run(drv, m, events).state == Idle && LeftOver(image, events) == []
    ensures var n := OnSetup(Run(drv, m, events), RequestDetach, wLength, accepted);
      n.state == Detach && Decide(n.flash.mem, magicReceived) == WithApp(m.flash.mem, magicReceived)
  {
    DownloadDelivers(drv, m, image, events);
    InstalledBoots(m.flash.mem, image, magicReceived);
  }

  // ---------- What the decision depends on ----------

  /** The decision looks at the image, at whether main can read its own, and at nothing else. */
  lemma OnlyImageMatters(mem: seq<byte>, other: seq<byte>, image: seq<byte>, magicReceived: bool)
    requires |mem| == |other| == FLASH_END && ImageAt(mem, APP_START) == Some(image)
    requires other[APP_START..APP_START + |image|] == image && SelfReadable(other) == SelfReadable(mem)
    ensures Decide(other, magicReceived) == Decide(mem, magicReceived)
  {
    SameImage(mem, other, image);
  }

  lemma SameImage(mem: seq<byte>, other: seq<byte>, image: seq<byte>)
    requires |mem| == |other| == FLASH_END && ImageAt(mem, APP_START) == Some(image)
    requires other[APP_START..APP_START + |image|] == image
    ensures ImageAt(other, APP_START) == Some(image) && HasImage(other) == HasImage(mem)
    ensures StoredChecksum(other, APP_START) == StoredChecksum(mem, APP_START)
  {
    SameWord(mem, other, APP_START, |image|, INFO_OFFSET);
    SameWord(mem, other, APP_START, |image|, INFO_OFFSET + LENGTH_FIELD);
    SameWord(mem, other, APP_START, |image|, CHECKSUM_OFFSET);
  }

  lemma SameWord(mem: seq<byte>, other: seq<byte>, start: nat, n: nat, at: nat)
    requires start + n <= |mem| == |other| && at + 4 <= n && mem[start..start + n] == other[start..start + n]
    ensures Word(mem, start + at) == Word(other, start + at)
  {
    WordOfSlice(mem, start, start + n, at);
    WordOfSlice(other, start, start + n, at);
  }

  /** A change inside the image, no longer than four bytes and clear of the length and checksum fields,
      keeps the application from being started. */
  lemma BurstKeepsAppFromStarting(mem: seq<byte>, other: seq<byte>, image: seq<byte>, p: nat, magicReceived: bool)
    requires |mem| == |other| == FLASH_END && ImageAt(mem, APP_START) == Some(image) && p + 4 <= |image|
    requires p + 4 <= INFO_OFFSET + LENGTH_FIELD || CHECKSUM_END <= p
    requires other != mem && SameOutside(mem, other, APP_START + p, APP_START + p + 4)
    requires Decide(mem, magicReceived) == JumpToApp
    ensures Decide(other, magicReceived) == EnterDfu
  {
    JumpsIffIntact(mem, magicReceived);
    BurstRefused(mem, other, image, p, magicReceived);
  }

  lemma BurstRefused(mem: seq<byte>, other: seq<byte>, image: seq<byte>, p: nat, magicReceived: bool)
    requires |mem| == |other| == FLASH_END && ImageAt(mem, APP_START) == Some(image) && p + 4 <= |image|
    requires p + 4 <= INFO_OFFSET + LENGTH_FIELD || CHECKSUM_END <= p
    requires other != mem && SameOutside(mem, other, APP_START + p, APP_START + p + 4)
    requires SelfReadable(mem) && Intact(image)
    ensures Decide(other, magicReceived) == EnterDfu
  {
    var changed := other[APP_START..APP_START + |image|];
    SelfReadableAlike(mem, other);
    BurstInImage(mem, other, image, p, changed);
    BurstBreaks(image, changed, p);
    NotIntactNotStarted(other, changed, magicReceived);
  }

  lemma BurstBreaks(image: seq<byte>, changed: seq<byte>, p: nat)
    requires Intact(image) && |changed| == |image| && changed != image && SameOutside(image, changed, p, p + 4)
    requires p + 4 <= CHECKSUM_OFFSET || CHECKSUM_END <= p
    requires Word(changed, CHECKSUM_OFFSET) == Word(image, CHECKSUM_OFFSET)
    ensures !Intact(changed)
  {
    BurstChangesCrc(image, changed, p);
  }

  lemma NotIntactNotStarted(mem: seq<byte>, image: seq<byte>, magicReceived: bool)
    requires |mem| == FLASH_END && SelfReadable(mem) && ImageAt(mem, APP_START) == Some(image) && !Intact(image)
    ensures Decide(mem, magicReceived) == EnterDfu
  {
    JumpsIffIntact(mem, magicReceived);
  }

  lemma BurstInImage(mem: seq<byte>, other: seq<byte>, image: seq<byte>, p: nat, changed: seq<byte>)
    requires |mem| == |other| == FLASH_END && ImageAt(mem, APP_START) == Some(image) && p + 4 <= |image|
    requires p + 4 <= INFO_OFFSET + LENGTH_FIELD || CHECKSUM_END <= p
    requires other != mem && SameOutside(mem, other, APP_START + p, APP_START + p + 4)
    requires changed == other[APP_START..APP_START + |image|]
    ensures ImageAt(other, APP_START) == Some(changed)
    ensures |changed| == |image| && changed != image && SameOutside(image, changed, p, p + 4)
    ensures Word(changed, CHECKSUM_OFFSET) == Word(image, CHECKSUM_OFFSET)
  {
    WordOutside(mem, other, APP_START + p, APP_START + INFO_OFFSET + LENGTH_FIELD);
    BurstInSlice(mem, other, APP_START, APP_START + |image|, p);
    WordOutside(image, changed, p, CHECKSUM_OFFSET);
  }

  lemma BurstInSlice(mem: seq<byte>, other: seq<byte>, lo: nat, hi: nat, p: nat)
    requires lo <= hi <= |mem| && lo + p + 4 <= hi && other != mem && SameOutside(mem, other, lo + p, lo + p + 4)
    ensures mem[lo..hi] != other[lo..hi] && SameOutside(mem[lo..hi], other[lo..hi], p, p + 4)
  {
    var i :| 0 <= i < |mem| && mem[i] != other[i];
    assert mem[lo..hi][i - lo] != other[lo..hi][i - lo];
  }

  // ---------- And back to the host ----------

  /** If the application directly follows the bootloader, an upload after a download returns the
      application as its header delimits it, behind the bootloader. */
  lemma UploadReturnsDownload(m: Machine, base: seq<byte>, image: seq<byte>, sizes: seq<uint16>)
    requires APP_START == BOOTLOADER_START + BOOTLOADER_SIZE
    requires Fitting(m) && m.state == Idle && |base| == FLASH_END && Installable(image) && Delivered(m, base, image)
    requires ParseInfo(image).startAddress == APP_START
    requires sizes != [] && sizes[0] > 0 && Sum(sizes) >= BOOTLOADER_SIZE + ParseInfo(image).length
    ensures Collected(UPLOAD, m, sizes) == base[BOOTLOADER_START..APP_START] + image[..ParseInfo(image).length]
  {
    var n := ParseInfo(image).length;
    InstalledCovers(base, image);
    UploadIsFlash(m, sizes, 0);
  }

  lemma InstalledCovers(base: seq<byte>, image: seq<byte>)
    requires APP_START == BOOTLOADER_START + BOOTLOADER_SIZE
    requires |base| == FLASH_END && Installable(image) && ParseInfo(image).startAddress == APP_START
    ensures var mem, total := Install(base, APP_START, image), BOOTLOADER_SIZE + ParseInfo(image).length;
      && UploadLength(mem) == total && BOOTLOADER_START + total <= FLASH_END
      && Covered(mem, total) == base[BOOTLOADER_START..APP_START] + image[..ParseInfo(image).length]
  {
    var mem, n := Install(base, APP_START, image), ParseInfo(image).length;
    InstalledHeader(base, image);
    InstalledWord(base, APP_START, image, INFO_OFFSET + LENGTH_FIELD);
    InstalledParts(base, image, n);
  }

  lemma InstalledParts(base: seq<byte>, image: seq<byte>, n: nat)
    requires |base| == FLASH_END && APP_START + PageEnd(|image|) <= FLASH_END && n <= |image|
    ensures Install(base, APP_START, image)[BOOTLOADER_START..APP_START + n] == base[BOOTLOADER_START..APP_START] + image[..n]
  {
    var mem := Install(base, APP_START, image);
    InstalledPart(base, APP_START, image, n);
    assert mem[BOOTLOADER_START..APP_START + n] == mem[BOOTLOADER_START..APP_START] + mem[APP_START..APP_START + n];
    assert mem[BOOTLOADER_START..APP_START] == base[BOOTLOADER_START..APP_START];
  }

  /** Without an application: exactly as many bytes from the bootloader's start as the length in its own
      header says, twelve bytes in, and nothing afterwards. */
  lemma UploadWithoutApplication(m: Machine, sizes: seq<uint16>, more: uint16)
    requires Fitting(m) && m.state == Idle && sizes != [] && sizes[0] > 0
    requires m.flash.mem[APP_START + INFO_OFFSET..APP_START + INFO_OFFSET + 4] != [0x54, 0x4F, 0x4F, 0x42]
    ensures var length := LittleEndian(m.flash.mem[BOOTLOADER_START + INFO_OFFSET + 12..BOOTLOADER_START + INFO_OFFSET + 16]);
      length <= Sum(sizes) && (Sum(sizes) < 0x1_0000_0000 || length + 0xFFFF < 0x1_0000_0000) ==>
        && Collected(UPLOAD, m, sizes) == ReadBytes(m.flash.mem, BOOTLOADER_START, length)
        && (length + more < 0x1_0000_0000 ==> UPLOAD(AfterUploads(UPLOAD, m, sizes), more).0 == [])
  {
    AnnouncesOwnLength(m.flash.mem);
    var length := UploadLength(m.flash.mem);
    if length <= Sum(sizes) && (Sum(sizes) < 0x1_0000_0000 || length + 0xFFFF < 0x1_0000_0000) {
      UploadIsFlash(m, sizes, more);
    }
  }
}
