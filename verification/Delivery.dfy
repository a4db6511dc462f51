/** A fault-free download, from the first packet to the end of the manifest: however the image is cut
    into packets and the events are scheduled, it ends up in flash, whole and alone, and it never
    takes more than a known number of steps to get there. */
module Delivery {
  import opened Layout
  import opened FlashControl
  import opened DfuMachine
  import opened Invariant
  import opened InvariantSteps
  import opened ManifestSteps

  // ---------- Healthy hardware ----------

  ghost predicate ErasesWell(before: FlashState, at: nat, f: FlashState, status: Status) {
    AllNominal(before.script) && InFlash(at, PAGE_SIZE) ==> status == OK && AllNominal(f.script)
  }

  /** As long as the hardware does not fail, no call inside the flash fails. */
  ghost predicate Healthy(drv: Driver) {
    && drv.Honest()
    && (forall f, at: nat {:trigger drv.erase(f, at)} ::
          FlashControl.Sized(f) && Aligned(at) ==> ErasesWell(f, at, drv.erase(f, at).0, drv.erase(f, at).1))
    && (forall f, at: nat, data {:trigger drv.program(f, at, data)} ::
          FlashControl.Sized(f) && Aligned(at) && |data| == PAGE_SIZE && BlankPage(f.mem, at)
          ==> ErasesWell(f, at, drv.program(f, at, data).0, drv.program(f, at, data).1))
  }

  lemma FlashIsHealthy()
    ensures Healthy(FLASH)
  {
    FlashIsHonest();
    forall f, at: nat {:trigger FLASH.erase(f, at)} | FlashControl.Sized(f) && Aligned(at)
      ensures ErasesWell(f, at, FLASH.erase(f, at).0, FLASH.erase(f, at).1)
    {
      var (g, status) := Erase(f, at);
      PageOfAligned(at);
      EraseContract(f, at, g, status);
    }
    forall f, at: nat, data {:trigger FLASH.program(f, at, data)}
      | FlashControl.Sized(f) && Aligned(at) && |data| == PAGE_SIZE && BlankPage(f.mem, at)
      ensures ErasesWell(f, at, FLASH.program(f, at, data).0, FLASH.program(f, at, data).1)
    {
      HealthyProgram(f, at, data);
    }
  }

  lemma HealthyProgram(f: FlashState, at: nat, data: seq<byte>)
    requires FlashControl.Sized(f) && Aligned(at) && |data| == PAGE_SIZE && BlankPage(f.mem, at)
    ensures ErasesWell(f, at, Program(f, at, data).0, Program(f, at, data).1)
  {
    var (g, status) := Program(f, at, data);
    PageOfAligned(at);
    ProgramContract(f, at, data, g, status);
    if AllNominal(f.script) && InFlash(at, PAGE_SIZE) {
      ProgramBlankSucceeds(f, at, data);
    }
  }

  // ---------- The image ----------

  /** An image the bootloader takes: acceptable header, whole, inside the flash. */
  ghost predicate Installable(image: seq<byte>) {
    && |image| >= MINIMUM_SIZE
    && Acceptable(ParseInfo(image))
    && ParseInfo(image).length <= |image|
    && ParseInfo(image).startAddress + PageEnd(|image|) <= FLASH_END
  }

  // ---------- On course ----------

  /** The session has received everything but `left`. */
  ghost predicate Owes(m: Machine, base: seq<byte>, image: seq<byte>, left: seq<byte>) {
    m.log.stream + left == image && m.log.base == base
  }

  ghost predicate Delivered(m: Machine, base: seq<byte>, image: seq<byte>)
    requires Installable(image) && |base| == FLASH_END
  {
    && m.download.done && m.status == OK && !m.dirty
    && m.flash.mem == Install(base, ParseInfo(image).startAddress, image)
    && m.log.committed == m.flash.mem
  }

  /** Nothing has gone wrong: memory was `base` at the start, `left` is still to be sent. */
  ghost predicate OnCourse(m: Machine, base: seq<byte>, image: seq<byte>, left: seq<byte>)
    requires Installable(image) && |base| == FLASH_END
  {
    && Inv(m) && AllNominal(m.flash.script)
    && (m.transfer.Receiving? ==> left != [] && m.transfer.limit > 0)
    && (match m.state
        case Idle => if left == [] then Delivered(m, base, image) else left == image && m.flash.mem == base
        case DownloadSync => Owes(m, base, image, left)
        case DownloadBusy => Owes(m, base, image, left)
        case DownloadIdle => Owes(m, base, image, left)
        case ManifestSync => left == [] && if m.download.done then Delivered(m, base, image) else Owes(m, base, image, left)
        case Manifest => left == [] && Owes(m, base, image, left)
        case _ => false)
  }

  /** What a host and a USB stack may do without a fault: requests that the state allows, packets of
      any size up to the `asked` bytes that the host has asked to send, no request before it has sent
      them, no failed transfer. The main loop may poll at any time. */
  ghost predicate Proper(m: Machine, left: seq<byte>, asked: nat, e: Event) {
    match e
    case Setup(request, wLength, accepted) => accepted && asked == 0 && Allowed(m.state, left, request, wLength)
    case Data(packet) => 0 < |packet| <= asked && |packet| <= 64 && packet <= left
    case SendDone(ok) => ok
    case Poll => true
  }

  predicate Allowed(state: State, left: seq<byte>, request: Request, wLength: uint16) {
    match request
    case RequestDownload =>
      || (state in {Idle, DownloadIdle} && left != [] && wLength > 0)
      || (state == DownloadIdle && left == [] && wLength == 0)
    case RequestGetStatus => state !in {DownloadBusy, Manifest}
    case RequestGetState => state !in {DownloadBusy, Manifest}
    case _ => false
  }

  /** How much the host has asked to send after an event, and not sent yet. */
  function AskedAfter(asked: nat, e: Event): nat {
    match e
    case Setup(RequestDownload, wLength, _) => wLength
    case Data(_) => 0
    case _ => asked
  }

  /** The engine waits for what the host has asked to send, and for nothing else. */
  predicate Listens(m: Machine, asked: nat) {
    if asked > 0 then m.transfer == Receiving(asked) else !m.transfer.Receiving?
  }

  /** The same, as the engine sees it. */
  ghost predicate Proceeds(m: Machine, left: seq<byte>, e: Event) {
    match e
    case Setup(request, wLength, accepted) => accepted && !m.transfer.Receiving? && Allowed(m.state, left, request, wLength)
    case Data(packet) => m.transfer.Receiving? && 0 < |packet| <= m.transfer.limit && |packet| <= PACKET_SIZE && packet <= left
    case SendDone(ok) => ok
    case Poll => true
  }

  /** What is left to send after an event. */
  function LeftAfter(left: seq<byte>, e: Event): seq<byte> {
    if e.Data? && |e.bytes| <= |left| then left[|e.bytes|..] else left
  }

  /** How many more steps the host and the bootloader owe each other at most: the bytes left to send,
      then where the packet under way has got to, then the manifest. */
  function Rank(m: Machine, left: seq<byte>): nat {
    match m.state
    case Idle => if left == [] then 0 else 5 + 5 * |left|
    case DownloadSync => 4 + 5 * |left| + (if m.transfer.Receiving? then 0 else if m.download.pageWaiting then 4 else 2)
    case DownloadBusy => 4 + 5 * |left| + 3
    case DownloadIdle => 4 + 5 * |left| + 1
    case ManifestSync => if m.download.done then 1 else 3
    case Manifest => 2
    case _ => 0
  }

  lemma BeginCourse(m: Machine, base: seq<byte>, image: seq<byte>, left: seq<byte>, n: uint16)
    requires Installable(image) && |base| == FLASH_END && OnCourse(m, base, image, left)
    requires m.state == Idle && left != [] && n > 0 && !m.transfer.Receiving?
    ensures var r := OnSetup(m, RequestDownload, n, true); OnCourse(r, base, image, left) && Rank(r, left) < Rank(m, left)
  {
    SetupKeeps(m, RequestDownload, n, true);
    assert [] + image == image;
  }

  lemma ContinueCourse(m: Machine, base: seq<byte>, image: seq<byte>, left: seq<byte>, n: uint16)
    requires Installable(image) && |base| == FLASH_END && OnCourse(m, base, image, left)
    requires m.state == DownloadIdle && left != [] && n > 0 && !m.transfer.Receiving?
    ensures var r := OnSetup(m, RequestDownload, n, true); OnCourse(r, base, image, left) && Rank(r, left) < Rank(m, left)
  {
    SetupKeeps(m, RequestDownload, n, true);
  }

  lemma EndCourse(m: Machine, base: seq<byte>, image: seq<byte>)
    requires Installable(image) && |base| == FLASH_END && OnCourse(m, base, image, [])
    requires m.state == DownloadIdle && !m.transfer.Receiving?
    ensures var r := OnSetup(m, RequestDownload, 0, true); OnCourse(r, base, image, []) && Rank(r, []) < Rank(m, [])
  {
    SetupKeeps(m, RequestDownload, 0, true);
    CheckDoneDecides(m);
    assert m.log.stream == image;
  }

  lemma DownloadCourse(m: Machine, base: seq<byte>, image: seq<byte>, left: seq<byte>, n: uint16)
    requires Installable(image) && |base| == FLASH_END && OnCourse(m, base, image, left)
    requires Proceeds(m, left, Setup(RequestDownload, n, true))
    ensures var r := OnSetup(m, RequestDownload, n, true); OnCourse(r, base, image, left) && Rank(r, left) < Rank(m, left)
  {
    if m.state == Idle {
      BeginCourse(m, base, image, left, n);
    } else if left != [] {
      ContinueCourse(m, base, image, left, n);
    } else {
      EndCourse(m, base, image);
    }
  }

  lemma StatusCourse(m: Machine, base: seq<byte>, image: seq<byte>, left: seq<byte>, n: uint16)
    requires Installable(image) && |base| == FLASH_END && OnCourse(m, base, image, left)
    requires Proceeds(m, left, Setup(RequestGetStatus, n, true))
    ensures var r := OnSetup(m, RequestGetStatus, n, true);
      && OnCourse(r, base, image, left)
      && (if m.state in {DownloadSync, ManifestSync} then Rank(r, left) < Rank(m, left) else Rank(r, left) == Rank(m, left))
  {
    SetupKeeps(m, RequestGetStatus, n, true);
  }

  lemma StateCourse(m: Machine, base: seq<byte>, image: seq<byte>, left: seq<byte>, n: uint16)
    requires Installable(image) && |base| == FLASH_END && OnCourse(m, base, image, left)
    requires Proceeds(m, left, Setup(RequestGetState, n, true))
    ensures var r := OnSetup(m, RequestGetState, n, true); OnCourse(r, base, image, left) && Rank(r, left) == Rank(m, left)
  {
    SetupKeeps(m, RequestGetState, n, true);
  }

  lemma RequestCourse(m: Machine, base: seq<byte>, image: seq<byte>, left: seq<byte>, request: Request, n: uint16)
    requires Installable(image) && |base| == FLASH_END && OnCourse(m, base, image, left)
    requires Proceeds(m, left, Setup(request, n, true))
    ensures var r := OnSetup(m, request, n, true);
      && OnCourse(r, base, image, left)
      && (if request == RequestDownload || (request == RequestGetStatus && m.state in {DownloadSync, ManifestSync})
          then Rank(r, left) < Rank(m, left) else Rank(r, left) == Rank(m, left))
  {
    match request
    case RequestDownload => DownloadCourse(m, base, image, left, n);
    case RequestGetStatus => StatusCourse(m, base, image, left, n);
    case RequestGetState => StateCourse(m, base, image, left, n);
  }

  lemma SentCourse(m: Machine, base: seq<byte>, image: seq<byte>, left: seq<byte>)
    requires Installable(image) && |base| == FLASH_END && OnCourse(m, base, image, left)
    ensures OnCourse(OnSendDone(m, true), base, image, left) && Rank(OnSendDone(m, true), left) == Rank(m, left)
  {
    SendDoneKeeps(m, true);
  }

  lemma DataCourse(m: Machine, base: seq<byte>, image: seq<byte>, left: seq<byte>, packet: seq<byte>)
    requires Installable(image) && |base| == FLASH_END && OnCourse(m, base, image, left)
    requires Proceeds(m, left, Data(packet))
    ensures var n, rest := OnData(m, packet), left[|packet|..];
      OnCourse(n, base, image, rest) && Rank(n, rest) < Rank(m, left)
  {
    DataKeeps(m, packet);
    DataAccepted(m, base, image, left, packet);
  }

  /** The header check, when it runs, sees the header of the image. */
  lemma HeaderAccepted(d: Download, log: Log, packet: seq<byte>, image: seq<byte>)
    requires |d.page| == PAGE_SIZE && |d.overflow| == PACKET_SIZE && |packet| <= PACKET_SIZE
    requires Buffered(d, log.stream) && !d.pageWaiting && HeaderKnown(d, log.stream)
    requires log.stream + packet <= image && Installable(image)
    ensures var e := Buffer(d, packet);
      e.count == 0 && e.pageCount >= MINIMUM_SIZE && d.pageCount < MINIMUM_SIZE ==> Acceptable(ParseInfo(e.page))
  {
    HeaderStep(d, log, packet, Buffer(d, packet));
    if |log.stream + packet| >= MINIMUM_SIZE {
      ParseInfoPrefix(log.stream + packet, image);
    }
  }

  lemma DataAccepted(m: Machine, base: seq<byte>, image: seq<byte>, left: seq<byte>, packet: seq<byte>)
    requires Inv(m) && m.state == DownloadSync && Owes(m, base, image, left) && Installable(image)
    requires Proceeds(m, left, Data(packet))
    ensures var n := OnData(m, packet);
      n.state == DownloadSync && n.flash == m.flash && n.transfer == NoTransfer && Owes(n, base, image, left[|packet|..])
  {
    assert (m.log.stream + packet) + left[|packet|..] == image;
    HeaderAccepted(m.download, m.log, packet, image);
    PacketChanges(m.(transfer := NoTransfer), packet, OnData(m, packet));
  }

  // ---------- Polls ----------

  lemma PageInFlash(m: Machine, image: seq<byte>)
    requires Inv(m) && m.state == DownloadBusy && Installable(image) && m.log.stream <= image
    ensures var at := m.download.info.startAddress + m.download.count;
      PageAddress(m.download) == at && Aligned(at) && InFlash(at, PAGE_SIZE)
  {
    PageAddressKnown(m);
    ParseInfoPrefix(m.log.stream, image);
  }

  lemma FlushCourse(drv: Driver, m: Machine, image: seq<byte>)
    requires Healthy(drv) && Inv(m) && m.state == DownloadBusy && AllNominal(m.flash.script)
    requires Installable(image) && m.log.stream <= image
    ensures var n := Flush(drv, m);
      n.state == DownloadSync && AllNominal(n.flash.script) && n.log == m.log && n.transfer == m.transfer && !n.download.pageWaiting
  {
    PageInFlash(m, image);
    var at := PageAddress(m.download);
    var (f, status) := drv.erase(m.flash, at);
    assert ErasesWell(m.flash, at, f, status);
    FlushProgrammed(drv, m.(dirty := true), f, at);
  }

  lemma FlushProgrammed(drv: Driver, m: Machine, f: FlashState, at: nat)
    requires Healthy(drv) && Fitting(m) && Aligned(at) && InFlash(at, PAGE_SIZE) && PageAddress(m.download) == at
    requires Erased(m.flash, at, f, OK) && AllNominal(f.script)
    ensures var n := AfterBusyErase(drv, m, f, OK);
      n.state == DownloadSync && AllNominal(n.flash.script) && n.log == m.log && n.transfer == m.transfer && !n.download.pageWaiting
  {
    SpliceBlank(m.flash.mem, at);
    if m.download.count > 0 {
      BusyPrograms(drv, m, f);
      var (g, status) := drv.program(f, at, m.download.page);
      assert ErasesWell(f, at, g, status);
    }
  }

  // A healthy manifest cannot fail: its erases and programs are in the flash, and every program finds
  // a blank page.

  lemma SealWorks(drv: Driver, m: Machine, image: seq<byte>)
    requires Healthy(drv) && Sealable(m, image) && AllNominal(m.flash.script)
    requires BOOTLOADER_START <= m.download.info.startAddress
    ensures var n := SealImage(drv, m); n.state == ManifestSync && AllNominal(n.flash.script)
  {
    var start := m.download.info.startAddress;
    StagedIsBlank(m.log.base, start, image);
    var (g, status) := drv.program(m.flash, start, m.download.firstPage);
    assert ErasesWell(m.flash, start, g, status);
  }

  /** The whole padded image lies in the flash. */
  ghost predicate Fits(m: Machine) {
    BOOTLOADER_START <= m.download.info.startAddress && m.download.info.startAddress + PageEnd(|m.log.stream|) <= FLASH_END
  }

  lemma ShortWorks(drv: Driver, m: Machine)
    requires Healthy(drv) && Ready(m) && Fits(m) && m.download.count == 0 && AllNominal(m.flash.script)
    ensures var n := ManifestImage(drv, m); n.state == ManifestSync && AllNominal(n.flash.script)
  {
    var start := m.download.info.startAddress;
    LastPage(m.download, m.log.stream);
    var (f, status) := drv.erase(m.flash, start);
    assert ErasesWell(m.flash, start, f, status);
    CallsAt(m.log, m.flash.calls, m.download);
    ShortSealable(m, f);
    SealWorks(drv, HoldBack(m).(flash := f), PaddedImage(m.log.stream));
  }

  lemma WholeWorks(drv: Driver, m: Machine)
    requires Healthy(drv) && Ready(m) && Fits(m) && m.download.count > 0 && m.download.pageCount == 0 && AllNominal(m.flash.script)
    ensures var n := ManifestImage(drv, m); n.state == ManifestSync && AllNominal(n.flash.script)
  {
    WholePages(m.download, m.log.stream);
    SealWorks(drv, m, m.log.stream);
  }

  lemma TailWorks(drv: Driver, m: Machine)
    requires Healthy(drv) && Ready(m) && Fits(m) && m.download.count > 0 && m.download.pageCount > 0 && AllNominal(m.flash.script)
    ensures var n := ManifestImage(drv, m); n.state == ManifestSync && AllNominal(n.flash.script)
  {
    var at := m.download.info.startAddress + m.download.count;
    LastPage(m.download, m.log.stream);
    var (f, status) := drv.erase(m.flash, at);
    assert ErasesWell(m.flash, at, f, status);
    TailErases(drv, m, at);
    TailProgramWorks(drv, m, f);
  }

  lemma TailProgramWorks(drv: Driver, m: Machine, f: FlashState)
    requires Healthy(drv) && Ready(m) && Fits(m) && m.download.count > 0 && m.download.pageCount > 0
    requires Erased(m.flash, m.download.info.startAddress + m.download.count, f, OK) && AllNominal(f.script)
    ensures var n := AfterLastErase(drv, WithLastPage(m), f, OK); n.state == ManifestSync && AllNominal(n.flash.script)
  {
    var at := m.download.info.startAddress + m.download.count;
    var last := Padded(m.download.page, m.download.pageCount);
    SpliceBlank(m.flash.mem, at);
    var (g, status) := drv.program(f, at, last);
    assert ErasesWell(f, at, g, status);
    TailPrograms(drv, m, f, at);
    CallsAt(m.log, m.flash.calls, m.download);
    TailSealable(m, f, g);
    SealWorks(drv, WithLastPage(m).(flash := g), PaddedImage(m.log.stream));
  }

  lemma ManifestCourse(drv: Driver, m: Machine, base: seq<byte>, image: seq<byte>)
    requires Installable(image) && |base| == FLASH_END
    requires Healthy(drv) && m.state == Manifest && OnCourse(m, base, image, [])
    ensures OnCourse(OnPoll(drv, m), base, image, []) && OnPoll(drv, m).state == ManifestSync && OnPoll(drv, m).download.done
  {
    ManifestOutcome(drv, m);
    assert m.log.stream == image;
    HealthyManifest(drv, m);
  }

  /** On healthy hardware a manifest succeeds if the padded image fits. */
  lemma HealthyManifest(drv: Driver, m: Machine)
    requires Healthy(drv) && Inv(m) && m.state == Manifest && Fits(m) && AllNominal(m.flash.script)
    ensures OnPoll(drv, m).state == ManifestSync && AllNominal(OnPoll(drv, m).flash.script)
  {
    ManifestReady(m);
    if m.download.count == 0 {
      ShortWorks(drv, m);
    } else if m.download.pageCount == 0 {
      WholeWorks(drv, m);
    } else {
      TailWorks(drv, m);
    }
  }

  lemma PollCourse(drv: Driver, m: Machine, base: seq<byte>, image: seq<byte>, left: seq<byte>)
    requires Installable(image) && |base| == FLASH_END
    requires Healthy(drv) && OnCourse(m, base, image, left)
    ensures var n := OnPoll(drv, m);
      && OnCourse(n, base, image, left)
      && (if m.state in {DownloadBusy, Manifest} then Rank(n, left) < Rank(m, left) else n == m)
  {
    if m.state == Manifest {
      ManifestCourse(drv, m, base, image);
    } else if m.state == DownloadBusy {
      FlushKeeps(drv, m);
      FlushCourse(drv, m, image);
    }
  }

  // ---------- Every fault-free schedule ----------

  lemma CourseProceeds(drv: Driver, m: Machine, base: seq<byte>, image: seq<byte>, left: seq<byte>, e: Event)
    requires Installable(image) && |base| == FLASH_END
    requires Healthy(drv) && OnCourse(m, base, image, left) && Proceeds(m, left, e)
    ensures var n := Step(drv, m, e);
      OnCourse(n, base, image, LeftAfter(left, e)) && Rank(n, LeftAfter(left, e)) <= Rank(m, left)
  {
    match e
    case Setup(request, n, _) => RequestCourse(m, base, image, left, request, n);
    case Data(packet) => DataCourse(m, base, image, left, packet);
    case SendDone(_) => SentCourse(m, base, image, left);
    case Poll => PollCourse(drv, m, base, image, left);
  }

  /** The engine takes the host at its word, and goes on doing so. */
  lemma ListensOn(drv: Driver, m: Machine, left: seq<byte>, asked: nat, e: Event)
    requires drv.Sane() && Inv(m) && Listens(m, asked) && Proper(m, left, asked, e)
    ensures Proceeds(m, left, e) && Listens(Step(drv, m, e), AskedAfter(asked, e))
  {
    match e
    case Setup(request, wLength, _) => RequestListens(m, left, request, wLength);
    case Data(packet) => DataListens(m, packet);
    case SendDone(_) =>
    case Poll => PollListens(drv, m);
  }

  lemma RequestListens(m: Machine, left: seq<byte>, request: Request, wLength: uint16)
    requires Fitting(m) && !m.transfer.Receiving? && Allowed(m.state, left, request, wLength)
    ensures Listens(OnSetup(m, request, wLength, true), if request == RequestDownload then wLength else 0)
  {
  }

  lemma DataListens(m: Machine, packet: seq<byte>)
    requires Inv(m) && m.transfer.Receiving? && |packet| <= m.transfer.limit && |packet| <= PACKET_SIZE
    ensures OnData(m, packet).transfer == NoTransfer
  {
    PacketChanges(m.(transfer := NoTransfer), packet, OnData(m, packet));
  }

  lemma PollListens(drv: Driver, m: Machine)
    requires drv.Sane() && Fitting(m)
    ensures OnPoll(drv, m).transfer == m.transfer
  {
    FlushListens(drv, m);
    ManifestListens(drv, m);
  }

  lemma FlushListens(drv: Driver, m: Machine)
    requires drv.Sane() && Fitting(m)
    ensures Flush(drv, m).transfer == m.transfer
  {
  }

  lemma ManifestListens(drv: Driver, m: Machine)
    requires drv.Sane() && Fitting(m)
    ensures ManifestImage(drv, m).transfer == m.transfer
  {
  }

  /** No fault-free event leads astray, and none loses ground. */
  lemma CourseKept(drv: Driver, m: Machine, base: seq<byte>, image: seq<byte>, left: seq<byte>, asked: nat, e: Event)
    requires Installable(image) && |base| == FLASH_END
    requires Healthy(drv) && OnCourse(m, base, image, left) && Listens(m, asked) && Proper(m, left, asked, e)
    ensures var n := Step(drv, m, e);
      && OnCourse(n, base, image, LeftAfter(left, e)) && Listens(n, AskedAfter(asked, e))
      && Rank(n, LeftAfter(left, e)) <= Rank(m, left)
  {
    ListensOn(drv, m, left, asked, e);
    CourseProceeds(drv, m, base, image, left, e);
  }

  /** What moves the download on: the next packet of at most `wanted` bytes, a status request, a poll. */
  function Next(m: Machine, left: seq<byte>, wanted: nat): Event
    requires 0 < wanted <= PACKET_SIZE
  {
    if m.transfer.Receiving? then
      var n := if m.transfer.limit < wanted then m.transfer.limit else wanted;
      Data(if |left| <= n then left else left[..n])
    else if m.state in {Idle, DownloadIdle} then Setup(RequestDownload, if |left| < wanted then |left| else wanted, true)
    else if m.state in {DownloadSync, ManifestSync} then Setup(RequestGetStatus, 6, true)
    else Poll
  }

  /** There always is a fault-free event that gains ground, until the image is delivered. */
  lemma Progress(drv: Driver, m: Machine, base: seq<byte>, image: seq<byte>, left: seq<byte>, asked: nat, wanted: nat)
    requires Installable(image) && |base| == FLASH_END
    requires Healthy(drv) && OnCourse(m, base, image, left) && Listens(m, asked) && 0 < wanted <= PACKET_SIZE
    ensures Rank(m, left) == 0 ==> m.state == Idle && left == [] && Delivered(m, base, image)
    ensures var e := Next(m, left, wanted);
      Rank(m, left) > 0 ==> Proper(m, left, asked, e) && Rank(Step(drv, m, e), LeftAfter(left, e)) < Rank(m, left)
  {
    NextProceeds(m, base, image, left, wanted);
    var e := Next(m, left, wanted);
    if Rank(m, left) > 0 {
      match e
      case Setup(request, n, _) => RequestCourse(m, base, image, left, request, n);
      case Data(packet) => DataCourse(m, base, image, left, packet);
      case Poll => PollCourse(drv, m, base, image, left);
    }
  }

  lemma NextProceeds(m: Machine, base: seq<byte>, image: seq<byte>, left: seq<byte>, wanted: nat)
    requires Installable(image) && |base| == FLASH_END && OnCourse(m, base, image, left) && 0 < wanted <= PACKET_SIZE
    ensures Rank(m, left) == 0 <==> m.state == Idle && left == []
    ensures Rank(m, left) > 0 ==> Proceeds(m, left, Next(m, left, wanted))
  {
  }

  /** What is left to send after a run. */
  function LeftOver(left: seq<byte>, events: seq<Event>): seq<byte> {
    if events == [] then left else LeftAfter(LeftOver(left, events[..|events| - 1]), events[|events| - 1])
  }

  /** How much the host has asked to send, and not sent, after a run. */
  function Asked(events: seq<Event>): nat {
    if events == [] then 0 else AskedAfter(Asked(events[..|events| - 1]), events[|events| - 1])
  }

  /** A run without faults: every event is proper where it happens. */
  ghost predicate FaultFree(drv: Driver, m: Machine, left: seq<byte>, events: seq<Event>)
    requires Fitting(m) && drv.Sane()
  {
    events != [] ==>
      (var prefix := events[..|events| - 1];
       FaultFree(drv, m, left, prefix) && Proper(Run(drv, m, prefix), LeftOver(left, prefix), Asked(prefix), events[|events| - 1]))
  }

  lemma {:induction false} CourseKeptThroughout(
    drv: Driver, m: Machine, base: seq<byte>, image: seq<byte>, left: seq<byte>, events: seq<Event>)
    requires Installable(image) && |base| == FLASH_END
    requires Healthy(drv) && OnCourse(m, base, image, left) && Listens(m, 0) && FaultFree(drv, m, left, events)
    ensures OnCourse(Run(drv, m, events), base, image, LeftOver(left, events)) && Listens(Run(drv, m, events), Asked(events))
  {
    if events != [] {
      var prefix := events[..|events| - 1];
      CourseKeptThroughout(drv, m, base, image, left, prefix);
      CourseKept(drv, Run(drv, m, prefix), base, image, LeftOver(left, prefix), Asked(prefix), events[|events| - 1]);
    }
  }

  /** A host may start a download whenever the engine is idle. */
  lemma CourseBegins(m: Machine, image: seq<byte>)
    requires Inv(m) && m.state == Idle && AllNominal(m.flash.script) && Installable(image)
    ensures OnCourse(m, m.flash.mem, image, image) && Listens(m, 0)
  {
  }

  /** Every fault-free run, however the image is cut into packets and however polls, completions and
      status requests are scheduled: never an error, and once everything is sent and the engine is
      idle again, flash holds exactly the image. */
  lemma DownloadDelivers(drv: Driver, m: Machine, image: seq<byte>, events: seq<Event>)
    requires Healthy(drv) && Inv(m) && m.state == Idle && AllNominal(m.flash.script)
    requires Installable(image) && FaultFree(drv, m, image, events)
    ensures var n := Run(drv, m, events);
      && n.state !in {Error, Detach, UploadIdle} && n.status == OK
      && (n.state == Idle && LeftOver(image, events) == [] ==> Delivered(n, m.flash.mem, image))
  {
    CourseBegins(m, image);
    CourseKeptThroughout(drv, m, m.flash.mem, image, image, events);
  }

  lemma OneMore(drv: Driver, m: Machine, left: seq<byte>, events: seq<Event>, e: Event)
    requires Fitting(m) && drv.Sane() && FaultFree(drv, m, left, events)
    requires Proper(Run(drv, m, events), LeftOver(left, events), Asked(events), e)
    ensures FaultFree(drv, m, left, events + [e])
    ensures Run(drv, m, events + [e]) == Step(drv, Run(drv, m, events), e)
    ensures LeftOver(left, events + [e]) == LeftAfter(LeftOver(left, events), e)
  {
    var more := events + [e];
    assert more[..|more| - 1] == events;
  }

  /** One more step, if the image has not been delivered yet. */
  lemma GainGround(
    drv: Driver, m: Machine, base: seq<byte>, image: seq<byte>, left: seq<byte>, events: seq<Event>, wanted: nat)
    returns (more: seq<Event>)
    requires Installable(image) && |base| == FLASH_END
    requires Healthy(drv) && OnCourse(m, base, image, left) && Listens(m, 0) && FaultFree(drv, m, left, events) && 0 < wanted <= PACKET_SIZE
    requires Rank(Run(drv, m, events), LeftOver(left, events)) > 0
    ensures events <= more && |more| == |events| + 1 && FaultFree(drv, m, left, more)
    ensures Rank(Run(drv, m, more), LeftOver(left, more)) < Rank(Run(drv, m, events), LeftOver(left, events))
  {
    var n, rest := Run(drv, m, events), LeftOver(left, events);
    CourseKeptThroughout(drv, m, base, image, left, events);
    Progress(drv, n, base, image, rest, Asked(events), wanted);
    OneMore(drv, m, left, events, Next(n, rest, wanted));
    more := events + [Next(n, rest, wanted)];
  }

  lemma AtTheEnd(drv: Driver, m: Machine, base: seq<byte>, image: seq<byte>, left: seq<byte>, events: seq<Event>)
    requires Installable(image) && |base| == FLASH_END
    requires Healthy(drv) && OnCourse(m, base, image, left) && Listens(m, 0) && FaultFree(drv, m, left, events)
    requires Rank(Run(drv, m, events), LeftOver(left, events)) == 0
    ensures Run(drv, m, events).state == Idle && LeftOver(left, events) == [] && Delivered(Run(drv, m, events), base, image)
  {
    CourseKeptThroughout(drv, m, base, image, left, events);
    Progress(drv, Run(drv, m, events), base, image, LeftOver(left, events), Asked(events), 1);
  }

  /** From anywhere on course, the download can be finished within its rank. */
  lemma {:induction false} Finish(
    drv: Driver, m: Machine, base: seq<byte>, image: seq<byte>, left: seq<byte>, events: seq<Event>, wanted: nat)
    returns (all: seq<Event>)
    requires Installable(image) && |base| == FLASH_END
    requires Healthy(drv) && OnCourse(m, base, image, left) && Listens(m, 0) && FaultFree(drv, m, left, events) && 0 < wanted <= PACKET_SIZE
    ensures events <= all && FaultFree(drv, m, left, all)
    ensures |all| <= |events| + Rank(Run(drv, m, events), LeftOver(left, events))
    ensures Run(drv, m, all).state == Idle && LeftOver(left, all) == [] && Delivered(Run(drv, m, all), base, image)
    decreases Rank(Run(drv, m, events), LeftOver(left, events))
  {
    if Rank(Run(drv, m, events), LeftOver(left, events)) == 0 {
      AtTheEnd(drv, m, base, image, left, events);
      all := events;
    } else {
      var more := GainGround(drv, m, base, image, left, events, wanted);
      all := Finish(drv, m, base, image, left, more, wanted);
    }
  }

  /** A download takes at most five steps a byte and five more. */
  lemma DownloadCompletes(drv: Driver, m: Machine, image: seq<byte>, wanted: nat) returns (events: seq<Event>)
    requires Healthy(drv) && Inv(m) && m.state == Idle && AllNominal(m.flash.script)
    requires Installable(image) && 0 < wanted <= PACKET_SIZE
    ensures FaultFree(drv, m, image, events) && |events| <= 5 * |image| + 5
    ensures Run(drv, m, events).state == Idle && LeftOver(image, events) == []
    ensures Delivered(Run(drv, m, events), m.flash.mem, image)
  {
    CourseBegins(m, image);
    events := Finish(drv, m, m.flash.mem, image, image, [], wanted);
  }
}
