/** What the invariant says about whole runs: which states follow which, where the stream is, when a
    manifest can happen, what the flash has been asked to do, and what `dirty` means. */
module Protocol {
  import opened Layout
  import opened Bytes
  import opened FlashControl
  import opened DfuMachine
  import opened Invariant
  import opened InvariantSteps
  import opened ManifestSteps

  // ---------- Reachable states ----------

  lemma PowerUpHolds(f: FlashState)
    requires FlashControl.Sized(f) && Disciplined(f.calls)
    ensures Inv(PowerUp(f))
    ensures var m := PowerUp(f);
      m.state == Idle && m.status == OK && !m.dirty && m.transfer == NoTransfer && m.flash == f && m.log.committed == f.mem
  {
    var m := PowerUp(f);
    assert f.calls[m.log.mark..] == [];
  }

  /** Every state the bootloader can reach after a reset, whatever the host sends, the USB stack
      reports, and the flash controller does, satisfies the invariant. */
  lemma ReachableHolds(f: FlashState, events: seq<Event>)
    requires FlashControl.Sized(f) && Disciplined(f.calls)
    ensures FLASH.Sane() && Inv(Run(FLASH, PowerUp(f), events))
  {
    FlashIsSane();
    PowerUpHolds(f);
    FlashIsHonest();
    RunKeeps(FLASH, PowerUp(f), events);
  }

  // ---------- The state diagram ----------

  /** The transitions of appendix A of the USB DFU 1.1 specification, each with what causes it, and a
      device-specific exit from Idle. */
  predicate Edge(from: State, e: Event, to: State) {
    match e
    case Setup(request, wLength, _) => RequestEdge(from, request, wLength > 0, to)
    case Data(_) => to == from || (from == DownloadSync && to == Error)
    case SendDone(ok) => to == from || (!ok && from != Detach && to == Error)
    case Poll =>
      match from
      case DownloadBusy => to in {DownloadSync, Error}
      case Manifest => to in {ManifestSync, Error}
      case _ => to == from
  }

  /** The rows of the table, state by state; a request that a row does not name is an error. */
  predicate RequestEdge(from: State, request: Request, withData: bool, to: State) {
    match from
    case Idle =>
      (match request
       case RequestDownload => to == if withData then DownloadSync else Error
       case RequestUpload => (withData && to == UploadIdle) || to == Error
       case RequestDetach => to in {Detach, Error}
       case RequestAbort => to == Idle
       case RequestGetStatus => to == Idle
       case RequestGetState => to == Idle
       case _ => to == Error)
    case DownloadSync =>
      (match request
       case RequestGetStatus => to in {DownloadBusy, DownloadIdle}
       case RequestGetState => to == DownloadSync
       case _ => to == Error)
    case DownloadBusy => to == Error
    case DownloadIdle =>
      (match request
       case RequestDownload => if withData then to == DownloadSync else to in {ManifestSync, Error}
       case RequestAbort => to == Idle
       case RequestGetStatus => to == DownloadIdle
       case RequestGetState => to == DownloadIdle
       case _ => to == Error)
    case ManifestSync =>
      (match request
       case RequestGetStatus => to in {Manifest, Idle}
       case RequestGetState => to == ManifestSync
       case _ => to == Error)
    case Manifest => to == Error
    case UploadIdle =>
      (match request
       case RequestUpload => to == UploadIdle || (withData && to == Error)
       case RequestAbort => to == Idle
       case RequestGetStatus => to == UploadIdle
       case RequestGetState => to == UploadIdle
       case _ => to == Error)
    case Error => to == if request == RequestClearStatus then Idle else Error
    case Detach => to == Detach
  }

  lemma FlushEdge(drv: Driver, m: Machine)
    requires Fitting(m) && drv.Sane()
    ensures Flush(drv, m).state in {DownloadSync, Error}
  {
  }

  lemma ManifestEdge(drv: Driver, m: Machine)
    requires Fitting(m) && drv.Sane()
    ensures ManifestImage(drv, m).state in {ManifestSync, Error}
  {
  }

  /** Every step of a reachable state is a transition of the diagram, with that cause. */
  lemma FollowsDiagram(drv: Driver, m: Machine, e: Event)
    requires drv.Sane() && Inv(m)
    ensures Edge(m.state, e, Step(drv, m, e).state)
  {
    match e
    case Setup(request, wLength, accepted) => SetupEdge(m, request, wLength, accepted);
    case Data(bytes) => DataEdge(m, bytes);
    case SendDone(ok) =>
    case Poll =>
      FlushEdge(drv, m);
      ManifestEdge(drv, m);
  }

  lemma SetupEdge(m: Machine, request: Request, wLength: uint16, accepted: bool)
    requires Fitting(m)
    ensures RequestEdge(m.state, request, wLength > 0, OnSetup(m, request, wLength, accepted).state)
  {
  }

  lemma DataEdge(m: Machine, bytes: seq<byte>)
    requires Inv(m)
    ensures Edge(m.state, Data(bytes), OnData(m, bytes).state)
  {
    if m.transfer.Receiving? && |bytes| <= m.transfer.limit && |bytes| <= PACKET_SIZE {
      PacketChanges(m.(transfer := NoTransfer), bytes, OnData(m, bytes));
    }
  }

  /** Where the diagram leaves a choice on the download path, the received stream decides: a status
      request finds the engine busy exactly when a whole page waits, and begins a manifest exactly when
      the session's has not been done; a packet fails exactly when it completes a bad header. */
  lemma DownloadPath(m: Machine, bytes: seq<byte>, wLength: uint16, accepted: bool)
    requires Inv(m)
    ensures m.state == DownloadSync ==>
      (OnSetup(m, RequestGetStatus, wLength, accepted).state == DownloadBusy <==> |m.log.stream| >= m.download.count + PAGE_SIZE)
    ensures m.state == ManifestSync ==>
      (OnSetup(m, RequestGetStatus, wLength, accepted).state == Manifest <==> !m.download.done)
    ensures m.transfer.Receiving? && |bytes| <= m.transfer.limit && |bytes| <= PACKET_SIZE ==>
      var s := m.log.stream + bytes;
      OnData(m, bytes).state == Error <==> (|m.log.stream| < MINIMUM_SIZE <= |s| && !Acceptable(ParseInfo(s)))
  {
    if m.transfer.Receiving? && |bytes| <= m.transfer.limit && |bytes| <= PACKET_SIZE {
      PacketChanges(m.(transfer := NoTransfer), bytes, OnData(m, bytes));
      HeaderStep(m.download, m.log, bytes, Buffer(m.download, bytes));
    }
  }

  /** Detach is final, and nothing is outstanding in it. */
  lemma {:induction false} DetachAbsorbs(drv: Driver, m: Machine, events: seq<Event>)
    requires drv.Sane() && Inv(m) && m.state == Detach
    ensures Run(drv, m, events) == m
  {
    if events != [] {
      DetachAbsorbs(drv, m, events[..|events| - 1]);
    }
  }

  // ---------- The stream ----------

  /** Where the bytes of the stream are: the first page is held in RAM, the later whole pages are in
      flash, the rest is in the two buffers. */
  function Gathered(m: Machine): seq<byte>
    requires Fitting(m)
    requires m.download.count > 0 ==> PAGE_SIZE <= m.download.count && m.download.info.startAddress + m.download.count <= FLASH_END
  {
    var d, start := m.download, m.download.info.startAddress;
    (if d.count == 0 then [] else d.firstPage + m.flash.mem[start + PAGE_SIZE..start + d.count])
    + d.page[..d.pageCount] + d.overflow[..d.overflowCount]
  }

  /** No byte is lost, repeated or reordered: in every session state the buffers and the flash,
      read in order, are exactly what has been received. */
  lemma StreamConserved(m: Machine)
    requires Inv(m) && InSession(m)
    ensures var d := m.download;
      && (d.count > 0 ==> PAGE_SIZE <= d.count && d.info.startAddress + d.count <= FLASH_END)
      && Gathered(m) == m.log.stream
      && d.count % PAGE_SIZE == 0 && d.pageCount <= PAGE_SIZE
      && d.overflowCount < PACKET_SIZE && (d.overflowCount > 0 ==> d.pageCount == PAGE_SIZE)
  {
    AlignedIsMultiple(m.download.count);
    GatheredParts(m.download, m.log, m.flash.mem, m.dirty);
  }

  lemma GatheredParts(d: Download, log: Log, mem: seq<byte>, dirty: bool)
    requires |d.page| == PAGE_SIZE && |d.overflow| == PACKET_SIZE
    requires Buffered(d, log.stream) && OnFlash(d, log, mem, dirty)
    ensures var start := d.info.startAddress;
      (if d.count == 0 then [] else d.firstPage + mem[start + PAGE_SIZE..start + d.count])
      + d.page[..d.pageCount] + d.overflow[..d.overflowCount] == log.stream
  {
    var s, start := log.stream, d.info.startAddress;
    assert s == s[..d.count] + s[d.count..d.count + d.pageCount] + s[d.count + d.pageCount..];
    if d.count > 0 {
      StagedBody(log.base, start, s[..d.count]);
      assert s[..d.count] == s[..d.count][..PAGE_SIZE] + s[..d.count][PAGE_SIZE..];
      assert s[..d.count][..PAGE_SIZE] == s[..PAGE_SIZE];
    }
  }

  lemma StagedBody(base: seq<byte>, start: nat, chunk: seq<byte>)
    requires |chunk| >= PAGE_SIZE && start + |chunk| <= |base|
    ensures Staged(base, start, chunk)[start + PAGE_SIZE..start + |chunk|] == chunk[PAGE_SIZE..]
    ensures BlankPage(Staged(base, start, chunk), start)
  {
  }

  lemma {:induction false} AlignedIsMultiple(n: nat)
    requires Aligned(n)
    ensures n % PAGE_SIZE == 0
  {
    PageOfMasks(n);
    PageOfAligned(n);
  }

  // ---------- The gates ----------

  /** A download request without data starts a manifest exactly when the header has been seen and the
      stream has the length it names; what it says otherwise. */
  lemma ManifestGate(m: Machine, accepted: bool)
    requires Inv(m) && m.state == DownloadIdle
    ensures var n, s := OnSetup(m, RequestDownload, 0, accepted), m.log.stream;
      var whole := |s| >= MINIMUM_SIZE && |s| >= ParseInfo(s).length;
      && (whole ==> n.state == ManifestSync && Acceptable(ParseInfo(s)))
      && (!whole ==> n.state == Error)
      && (n.status == ErrorNotDone <==> MINIMUM_SIZE <= |s| < ParseInfo(s).length)
      && (n.status == ErrorTarget <==> |s| < MINIMUM_SIZE)
      && n.flash == m.flash
  {
    CheckDoneDecides(m);
  }

  /** There is no other way into a manifest: whenever one is pending or under way, the stream carries
      an acceptable header and is as long as it says. */
  lemma ManifestOnlyWhole(m: Machine)
    requires Inv(m) && (m.state == Manifest || (m.state == ManifestSync && !m.download.done))
    ensures var s := m.log.stream;
      |s| >= MINIMUM_SIZE && |s| >= ParseInfo(s).length && Acceptable(ParseInfo(s)) && m.download.info == ParseInfo(s)
  {
  }

  /** One header check per session, at the packet that completes the header; a session that has not
      passed it has asked the flash for nothing. */
  lemma HeaderGate(m: Machine)
    requires Inv(m)
    ensures m.log.headerChecks == if |m.log.stream| >= MINIMUM_SIZE then 1 else 0
    ensures |m.log.stream| < MINIMUM_SIZE || !Acceptable(ParseInfo(m.log.stream)) ==>
      |m.flash.calls| == m.log.mark && m.flash.mem == m.log.base
  {
    if |m.flash.calls| > m.log.mark {
      assert GatedCall(m.flash.calls[m.log.mark], m.log.stream);
    }
  }

  /** Every driver call of a session is at a whole number of pages from the start the header names. */
  lemma CallsInRegion(m: Machine, i: nat)
    requires Inv(m) && m.log.mark <= i < |m.flash.calls|
    ensures var page, start := m.flash.calls[i].page, ParseInfo(m.log.stream).startAddress;
      && |m.log.stream| >= MINIMUM_SIZE && (start == APP_START || start == BOOTLOADER_START)
      && start <= page < start + |m.log.stream| && (page - start) % PAGE_SIZE == 0
  {
    assert GatedCall(m.flash.calls[i], m.log.stream);
    AlignedIsMultiple(m.flash.calls[i].page - ParseInfo(m.log.stream).startAddress);
  }

  /** Only a poll reaches the flash. */
  lemma OnlyPollsTouchFlash(drv: Driver, m: Machine, e: Event)
    requires drv.Sane() && Fitting(m) && (e != Poll || m.state !in {DownloadBusy, Manifest})
    ensures Step(drv, m, e).flash == m.flash
    ensures Step(drv, m, e).log.committed == m.log.committed && Step(drv, m, e).dirty == m.dirty
  {
    match e
    case Setup(request, wLength, accepted) => SetupSparesFlash(m, request, wLength, accepted);
    case Data(bytes) =>
    case SendDone(ok) =>
    case Poll =>
  }

  ghost predicate FlashSpared(m: Machine, n: Machine) {
    n.flash == m.flash && n.log.committed == m.log.committed && n.dirty == m.dirty
  }

  lemma UploadSparesFlash(m: Machine, wLength: uint16, accepted: bool)
    requires Fitting(m)
    ensures FlashSpared(m, StartUpload(m, wLength, accepted)) && FlashSpared(m, UploadChunk(m, wLength, accepted))
  {
  }

  lemma IdleSparesFlash(m: Machine, request: Request, wLength: uint16, accepted: bool)
    requires Fitting(m)
    ensures FlashSpared(m, SetupIdle(m, request, wLength, accepted))
  {
    UploadSparesFlash(m, wLength, accepted);
  }

  lemma DownloadSparesFlash(m: Machine, request: Request, wLength: uint16, accepted: bool)
    requires Fitting(m)
    ensures FlashSpared(m, SetupDownloadSync(m, request, accepted))
    ensures FlashSpared(m, SetupDownloadIdle(m, request, wLength, accepted))
  {
  }

  lemma OthersSpareFlash(m: Machine, request: Request, wLength: uint16, accepted: bool)
    requires Fitting(m)
    ensures FlashSpared(m, SetupManifestSync(m, request, accepted))
    ensures FlashSpared(m, SetupUploadIdle(m, request, wLength, accepted))
    ensures FlashSpared(m, SetupError(m, request, accepted)) && FlashSpared(m, Stall(m))
  {
    UploadSparesFlash(m, wLength, accepted);
  }

  lemma SetupSparesFlash(m: Machine, request: Request, wLength: uint16, accepted: bool)
    requires Fitting(m)
    ensures FlashSpared(m, OnSetup(m, request, wLength, accepted))
  {
    var q := m.(transfer := NoTransfer);
    if m.state == Idle {
      IdleSparesFlash(q, request, wLength, accepted);
    } else if m.state in {DownloadSync, DownloadIdle} {
      DownloadSparesFlash(q, request, wLength, accepted);
    } else {
      OthersSpareFlash(q, request, wLength, accepted);
    }
  }

  /** A program call never meets a byte that is not erased, however long ago the erase was. */
  lemma FlashDiscipline(f: FlashState, events: seq<Event>, i: nat)
    requires FlashControl.Sized(f) && Disciplined(f.calls)
    ensures FLASH.Sane()
    ensures var calls := Run(FLASH, PowerUp(f), events).flash.calls;
      i < |calls| && calls[i].ProgramCall? ==> calls[i].found == Blank(PAGE_SIZE)
  {
    ReachableHolds(f, events);
  }

  // ---------- Dirty ----------

  /** While `dirty` is clear the flash is what it was at the reset or at the end of the last
      successful manifest. */
  lemma CleanMeansCommitted(f: FlashState, events: seq<Event>)
    requires FlashControl.Sized(f) && Disciplined(f.calls)
    ensures FLASH.Sane()
    ensures var n := Run(FLASH, PowerUp(f), events);
      && (!n.dirty ==> n.flash.mem == n.log.committed)
      && (n.state == Detach ==> n.flash.mem == n.log.committed)
  {
    ReachableHolds(f, events);
  }

  /** `committed` is what it claims to be: it changes only where a manifest succeeds, and then to
      the memory that manifest installed. */
  lemma CommittedByManifest(drv: Driver, m: Machine, e: Event)
    requires drv.Honest() && Inv(m)
    ensures var n := Step(drv, m, e);
      n.log.committed != m.log.committed ==> m.state == Manifest && e == Poll && Installed(m, n)
  {
    if e == Poll && m.state == Manifest {
      ManifestOutcome(drv, m);
      FailedCommitsNothing(drv, m);
    } else if e == Poll && m.state == DownloadBusy {
      FlushCommitsNothing(drv, m);
    } else {
      OnlyPollsTouchFlash(drv, m, e);
    }
  }

  lemma FlushCommitsNothing(drv: Driver, m: Machine)
    requires drv.Sane() && Fitting(m)
    ensures Flush(drv, m).log == m.log
  {
  }

  lemma FailedCommitsNothing(drv: Driver, m: Machine)
    requires drv.Sane() && Fitting(m)
    ensures ManifestImage(drv, m).state == Error ==> ManifestImage(drv, m).log == m.log
  {
  }

  // ---------- The whole session ----------

  /** When a manifest succeeds, on any hardware and after any history: the flash is what it was when
      the session began with exactly the received stream installed, and the session has made exactly
      these driver calls, the first page being programmed last. */
  lemma ManifestDelivers(drv: Driver, m: Machine)
    requires drv.Honest() && Inv(m) && m.state == Manifest && OnPoll(drv, m).state != Error
    ensures var n, s := OnPoll(drv, m), m.log.stream;
      var start := ParseInfo(s).startAddress;
      && |s| >= MINIMUM_SIZE && start + PageEnd(|s|) <= |m.log.base|
      && n.flash.mem == Install(m.log.base, start, s)
      && n.log.committed == n.flash.mem && !n.dirty && n.download.done
      && m.log.mark <= |n.flash.calls|
      && n.flash.calls[m.log.mark..] == SessionCalls(start, PageEnd(|s|))
  {
    ManifestReady(m);
    ManifestOutcome(drv, m);
    LastCallsComplete(m);
    var n := OnPoll(drv, m);
    assert n.flash.calls[m.log.mark..] == m.flash.calls[m.log.mark..] + LastCalls(m.download);
  }

  lemma LastCallsComplete(m: Machine)
    requires Ready(m) && Inv(m)
    ensures var d, start := m.download, m.download.info.startAddress;
      PageCalls(start, d.count) + LastCalls(d) == SessionCalls(start, PageEnd(|m.log.stream|))
  {
    LastCallsFor(m.download, m.download.info.startAddress, |m.log.stream|);
  }

  lemma LastCallsFor(d: Download, start: nat, size: nat)
    requires start == d.info.startAddress && size == d.count + d.pageCount && Aligned(d.count) && d.pageCount <= PAGE_SIZE
    requires d.count == 0 ==> d.pageCount > 0
    ensures PageCalls(start, d.count) + LastCalls(d) == SessionCalls(start, PageEnd(size))
  {
    if d.pageCount == 0 {
      PaddedEnd(d.count, 1);
    } else {
      PaddedEnd(d.count, d.pageCount);
      PageCallsGrow(start, d.count);
      FullTail(d, start);
    }
  }

  lemma FullTail(d: Download, start: nat)
    requires start == d.info.startAddress && d.pageCount > 0
    ensures var at, seal := start + d.count, ProgramCall(start, Blank(PAGE_SIZE));
      LastCalls(d) == (if d.count == 0 then [EraseCall(start)] else [EraseCall(at), ProgramCall(at, Blank(PAGE_SIZE))]) + [seal]
  {
  }

  lemma PageCallsGrow(start: nat, count: nat)
    requires Aligned(count)
    ensures var at := start + count;
      PageCalls(start, count + PAGE_SIZE)
      == PageCalls(start, count) + (if count == 0 then [EraseCall(start)] else [EraseCall(at), ProgramCall(at, Blank(PAGE_SIZE))])
  {
  }

  // ---------- A bootloader image that runs into the application ----------

  /** The driver calls for `count` bytes stay below their end and reach up to it. */
  lemma {:induction false} PageCallsReach(start: nat, count: nat)
    requires Aligned(count) && count > 0
    ensures forall i :: 0 <= i < |PageCalls(start, count)| ==> PageCalls(start, count)[i].page <= start + count - PAGE_SIZE
    ensures exists i :: 0 <= i < |PageCalls(start, count)| && PageCalls(start, count)[i].page == start + count - PAGE_SIZE
    ensures count >= PAGE_SIZE
  {
    var calls := PageCalls(start, count);
    AlignedStep(0);
    AlignedGap(0, count);
    if count < 2 * PAGE_SIZE {
      AlignedStep(count - PAGE_SIZE);
      if count > PAGE_SIZE {
        AlignedGap(PAGE_SIZE, count);
      }
      assert calls[0].page == start + count - PAGE_SIZE;
    } else {
      AlignedStep(count - PAGE_SIZE);
      PageCallsReach(start, count - PAGE_SIZE);
      assert calls[|calls| - 1].page == start + count - PAGE_SIZE;
    }
  }

  /** The region of an image is not checked against its length: a bootloader update keeps
      its erases and programs below the application if and only if the image, in whole pages, ends there. */
  lemma BootloaderUpdateSparesApp(drv: Driver, m: Machine)
    requires drv.Honest() && Inv(m) && m.state == Manifest && OnPoll(drv, m).state != Error
    requires ParseInfo(m.log.stream).startAddress == BOOTLOADER_START
    ensures (forall i :: m.log.mark <= i < |OnPoll(drv, m).flash.calls| ==> OnPoll(drv, m).flash.calls[i].page < APP_START)
       <==> BOOTLOADER_START + PageEnd(|m.log.stream|) <= APP_START
  {
    ManifestDelivers(drv, m);
    CallsSpareApp(OnPoll(drv, m).flash.calls, m.log.mark, PageEnd(|m.log.stream|));
  }

  lemma CallsSpareApp(calls: seq<Call>, mark: nat, size: nat)
    requires mark <= |calls| && Aligned(size) && size > 0
    requires calls[mark..] == SessionCalls(BOOTLOADER_START, size)
    ensures (forall i :: mark <= i < |calls| ==> calls[i].page < APP_START) <==> BOOTLOADER_START + size <= APP_START
  {
    var session := PageCalls(BOOTLOADER_START, size);
    PageCallsReach(BOOTLOADER_START, size);
    assert forall i :: mark <= i < |calls| ==> calls[i] == calls[mark..][i - mark];
    if forall i :: mark <= i < |calls| ==> calls[i].page < APP_START {
      var j :| 0 <= j < |session| && session[j].page == BOOTLOADER_START + size - PAGE_SIZE;
      assert calls[mark + j] == calls[mark..][j] == session[j];
      StartsAligned();
      AlignedSum(BOOTLOADER_START, size);
      if BOOTLOADER_START + size > APP_START {
        AlignedGap(APP_START, BOOTLOADER_START + size);
      }
    }
  }
}
