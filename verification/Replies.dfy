/** What the host sees: how much the engine takes, what it answers, and which error it reports. */
module Replies {
  import opened Layout
  import opened FlashControl
  import opened DfuMachine
  import opened Invariant
  import opened InvariantSteps
  import opened ManifestSteps

  // ---------- Packets ----------

  /** A host that asks to send `w` bytes and sends some of them is taken at its word: all of them join
      the stream, in a new session if the engine was idle. */
  lemma PacketTaken(m: Machine, w: uint16, b: seq<byte>)
    requires Inv(m) && m.state in {Idle, DownloadIdle} && 0 < |b| <= w && |b| <= 64
    ensures OnData(OnSetup(m, RequestDownload, w, true), b).log.stream == (if m.state == Idle then [] else m.log.stream) + b
    ensures OnSetup(m, RequestDownload, w, true).transfer == Receiving(w)
  {
    var asked := OnSetup(m, RequestDownload, w, true);
    TakenIn(asked, w, b);
  }

  lemma TakenIn(m: Machine, w: nat, b: seq<byte>)
    requires Fitting(m) && m.transfer == Receiving(w) && |b| <= w && |b| <= PACKET_SIZE
    ensures OnData(m, b).log.stream == m.log.stream + b && OnData(m, b).transfer == NoTransfer
  {
    StreamTakes(m.(transfer := NoTransfer), b);
  }

  lemma StreamTakes(m: Machine, b: seq<byte>)
    requires Fitting(m) && |b| <= PACKET_SIZE
    ensures PacketIn(m, b).log.stream == m.log.stream + b && PacketIn(m, b).transfer == m.transfer
  {
  }

  /** Without such a request, or when the endpoint refuses it, a packet changes nothing. */
  lemma PacketIgnored(m: Machine, w: uint16, b: seq<byte>)
    requires Fitting(m)
    ensures !m.transfer.Receiving? ==> OnData(m, b) == m
    ensures !OnSetup(m, RequestDownload, w, false).transfer.Receiving?
  {
  }

  // ---------- Answers ----------

  /** How long the host is asked to wait, in milliseconds. */
  function Wait(state: State): nat {
    match state
    case DownloadBusy => 700
    case Manifest => 1200
    case _ => 0
  }

  /** The answer to GETSTATUS is the status and the state that the engine is in from then on. */
  lemma StatusAnswered(m: Machine, w: uint16)
    requires Fitting(m) && m.state !in {DownloadBusy, Manifest, Detach}
    ensures var n := OnSetup(m, RequestGetStatus, w, true);
      n.transfer == Transfer.Sending(StatusReply(n.status, Wait(n.state), n.state))
    ensures m.state in {Idle, DownloadIdle, UploadIdle, State.Error} ==>
      OnSetup(m, RequestGetStatus, w, true).status == m.status && OnSetup(m, RequestGetStatus, w, true).state == m.state
  {
  }

  /** The answer to GETSTATE is the state, which does not change. */
  lemma StateAnswered(m: Machine, w: uint16)
    requires Fitting(m) && m.state !in {DownloadBusy, Manifest, Detach}
    ensures OnSetup(m, RequestGetState, w, true) == m.(transfer := Transfer.Sending(StateReply(m.state)))
  {
  }

  /** The requests that are answered with data, or ask for it. */
  predicate Transfers(state: State, request: Request, withData: bool) {
    match request
    case RequestGetStatus => state !in {DownloadBusy, Manifest, Detach}
    case RequestGetState => state !in {DownloadBusy, Manifest, Detach}
    case RequestDownload => withData && state in {Idle, DownloadIdle}
    case RequestUpload => withData && state in {Idle, UploadIdle}
    case _ => false
  }

  /** Every other request ends the pending transfer, and so does one that the endpoint refuses. */
  lemma NothingPending(m: Machine, request: Request, w: uint16, accepted: bool)
    requires Fitting(m) && (!accepted || !Transfers(m.state, request, w > 0))
    ensures OnSetup(m, request, w, accepted).transfer == NoTransfer
  {
  }

  // ---------- Errors ----------

  /** The requests that a state does not take. */
  predicate Refuses(state: State, request: Request, withData: bool) {
    match state
    case Idle => request in {RequestClearStatus, RequestOther} || (request in {RequestDownload, RequestUpload} && !withData)
    case DownloadSync => request !in {RequestGetStatus, RequestGetState}
    case DownloadBusy => true
    case DownloadIdle => request !in {RequestDownload, RequestAbort, RequestGetStatus, RequestGetState}
    case ManifestSync => request !in {RequestGetStatus, RequestGetState}
    case Manifest => true
    case UploadIdle => request !in {RequestUpload, RequestAbort, RequestGetStatus, RequestGetState}
    case Error => request !in {RequestGetStatus, RequestGetState, RequestClearStatus}
    case Detach => false
  }

  /** They stall, and change nothing else. */
  lemma RefusedStalls(m: Machine, request: Request, w: uint16, accepted: bool)
    requires Fitting(m) && Refuses(m.state, request, w > 0)
    ensures OnSetup(m, request, w, accepted) == m.(state := State.Error, status := ErrorStalledPacket, transfer := NoTransfer)
  {
  }

  /** A clean engine detaches; one with a partial update reports a firmware error instead. */
  lemma DetachAnswered(m: Machine, w: uint16, accepted: bool)
    requires Fitting(m) && m.state == Idle
    ensures var n := OnSetup(m, RequestDetach, w, accepted);
      n == if m.dirty then m.(state := State.Error, status := ErrorFirmware, transfer := NoTransfer)
           else m.(state := State.Detach, status := OK, transfer := NoTransfer)
  {
  }

  /** Aborts and cleared errors lead back to Idle, and change nothing else. */
  lemma BackToIdle(m: Machine, request: Request, w: uint16, accepted: bool)
    requires Fitting(m)
    requires
      || (request == RequestAbort && m.state in {DownloadIdle, UploadIdle})
      || (request == RequestClearStatus && m.state == State.Error)
    ensures OnSetup(m, request, w, accepted) == m.(state := Idle, status := OK, transfer := NoTransfer)
  {
  }

  /** Requests leave the session alone, but for a download that begins one... */
  lemma RequestsSpareDownload(m: Machine, request: Request, w: uint16, accepted: bool)
    requires Fitting(m) && !(m.state == Idle && request == RequestDownload && w > 0)
    ensures var n := OnSetup(m, request, w, accepted);
      n.download == m.download && n.log.stream == m.log.stream && n.log.base == m.log.base
  {
    UploadSparesDownload(m.(transfer := NoTransfer), w, accepted);
  }

  /** ... and the upload, but for one that is served. */
  lemma RequestsSpareUpload(m: Machine, request: Request, w: uint16, accepted: bool)
    requires Fitting(m) && !(m.state in {Idle, UploadIdle} && request == RequestUpload && w > 0)
    ensures OnSetup(m, request, w, accepted).upload == m.upload
  {
  }

  lemma UploadSparesDownload(m: Machine, w: uint16, accepted: bool)
    requires Fitting(m)
    ensures StartUpload(m, w, accepted).download == m.download && UploadChunk(m, w, accepted).download == m.download
    ensures StartUpload(m, w, accepted).log == m.log.(uploaded := StartUpload(m, w, accepted).log.uploaded)
    ensures UploadChunk(m, w, accepted).log == m.log.(uploaded := UploadChunk(m, w, accepted).log.uploaded)
  {
  }

  /** An idle engine takes an abort, and a detached one any request, without doing anything; so does an
      upload that is asked for nothing. */
  lemma NothingDone(m: Machine, request: Request, w: uint16, accepted: bool)
    requires Fitting(m)
    requires
      || (m.state == Idle && request == RequestAbort) || m.state == Detach
      || (m.state == UploadIdle && request == RequestUpload && w == 0)
    ensures OnSetup(m, request, w, accepted) == m.(transfer := NoTransfer)
  {
  }

  /** A completion ends the transfer; a failed one is an unknown error, a good one nothing more. */
  lemma CompletionOutcome(m: Machine, ok: bool)
    requires Fitting(m)
    ensures OnSendDone(m, ok) ==
      if !m.transfer.Sending? then m
      else if ok then m.(transfer := NoTransfer)
      else m.(transfer := NoTransfer, state := State.Error, status := ErrorUnknown)
  {
  }

  /** An upload that the endpoint refuses is an unknown error, and counts the bytes all the same. */
  lemma UploadRefused(m: Machine, w: uint16)
    requires Fitting(m) && m.state == UploadIdle && w > 0 && m.upload.transmitCount + w < 0x1_0000_0000
    ensures var n := OnSetup(m, RequestUpload, w, false);
      && n.state == State.Error && n.status == ErrorUnknown && n.upload.totalLen == m.upload.totalLen
      && n.upload.transmitCount ==
         if m.upload.transmitCount + w <= m.upload.totalLen then m.upload.transmitCount + w else m.upload.totalLen
  {
  }

  /** Served or refused, an upload counts its requests in 32 bits, from one on. */
  lemma UploadNumbered(m: Machine, w: uint16, accepted: bool)
    requires Fitting(m) && w > 0
    ensures m.state == Idle ==> OnSetup(m, RequestUpload, w, accepted).upload.sequenceNum == 1
    ensures m.state == UploadIdle && m.upload.sequenceNum < 0x1_0000_0000 ==>
      OnSetup(m, RequestUpload, w, accepted).upload.sequenceNum
      == if m.upload.sequenceNum == 0xFFFF_FFFF then 0 else m.upload.sequenceNum + 1
  {
  }

  /** A packet that completes a bad header: a wrong magic is a target error, a wrong start address a file
      error. */
  lemma HeaderErrors(m: Machine, b: seq<byte>)
    requires Inv(m) && m.transfer.Receiving? && |b| <= m.transfer.limit && |b| <= 64
    requires |m.log.stream| < MINIMUM_SIZE <= |m.log.stream + b|
    ensures var n, info := OnData(m, b), ParseInfo(m.log.stream + b);
      && (n.status == ErrorTarget <==> info.magic != 0x424F_4F54)
      && (n.status == ErrorFile <==> info.magic == 0x424F_4F54 && info.startAddress != APP_START && info.startAddress != BOOTLOADER_START)
      && (n.status == OK <==> n.state == DownloadSync)
  {
    var q := m.(transfer := NoTransfer);
    HeaderStep(m.download, m.log, b, Buffer(m.download, b));
    HeaderStatus(q, b);
  }

  lemma HeaderStatus(m: Machine, b: seq<byte>)
    requires Fitting(m) && |b| <= PACKET_SIZE && m.state == DownloadSync && m.status == OK
    requires var e := Buffer(m.download, b); e.count == 0 && e.pageCount >= MINIMUM_SIZE && m.download.pageCount < MINIMUM_SIZE
    ensures var n, info := PacketIn(m, b), ParseInfo(Buffer(m.download, b).page);
      && (n.status == ErrorTarget <==> info.magic != BOOTLOADER_MAGIC)
      && (n.status == ErrorFile <==> info.magic == BOOTLOADER_MAGIC && info.startAddress != APP_START && info.startAddress != BOOTLOADER_START)
      && (n.status == OK <==> n.state == DownloadSync)
  {
  }

  // ---------- Flash errors ----------

  /** The errors that a driver call may report. */
  predicate Reported(call: Call, status: Status) {
    match call
    case EraseCall(_) => status in {ErrorErase, ErrorCheckErased}
    case ProgramCall(_, _) => status in {ErrorProgram, ErrorVerify}
  }

  ghost predicate Reports(drv: Driver) {
    && drv.Honest()
    && (forall f, at: nat {:trigger drv.erase(f, at)} :: FlashControl.Sized(f) && Aligned(at) ==>
          drv.erase(f, at).1 == OK || Reported(EraseCall(at), drv.erase(f, at).1))
    && (forall f, at: nat, data {:trigger drv.program(f, at, data)} :: FlashControl.Sized(f) && Aligned(at) && |data| == PAGE_SIZE ==>
          drv.program(f, at, data).1 == OK || Reported(ProgramCall(at, []), drv.program(f, at, data).1))
  }

  lemma FlashReports()
    ensures Reports(FLASH)
  {
    FlashIsHonest();
    forall f, at: nat {:trigger FLASH.erase(f, at)} | FlashControl.Sized(f) && Aligned(at)
      ensures FLASH.erase(f, at).1 == OK || Reported(EraseCall(at), FLASH.erase(f, at).1)
    {
      var (g, status) := Erase(f, at);
      EraseContract(f, at, g, status);
    }
    forall f, at: nat, data {:trigger FLASH.program(f, at, data)} | FlashControl.Sized(f) && Aligned(at) && |data| == PAGE_SIZE
      ensures FLASH.program(f, at, data).1 == OK || Reported(ProgramCall(at, []), FLASH.program(f, at, data).1)
    {
      var (g, status) := Program(f, at, data);
      ProgramContract(f, at, data, g, status);
    }
  }

  /** The last driver call has gone wrong, and its error is the engine's. */
  ghost predicate Blames(n: Machine) {
    n.flash.calls != [] && Reported(n.flash.calls[|n.flash.calls| - 1], n.status)
  }

  lemma FlushBlames(drv: Driver, m: Machine)
    requires Reports(drv) && Inv(m) && m.state == DownloadBusy && OnPoll(drv, m).state == State.Error
    ensures Blames(OnPoll(drv, m))
  {
    PageAddressKnown(m);
    var at := PageAddress(m.download);
    var (f, status) := drv.erase(m.flash, at);
    assert Erased(m.flash, at, f, status);
    if status == OK && m.download.count > 0 {
      var dirty := m.(dirty := true);
      SpliceBlank(m.flash.mem, at);
      BusyPrograms(drv, dirty, f);
      var (g, programmed) := drv.program(f, at, m.download.page);
      assert Programmed(f, at, m.download.page, g, programmed);
    }
  }

  lemma SealBlames(drv: Driver, m: Machine, image: seq<byte>)
    requires Reports(drv) && Sealable(m, image) && SealImage(drv, m).state == State.Error
    ensures Blames(SealImage(drv, m))
  {
    var start := m.download.info.startAddress;
    StagedIsBlank(m.log.base, start, image);
    var (g, status) := drv.program(m.flash, start, m.download.firstPage);
    assert Programmed(m.flash, start, m.download.firstPage, g, status);
  }

  lemma ShortBlames(drv: Driver, m: Machine)
    requires Reports(drv) && Ready(m) && m.download.count == 0 && ManifestImage(drv, m).state == State.Error
    ensures Blames(ManifestImage(drv, m))
  {
    var start := m.download.info.startAddress;
    var (f, status) := drv.erase(m.flash, start);
    assert Erased(m.flash, start, f, status);
    if status == OK {
      CallsAt(m.log, m.flash.calls, m.download);
      ShortSealable(m, f);
      SealBlames(drv, HoldBack(m).(flash := f), PaddedImage(m.log.stream));
    }
  }

  lemma TailBlames(drv: Driver, m: Machine)
    requires Reports(drv) && Ready(m) && m.download.count > 0 && m.download.pageCount > 0
    requires ManifestImage(drv, m).state == State.Error
    ensures Blames(ManifestImage(drv, m))
  {
    var at := m.download.info.startAddress + m.download.count;
    var (f, status) := drv.erase(m.flash, at);
    TailErases(drv, m, at);
    assert Erased(m.flash, at, f, status);
    if status == OK {
      TailProgramBlames(drv, m, at, f);
    }
  }

  lemma TailProgramBlames(drv: Driver, m: Machine, at: nat, f: FlashState)
    requires Reports(drv) && Ready(m) && m.download.count > 0 && m.download.pageCount > 0
    requires at == m.download.info.startAddress + m.download.count && Erased(m.flash, at, f, OK)
    requires AfterLastErase(drv, WithLastPage(m), f, OK).state == State.Error
    ensures Blames(AfterLastErase(drv, WithLastPage(m), f, OK))
  {
    var last := Padded(m.download.page, m.download.pageCount);
    SpliceBlank(m.flash.mem, at);
    var (g, status) := drv.program(f, at, last);
    TailPrograms(drv, m, f, at);
    assert Programmed(f, at, last, g, status);
    if status == OK {
      CallsAt(m.log, m.flash.calls, m.download);
      TailSealable(m, f, g);
      SealBlames(drv, WithLastPage(m).(flash := g), PaddedImage(m.log.stream));
    }
  }

  lemma ManifestBlames(drv: Driver, m: Machine)
    requires Reports(drv) && Inv(m) && m.state == Manifest && OnPoll(drv, m).state == State.Error
    ensures Blames(OnPoll(drv, m))
  {
    ManifestReady(m);
    if m.download.count == 0 {
      ShortBlames(drv, m);
    } else if m.download.pageCount == 0 {
      WholePages(m.download, m.log.stream);
      SealBlames(drv, m, m.log.stream);
    } else {
      TailBlames(drv, m);
    }
  }

  /** When a poll fails, the engine reports the error of the last driver call: an erase that could not
      be done or was not clean, a program that could not be done or reads back differently. */
  lemma PollBlames(drv: Driver, m: Machine)
    requires Reports(drv) && Inv(m) && m.state in {DownloadBusy, Manifest} && OnPoll(drv, m).state == State.Error
    ensures Blames(OnPoll(drv, m))
  {
    if m.state == Manifest {
      ManifestBlames(drv, m);
    } else {
      FlushBlames(drv, m);
    }
  }
}
