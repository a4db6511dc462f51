/** What holds in every reachable state of the DFU engine, whatever the host sends, whatever the USB
    stack reports and whatever the flash controller does. */
module Invariant {
  import opened Layout
  import opened Bytes
  import opened FlashControl
  import opened DfuMachine

  // ---------- The invariant ----------

  /** A download session that has neither failed nor finished. */
  predicate InSession(m: Machine) {
    || m.state in {DownloadSync, DownloadBusy, DownloadIdle, Manifest}
    || (m.state == ManifestSync && !m.download.done)
  }

  predicate Acceptable(info: Info) {
    info.magic == BOOTLOADER_MAGIC && (info.startAddress == APP_START || info.startAddress == BOOTLOADER_START)
  }

  /** The buffers hold exactly the part of the stream that is not in flash, plus the first page. */
  ghost predicate Buffered(d: Download, stream: seq<byte>)
    requires |d.page| == PAGE_SIZE && |d.overflow| == PACKET_SIZE
  {
    && d.pageCount <= PAGE_SIZE && d.overflowCount < PACKET_SIZE
    && |stream| == d.count + d.pageCount + d.overflowCount
    && Aligned(d.count)
    && (d.pageWaiting <==> d.pageCount == PAGE_SIZE)
    && (d.overflowCount > 0 ==> d.pageWaiting)
    && stream[d.count..d.count + d.pageCount] == d.page[..d.pageCount]
    && stream[d.count + d.pageCount..] == d.overflow[..d.overflowCount]
    && (d.count > 0 ==> stream[..PAGE_SIZE] == d.firstPage)
  }

  /** The header on record is the one in the stream, once the stream carries one. */
  ghost predicate HeaderKnown(d: Download, stream: seq<byte>) {
    if |stream| >= MINIMUM_SIZE then d.info == ParseInfo(stream) && Acceptable(d.info)
    else d.info.magic == 0 && d.info.length == 0
  }

  /** Memory in mid-session, when `chunk`, whole pages of the image, has been flushed: the first
      page is blank, the others are in place, and nothing else has changed. */
  function Staged(base: seq<byte>, start: nat, chunk: seq<byte>): (r: seq<byte>)
    requires chunk != [] ==> |chunk| >= PAGE_SIZE && start + |chunk| <= |base|
    ensures |r| == |base|
  {
    if chunk == [] then base else Splice(base, start, Blank(PAGE_SIZE) + chunk[PAGE_SIZE..])
  }

  ghost predicate OnFlash(d: Download, log: Log, mem: seq<byte>, dirty: bool) {
    && |log.base| == FLASH_END
    && d.count <= |log.stream|
    && (d.count > 0 ==> dirty && d.count >= PAGE_SIZE && d.info.startAddress + d.count <= FLASH_END)
    && mem == Staged(log.base, d.info.startAddress, log.stream[..d.count])
  }

  /** The driver calls of a session that has flushed `count` bytes, in order. */
  function PageCalls(start: nat, count: nat): seq<Call> {
    if count < PAGE_SIZE then []
    else if count < 2 * PAGE_SIZE then [EraseCall(start)]
    else
      var page := start + count - PAGE_SIZE;
      PageCalls(start, count - PAGE_SIZE) + [EraseCall(page), ProgramCall(page, Blank(PAGE_SIZE))]
  }

  ghost predicate CallsKnown(d: Download, log: Log, calls: seq<Call>) {
    && log.mark <= |calls|
    && calls[log.mark..] == PageCalls(d.info.startAddress, d.count)
  }

  /** What a session knows, whichever of its states it is in. */
  ghost predicate SessionData(d: Download, log: Log, flash: FlashState, dirty: bool) {
    && |d.page| == PAGE_SIZE && |d.overflow| == PACKET_SIZE
    && !d.done
    && Buffered(d, log.stream)
    && HeaderKnown(d, log.stream)
    && OnFlash(d, log, flash.mem, dirty)
    && CallsKnown(d, log, flash.calls)
  }

  predicate SessionPhase(state: State, d: Download, received: nat) {
    && (state == DownloadBusy ==> d.pageWaiting)
    && (state in {DownloadIdle, ManifestSync, Manifest} ==> !d.pageWaiting)
    && (state in {ManifestSync, Manifest} ==> received >= MINIMUM_SIZE && received >= d.info.length)
  }

  ghost predicate GatedCall(call: Call, stream: seq<byte>) {
    && |stream| >= MINIMUM_SIZE
    && Acceptable(ParseInfo(stream))
    && call.page >= ParseInfo(stream).startAddress
    && Aligned(call.page - ParseInfo(stream).startAddress)
    && call.page - ParseInfo(stream).startAddress < |stream|
  }

  /** Every call of the session lies in the region its accepted header names. */
  ghost predicate Gated(log: Log, calls: seq<Call>) {
    && log.mark <= |calls|
    && forall i :: log.mark <= i < |calls| ==> GatedCall(calls[i], log.stream)
  }

  /** Nothing is ever programmed over bytes that are not erased. */
  ghost predicate Disciplined(calls: seq<Call>) {
    forall i :: 0 <= i < |calls| && calls[i].ProgramCall? ==> calls[i].found == Blank(PAGE_SIZE)
  }

  /** What has been submitted is what flash holds, from the bootloader on. */
  ghost predicate Submitted(u: Upload, uploaded: seq<byte>, mem: seq<byte>) {
    && u.transmitCount <= u.totalLen
    && (BOOTLOADER_START + u.totalLen <= |mem| ==>
          uploaded == mem[BOOTLOADER_START..BOOTLOADER_START + u.transmitCount])
  }

  ghost predicate Uploading(u: Upload, uploaded: seq<byte>, mem: seq<byte>) {
    && |mem| == FLASH_END
    && u.totalLen == UploadLength(mem)
    && Submitted(u, uploaded, mem)
  }

  ghost predicate Inv(m: Machine) {
    && Fitting(m)
    && (m.state == Error <==> m.status != OK)
    && (m.transfer.Receiving? ==> m.state == DownloadSync && !m.download.pageWaiting)
    && (m.state == Detach ==> m.transfer == NoTransfer && !m.dirty)
    && (!m.dirty ==> m.flash.mem == m.log.committed)
    && (|m.flash.calls| == m.log.mark ==> m.flash.mem == m.log.base)
    && m.log.headerChecks == (if |m.log.stream| >= MINIMUM_SIZE then 1 else 0)
    && Gated(m.log, m.flash.calls)
    && Disciplined(m.flash.calls)
    && (InSession(m) ==>
          SessionData(m.download, m.log, m.flash, m.dirty) && SessionPhase(m.state, m.download, |m.log.stream|))
    && (m.state == UploadIdle ==> Uploading(m.upload, m.log.uploaded, m.flash.mem))
  }

  // ---------- Setup packets ----------

  /** Moves that change nothing but the protocol state keep the invariant if they fit the phase. */
  lemma MoveKeeps(m: Machine, n: Machine)
    requires Inv(m) && n == m.(state := n.state, status := n.status, transfer := n.transfer)
    requires n.state == Error <==> n.status != OK
    requires n.transfer.Receiving? ==> n.state == DownloadSync && !n.download.pageWaiting
    requires InSession(n) ==> InSession(m) && SessionPhase(n.state, n.download, |n.log.stream|)
    requires n.state == UploadIdle ==> m.state == UploadIdle
    requires n.state == Detach ==> n.transfer == NoTransfer && !n.dirty
    ensures Inv(n)
  {
  }

  lemma StartKeeps(m: Machine, wLength: nat, accepted: bool)
    requires Inv(m) && m.state == Idle
    ensures Inv(Receive(Enter(StartDownload(m), DownloadSync), wLength, accepted))
  {
    var n := Receive(Enter(StartDownload(m), DownloadSync), wLength, accepted);
    AlignedStep(0);
    assert n.log.stream[..0] == [];
    assert n.flash.calls[n.log.mark..] == [];
  }

  lemma ChunkSubmits(m: Machine, wLength: uint16, accepted: bool)
    requires Fitting(m) && Submitted(m.upload, m.log.uploaded, m.flash.mem) && !m.transfer.Receiving?
    ensures var n := UploadChunk(m, wLength, accepted);
      && n == m.(state := n.state, status := n.status, transfer := n.transfer, upload := n.upload, log := n.log)
      && n.log == m.log.(uploaded := n.log.uploaded)
      && n.upload.totalLen == m.upload.totalLen
      && n.state == (if accepted then UploadIdle else Error)
      && (n.state == Error <==> n.status != OK) && !n.transfer.Receiving?
      && (accepted ==> Submitted(n.upload, n.log.uploaded, n.flash.mem))
  {
    if accepted {
      ChunkExtends(m, wLength);
    }
  }

  lemma ChunkExtends(m: Machine, wLength: uint16)
    requires Fitting(m) && Submitted(m.upload, m.log.uploaded, m.flash.mem)
    ensures var n := UploadChunk(m, wLength, true); Submitted(n.upload, n.log.uploaded, n.flash.mem)
  {
    var n := UploadChunk(m, wLength, true);
    if BOOTLOADER_START + m.upload.totalLen <= |m.flash.mem| {
      var from, to := BOOTLOADER_START + m.upload.transmitCount, BOOTLOADER_START + n.upload.transmitCount;
      assert ReadBytes(m.flash.mem, from, to - from) == m.flash.mem[from..to];
    }
  }

  lemma UploadKeeps(m: Machine, n: Machine)
    requires Inv(m) && Fitting(n) && !InSession(n) && n.state != Detach
    requires n == m.(state := n.state, status := n.status, transfer := n.transfer, upload := n.upload, log := n.log)
    requires n.log == m.log.(uploaded := n.log.uploaded)
    requires (n.state == Error <==> n.status != OK) && !n.transfer.Receiving?
    requires n.state == UploadIdle ==> Uploading(n.upload, n.log.uploaded, n.flash.mem)
    ensures Inv(n)
  {
  }

  lemma StartUploadKeeps(m: Machine, wLength: uint16, accepted: bool)
    requires Inv(m) && m.state == Idle && m.transfer == NoTransfer
    ensures Inv(StartUpload(m, wLength, accepted))
  {
    ChunkSubmits(m.(upload := Upload(0, UploadLength(m.flash.mem), 0), log := m.log.(uploaded := [])), wLength, accepted);
    UploadKeeps(m, StartUpload(m, wLength, accepted));
  }

  /** An answer to a request that starts nothing. */
  predicate IdleMove(m: Machine, n: Machine) {
    && n == m.(state := n.state, status := n.status, transfer := n.transfer)
    && n.state in {Idle, Error, Detach} && (n.state == Error <==> n.status != OK)
    && !n.transfer.Receiving?
    && (n.state == Detach ==> n.transfer == NoTransfer && !n.dirty)
  }

  lemma IdleMoves(m: Machine, request: Request, wLength: uint16, accepted: bool)
    requires Fitting(m) && m.state == Idle && m.status == OK && m.transfer == NoTransfer
    requires request !in {RequestDownload, RequestUpload} || wLength == 0
    ensures IdleMove(m, SetupIdle(m, request, wLength, accepted))
  {
  }

  lemma SetupIdleKeeps(m: Machine, request: Request, wLength: uint16, accepted: bool)
    requires Inv(m) && m.state == Idle && m.transfer == NoTransfer
    ensures Inv(SetupIdle(m, request, wLength, accepted))
  {
    if request == RequestDownload && wLength > 0 {
      StartKeeps(m, wLength, accepted);
    } else if request == RequestUpload && wLength > 0 {
      StartUploadKeeps(m, wLength, accepted);
    } else {
      IdleMoves(m, request, wLength, accepted);
      MoveKeeps(m, SetupIdle(m, request, wLength, accepted));
    }
  }

  lemma SetupUploadKeeps(m: Machine, request: Request, wLength: uint16, accepted: bool)
    requires Inv(m) && m.state == UploadIdle && m.transfer == NoTransfer
    ensures Inv(SetupUploadIdle(m, request, wLength, accepted))
  {
    var n := SetupUploadIdle(m, request, wLength, accepted);
    if request == RequestUpload && wLength > 0 {
      ChunkSubmits(m, wLength, accepted);
      UploadKeeps(m, n);
    } else {
      MoveKeeps(m, n);
    }
  }

  lemma StreamCounted(d: Download, log: Log, mem: seq<byte>, dirty: bool)
    requires |d.page| == PAGE_SIZE && |d.overflow| == PACKET_SIZE
    requires Buffered(d, log.stream) && OnFlash(d, log, mem, dirty)
    ensures |log.stream| == d.count + d.pageCount + d.overflowCount
    ensures d.count <= FLASH_END && |log.stream| < TWO_TO_THE_32
    ensures !d.pageWaiting ==> |log.stream| == d.count + d.pageCount
  {
  }

  /** CheckDone decides exactly whether the stream is long enough for a manifest. */
  lemma CheckDoneDecides(m: Machine)
    requires Inv(m) && m.state == DownloadIdle
    ensures CheckDone(m.download) ==
      if |m.log.stream| < m.download.info.length then ErrorNotDone
      else if |m.log.stream| < MINIMUM_SIZE then ErrorTarget else OK
  {
    StreamCounted(m.download, m.log, m.flash.mem, m.dirty);
  }

  lemma SetupDownloadIdleKeeps(m: Machine, request: Request, wLength: uint16, accepted: bool)
    requires Inv(m) && m.state == DownloadIdle && m.transfer == NoTransfer
    ensures Inv(SetupDownloadIdle(m, request, wLength, accepted))
  {
    CheckDoneDecides(m);
    MoveKeeps(m, SetupDownloadIdle(m, request, wLength, accepted));
  }

  lemma SetupDownloadSyncKeeps(m: Machine, request: Request, accepted: bool)
    requires Inv(m) && m.transfer == NoTransfer && m.state == DownloadSync
    ensures Inv(SetupDownloadSync(m, request, accepted))
  {
    MoveKeeps(m, SetupDownloadSync(m, request, accepted));
  }

  lemma SetupManifestSyncKeeps(m: Machine, request: Request, accepted: bool)
    requires Inv(m) && m.transfer == NoTransfer && m.state == ManifestSync
    ensures Inv(SetupManifestSync(m, request, accepted))
  {
    MoveKeeps(m, SetupManifestSync(m, request, accepted));
  }

  lemma SetupErrorKeeps(m: Machine, request: Request, accepted: bool)
    requires Inv(m) && m.transfer == NoTransfer && m.state == Error
    ensures Inv(SetupError(m, request, accepted))
  {
    MoveKeeps(m, SetupError(m, request, accepted));
  }

  lemma StallKeeps(m: Machine)
    requires Inv(m) && m.transfer == NoTransfer
    ensures Inv(Stall(m))
  {
    MoveKeeps(m, Stall(m));
  }

  lemma SetupElsewhereKeeps(m: Machine, n: Machine, request: Request, accepted: bool)
    requires Inv(m) && m.transfer == NoTransfer
    requires
      || (m.state == DownloadSync && n == SetupDownloadSync(m, request, accepted))
      || (m.state == ManifestSync && n == SetupManifestSync(m, request, accepted))
      || (m.state == Error && n == SetupError(m, request, accepted))
      || n == Stall(m) || n == m
    ensures Inv(n)
  {
    if n == Stall(m) {
      StallKeeps(m);
    } else if n == m {
    } else if m.state == DownloadSync {
      SetupDownloadSyncKeeps(m, request, accepted);
    } else if m.state == ManifestSync {
      SetupManifestSyncKeeps(m, request, accepted);
    } else {
      SetupErrorKeeps(m, request, accepted);
    }
  }

  /** dfu_state_machine keeps the invariant: the pending transfer ends, then the state decides. */
  lemma SetupKeeps(m: Machine, request: Request, wLength: uint16, accepted: bool)
    requires Inv(m)
    ensures Inv(OnSetup(m, request, wLength, accepted))
  {
    var q := m.(transfer := NoTransfer);
    MoveKeeps(m, q);
    if m.state == Idle {
      SetupIdleKeeps(q, request, wLength, accepted);
    } else if m.state == UploadIdle {
      SetupUploadKeeps(q, request, wLength, accepted);
    } else if m.state == DownloadIdle {
      SetupDownloadIdleKeeps(q, request, wLength, accepted);
    } else {
      SetupElsewhereKeeps(q, OnSetup(m, request, wLength, accepted), request, accepted);
    }
  }

  lemma SendDoneKeeps(m: Machine, ok: bool)
    requires Inv(m)
    ensures Inv(OnSendDone(m, ok))
  {
    MoveKeeps(m, OnSendDone(m, ok));
  }
}
