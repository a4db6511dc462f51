/** The DFU engine as the source writes it: one mutable object, buffers copied into in place. Every
    method is proved to take exactly the step that DfuMachine describes. */
module DfuDevice {
  import opened Layout
  import opened Bytes
  import opened FlashControl
  import opened FlashDevice
  import opened DfuMachine

  /** memcpy. */
  method Copy(dst: array<byte>, at: nat, src: seq<byte>)
    requires at + |src| <= dst.Length
    modifies dst
    ensures dst[..] == Splice(old(dst[..]), at, src)
  {
    var i := 0;
    while i < |src|
      invariant 0 <= i <= |src|
      invariant forall j :: 0 <= j < dst.Length ==> dst[j] == if at <= j < at + i then src[j - at] else old(dst[j])
    {
      dst[at + i] := src[i];
      i := i + 1;
    }
  }

  /** memset with 0xFF, from `from` to the end. */
  method FillErased(dst: array<byte>, from: nat)
    requires from <= dst.Length == PAGE_SIZE
    modifies dst
    ensures dst[..] == Padded(old(dst[..]), from)
  {
    var i := from;
    while i < dst.Length
      invariant from <= i <= dst.Length
      invariant forall j :: 0 <= j < dst.Length ==> dst[j] == if from <= j < i then ERASED else old(dst[j])
    {
      dst[i] := ERASED;
      i := i + 1;
    }
  }

  /** The scalar fields of struct dfu_download. */
  datatype Counters = Counters(
    pageWaiting: bool, count: nat, pageCount: nat, overflowCount: nat, appUpdate: bool, done: bool, info: Info)

  function WithBuffers(c: Counters, page: seq<byte>, firstPage: seq<byte>, overflow: seq<byte>): Download {
    Download(page, firstPage, overflow, c.pageWaiting, c.count, c.pageCount, c.overflowCount, c.appUpdate, c.done, c.info)
  }

  class Dfu {
    var state: State
    var status: Status
    var dirty: bool
    var transfer: Transfer

    // struct dfu_download
    const page: array<byte>
    const firstPage: array<byte>
    const overflow: array<byte>
    var download: Counters

    var upload: Upload

    const flash: Flash
    ghost var log: Log

    ghost function View(): Machine
      reads this, page, firstPage, overflow, flash
    {
      Machine(
        state, status,
        WithBuffers(download, page[..], firstPage[..], overflow[..]),
        upload, transfer, dirty, flash.View(), log)
    }

    ghost predicate Valid()
      reads this, page, firstPage, overflow, flash
    {
      && page != firstPage && page != overflow && firstPage != overflow
      && Fitting(View())
    }

    /** Power-up: dfu_init on zeroed memory. */
    constructor (flash: Flash)
      requires flash.Valid()
      ensures Valid() && this.flash == flash && fresh(page) && fresh(firstPage) && fresh(overflow)
      ensures View() == PowerUp(flash.View())
    {
      this.flash := flash;
      state, status, dirty, transfer := Idle, OK, false, NoTransfer;
      page := new byte[PAGE_SIZE](_ => 0);
      firstPage := new byte[PAGE_SIZE](_ => 0);
      overflow := new byte[PACKET_SIZE](_ => 0);
      download := Counters(false, 0, 0, 0, false, false, Info(0, 0, 0, 0));
      upload := Upload(0, 0, 0);
      log := Log([], 0, flash.mem, |flash.calls|, flash.mem, []);
      new;
      assert page[..] == Zeros(PAGE_SIZE) && firstPage[..] == Zeros(PAGE_SIZE) && overflow[..] == Zeros(PACKET_SIZE);
    }

    // ---------- Download ----------

    /** dfu_download_start. */
    method DownloadStart()
      requires Valid()
      modifies this
      ensures Valid() && View() == StartDownload(old(View()))
    {
      var cleared := download.info.(magic := 0, length := 0);
      download := Counters(false, 0, 0, 0, false, false, cleared);
      log := log.(stream := [], headerChecks := 0, base := flash.mem, mark := |flash.calls|);
    }

    /** dfu_download_check_done. */
    method DownloadCheckDone() returns (result: Status)
      requires Valid()
      ensures result == CheckDone(View().download)
    {
      var progress := Add32(download.count, download.pageCount);
      if progress < download.info.length {
        return ErrorNotDone;
      } else if progress < MINIMUM_SIZE {
        return ErrorTarget;
      }
      return OK;
    }

    /** dfu_download_verify_header. */
    method DownloadVerifyHeader() returns (result: Status)
      requires Valid()
      modifies this`download
      ensures Valid()
      ensures var (d, status) := VerifyHeader(old(View().download)); View() == old(View()).(download := d) && result == status
    {
      download := download.(info := ParseInfo(page[..]));
      if download.info.magic != BOOTLOADER_MAGIC {
        return ErrorTarget;
      }
      if download.info.startAddress == APP_START {
        download := download.(appUpdate := true);
      } else if download.info.startAddress == BOOTLOADER_START {
        download := download.(appUpdate := false);
      } else {
        return ErrorFile;
      }
      return OK;
    }

    /** The copies at the head of dfu_download. */
    method BufferPacket(bytes: seq<byte>)
      requires Valid() && |bytes| <= PACKET_SIZE
      modifies this`download, page, overflow
      ensures Valid() && View() == old(View()).(download := Buffer(old(View().download), bytes))
    {
      var room := PAGE_SIZE - download.pageCount;
      var n := if |bytes| > room then room else |bytes|;
      Copy(page, download.pageCount, bytes[..n]);
      Copy(overflow, 0, bytes[n..]);
      download := download.(
        overflowCount := |bytes| - n,
        pageCount := download.pageCount + n,
        pageWaiting := download.pageCount + n == PAGE_SIZE);
    }

    /** dfu_download. */
    method DownloadPacket(bytes: seq<byte>)
      requires Valid() && |bytes| <= PACKET_SIZE
      modifies this, page, overflow
      ensures Valid() && View() == PacketIn(old(View()), bytes)
    {
      var startCount := download.pageCount;
      BufferPacket(bytes);
      log := log.(stream := log.stream + bytes);
      if download.count == 0 && download.pageCount >= MINIMUM_SIZE && startCount < MINIMUM_SIZE {
        JudgeHeader();
      }
    }

    /** The branch of dfu_download that checks the header. */
    method JudgeHeader()
      requires Valid()
      modifies this
      ensures Valid() && View() == CheckHeader(old(View()))
    {
      log := log.(headerChecks := log.headerChecks + 1);
      var result := DownloadVerifyHeader();
      if result != OK {
        state, status := Error, result;
      }
    }

    /** dfu_download_busy. */
    method DownloadBusyPoll()
      requires Valid()
      modifies this, page, firstPage, flash
      ensures Valid() && FLASH.Sane() && View() == Flush(FLASH, old(View()))
    {
      FlashIsSane();
      var address := Add32(download.info.startAddress, download.count);
      dirty := true;
      var result := flash.ErasePage(address);
      if result != OK {
        state, status := Error, result;
        return;
      }
      KeepOrProgram(address);
    }

    /** The middle of dfu_download_busy: the first page is held back, the others are programmed. */
    method KeepOrProgram(address: nat)
      requires Valid() && address == PageAddress(View().download)
      modifies this, page, firstPage, flash
      ensures Valid() && FLASH.Sane() && View() == AfterBusyErase(FLASH, old(View()), old(View()).flash, OK)
    {
      FlashIsSane();
      if download.count == 0 {
        Copy(firstPage, 0, page[..]);
      } else {
        var result := flash.ProgramPage(address, page);
        if result != OK {
          state, status := Error, result;
          return;
        }
      }
      FinishPage();
    }

    /** The tail of dfu_download_busy. */
    method FinishPage()
      requires Valid()
      modifies this, page
      ensures Valid() && View() == PageDone(old(View()))
    {
      Copy(page, 0, overflow[..download.overflowCount]);
      download := download.(
        count := Add32(download.count, PAGE_SIZE),
        pageCount := download.overflowCount,
        overflowCount := 0,
        pageWaiting := false);
      state, status := DownloadSync, OK;
    }

    /** dfu_download_manifest. */
    method DownloadManifest()
      requires Valid()
      modifies this, page, firstPage, flash
      ensures Valid() && FLASH.Sane() && View() == ManifestImage(FLASH, old(View()))
    {
      FlashIsSane();
      if download.count == 0 {
        HoldFirstPage();
        var erased := flash.ErasePage(download.info.startAddress);
        if erased != OK {
          state, status := Error, erased;
          return;
        }
      }
      FlushInProgress();
    }

    /** The page is the whole image: it becomes the held-back first page. */
    method HoldFirstPage()
      requires Valid()
      modifies this, firstPage
      ensures Valid() && View() == HoldBack(old(View()))
    {
      Copy(firstPage, 0, page[..download.pageCount]);
      FillErased(firstPage, download.pageCount);
      download := download.(pageCount := 0);
      dirty := true;
    }

    /** The middle of dfu_download_manifest: the page in progress, padded. */
    method FlushInProgress()
      requires Valid()
      modifies this, page, flash
      ensures Valid() && FLASH.Sane() && View() == FlushLast(FLASH, old(View()))
    {
      FlashIsSane();
      if download.pageCount > 0 {
        var address := Add32(download.info.startAddress, download.count);
        FillErased(page, download.pageCount);
        var result := flash.ErasePage(address);
        if result != OK {
          state, status := Error, result;
          return;
        }
        result := flash.ProgramPage(address, page);
        if result != OK {
          state, status := Error, result;
          return;
        }
      }
      ProgramFirstPage();
    }

    /** The end of dfu_download_manifest: the first page goes in last. */
    method ProgramFirstPage()
      requires Valid()
      modifies this, flash
      ensures Valid() && FLASH.Sane() && View() == SealImage(FLASH, old(View()))
    {
      FlashIsSane();
      var result := flash.ProgramPage(download.info.startAddress, firstPage);
      if result != OK {
        state, status := Error, result;
        return;
      }
      dirty := false;
      download := download.(done := true);
      log := log.(committed := flash.mem);
      state, status := ManifestSync, OK;
    }

    // ---------- Upload ----------

    /** dfu_upload_start. */
    method UploadStart(wLength: uint16, accepted: bool)
      requires Valid()
      modifies this
      ensures Valid() && View() == StartUpload(old(View()), wLength, accepted)
    {
      upload := Upload(0, UploadLength(flash.mem), 0);
      log := log.(uploaded := []);
      UploadNext(wLength, accepted);
    }

    /** dfu_upload. */
    method UploadNext(wLength: uint16, accepted: bool)
      requires Valid()
      modifies this
      ensures Valid() && View() == UploadChunk(old(View()), wLength, accepted)
    {
      var n := wLength;
      if upload.totalLen < Add32(upload.transmitCount, wLength) {
        n := upload.totalLen - upload.transmitCount;
      }
      var chunk := ReadBytes(flash.mem, BOOTLOADER_START + upload.transmitCount, n);
      upload := Upload(Add32(upload.sequenceNum, 1), upload.totalLen, Add32(upload.transmitCount, n));
      if accepted {
        log := log.(uploaded := log.uploaded + chunk);
        transfer := Sending(FlashReply(chunk));
        state, status := UploadIdle, OK;
      } else {
        state, status := Error, ErrorUnknown;
      }
    }

    // ---------- Setup packets ----------

    /** usb_util_stall after a request that the state does not take. */
    method Refuse()
      requires Valid()
      modifies this
      ensures Valid() && View() == Stall(old(View()))
    {
      state, status := Error, ErrorStalledPacket;
    }

    /** dfu_send_status. */
    method ReplyStatus(pollTimeout: nat, accepted: bool)
      requires Valid()
      modifies this
      ensures Valid() && View() == SendStatus(old(View()), pollTimeout, accepted)
    {
      transfer := if accepted then Sending(StatusReply(status, pollTimeout, state)) else NoTransfer;
    }

    /** dfu_send_state. */
    method ReplyState(accepted: bool)
      requires Valid()
      modifies this
      ensures Valid() && View() == SendState(old(View()), accepted)
    {
      transfer := if accepted then Sending(StateReply(state)) else NoTransfer;
    }

    /** dfu_state_idle. */
    method StateIdle(request: Request, wLength: uint16, accepted: bool)
      requires Valid()
      modifies this
      ensures Valid() && View() == SetupIdle(old(View()), request, wLength, accepted)
    {
      match request {
        case RequestDownload =>
          if wLength > 0 {
            DownloadStart();
            state, status := DownloadSync, OK;
            transfer := if accepted then Receiving(wLength) else NoTransfer;
          } else {
            Refuse();
          }
        case RequestUpload =>
          if wLength > 0 {
            UploadStart(wLength, accepted);
          } else {
            Refuse();
          }
        case RequestAbort =>
        case RequestGetStatus => ReplyStatus(0, accepted);
        case RequestGetState => ReplyState(accepted);
        case RequestDetach =>
          if dirty {
            state, status := Error, ErrorFirmware;
          } else {
            state, status := Detach, OK;
          }
        case RequestClearStatus => Refuse();
        case RequestOther => Refuse();
      }
    }

    /** dfu_state_download_sync. */
    method StateDownloadSync(request: Request, accepted: bool)
      requires Valid()
      modifies this
      ensures Valid() && View() == SetupDownloadSync(old(View()), request, accepted)
    {
      if request == RequestGetStatus {
        if download.pageWaiting {
          state, status := DownloadBusy, OK;
          ReplyStatus(700, accepted);
        } else {
          state, status := DownloadIdle, OK;
          ReplyStatus(0, accepted);
        }
      } else if request == RequestGetState {
        ReplyState(accepted);
      } else {
        Refuse();
      }
    }

    /** dfu_state_download_idle. */
    method StateDownloadIdle(request: Request, wLength: uint16, accepted: bool)
      requires Valid()
      modifies this
      ensures Valid() && View() == SetupDownloadIdle(old(View()), request, wLength, accepted)
    {
      match request {
        case RequestDownload =>
          if wLength > 0 {
            transfer := if accepted then Receiving(wLength) else NoTransfer;
            state, status := DownloadSync, OK;
          } else {
            var result := DownloadCheckDone();
            if result == OK {
              state, status := ManifestSync, OK;
            } else {
              state, status := Error, result;
            }
          }
        case RequestAbort => state, status := Idle, OK;
        case RequestGetStatus => ReplyStatus(0, accepted);
        case RequestGetState => ReplyState(accepted);
        case _ => Refuse();
      }
    }

    /** dfu_state_manifest_sync. */
    method StateManifestSync(request: Request, accepted: bool)
      requires Valid()
      modifies this
      ensures Valid() && View() == SetupManifestSync(old(View()), request, accepted)
    {
      if request == RequestGetStatus {
        if !download.done {
          state, status := Manifest, OK;
          ReplyStatus(1200, accepted);
        } else {
          state, status := Idle, OK;
          ReplyStatus(0, accepted);
        }
      } else if request == RequestGetState {
        ReplyState(accepted);
      } else {
        Refuse();
      }
    }

    /** dfu_state_upload_idle. */
    method StateUploadIdle(request: Request, wLength: uint16, accepted: bool)
      requires Valid()
      modifies this
      ensures Valid() && View() == SetupUploadIdle(old(View()), request, wLength, accepted)
    {
      match request {
        case RequestUpload =>
          if wLength > 0 {
            UploadNext(wLength, accepted);
          }
        case RequestAbort => state, status := Idle, OK;
        case RequestGetStatus => ReplyStatus(0, accepted);
        case RequestGetState => ReplyState(accepted);
        case _ => Refuse();
      }
    }

    /** dfu_state_error. */
    method StateError(request: Request, accepted: bool)
      requires Valid()
      modifies this
      ensures Valid() && View() == SetupError(old(View()), request, accepted)
    {
      match request {
        case RequestGetStatus => ReplyStatus(0, accepted);
        case RequestGetState => ReplyState(accepted);
        case RequestClearStatus => state, status := Idle, OK;
        case _ => Refuse();
      }
    }

    /** dfu_state_machine. */
    method StateMachine(request: Request, wLength: uint16, accepted: bool)
      requires Valid()
      modifies this
      ensures Valid() && View() == OnSetup(old(View()), request, wLength, accepted)
    {
      transfer := NoTransfer;
      match state {
        case Idle => StateIdle(request, wLength, accepted);
        case DownloadSync => StateDownloadSync(request, accepted);
        case DownloadBusy => Refuse();
        case DownloadIdle => StateDownloadIdle(request, wLength, accepted);
        case ManifestSync => StateManifestSync(request, accepted);
        case Manifest => Refuse();
        case UploadIdle => StateUploadIdle(request, wLength, accepted);
        case Error => StateError(request, accepted);
        case Detach =>
      }
    }

    // ---------- Completions and the poll loop ----------

    /** usb_util_endpoint_callback for a data stage. */
    method DataStage(bytes: seq<byte>)
      requires Valid()
      modifies this, page, overflow
      ensures Valid() && View() == OnData(old(View()), bytes)
    {
      if transfer.Receiving? && |bytes| <= transfer.limit && |bytes| <= PACKET_SIZE {
        transfer := NoTransfer;
        DownloadPacket(bytes);
      }
    }

    /** dfu_send_state_status_callback, dfu_upload_callback. */
    method SendComplete(ok: bool)
      requires Valid()
      modifies this
      ensures Valid() && View() == OnSendDone(old(View()), ok)
    {
      if transfer.Sending? {
        transfer := NoTransfer;
        if !ok {
          state, status := Error, ErrorUnknown;
        }
      }
    }

    /** dfu_poll_state; true ends the poll loop. */
    method PollState() returns (leave: bool)
      requires Valid()
      modifies this, page, firstPage, flash
      ensures Valid() && FLASH.Sane() && View() == OnPoll(FLASH, old(View()))
      ensures leave <==> old(state) == Detach
    {
      FlashIsSane();
      leave := state == Detach;
      if state == Manifest {
        DownloadManifest();
      } else if state == DownloadBusy {
        DownloadBusyPoll();
      }
    }

    /** Anything that can happen to the engine. */
    method Handle(e: Event)
      requires Valid()
      modifies this, page, firstPage, overflow, flash
      ensures Valid() && FLASH.Sane() && View() == Step(FLASH, old(View()), e)
    {
      FlashIsSane();
      match e {
        case Setup(request, wLength, accepted) => StateMachine(request, wLength, accepted);
        case Data(bytes) => DataStage(bytes);
        case SendDone(ok) => SendComplete(ok);
        case Poll => var _ := PollState();
      }
    }

    /** Any run of the engine is a run of the machine. */
    method HandleAll(events: seq<Event>)
      requires Valid()
      modifies this, page, firstPage, overflow, flash
      ensures Valid() && FLASH.Sane() && View() == Run(FLASH, old(View()), events)
    {
      FlashIsSane();
      var i := 0;
      while i < |events|
        invariant 0 <= i <= |events|
        invariant Valid() && View() == Run(FLASH, old(View()), events[..i])
      {
        Handle(events[i]);
        assert events[..i + 1][..i] == events[..i];
        i := i + 1;
      }
      assert events[..i] == events;
    }
  }
}
