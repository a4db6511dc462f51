/** The DFU engine of src/dfu as a state machine: what every handler, data stage, completion and
    poll does to the device state. DfuDevice.dfy holds the imperative engine that is proved to take
    exactly these steps. */
module DfuMachine {
  import opened Layout
  import opened Bytes
  import opened FlashControl

  // ---------- State ----------

  datatype State =
    | Idle
    | DownloadSync
    | DownloadBusy
    | DownloadIdle
    | ManifestSync
    | Manifest
    | UploadIdle
    | Error
    | Detach

  datatype Request =
    | RequestDetach
    | RequestDownload
    | RequestUpload
    | RequestGetStatus
    | RequestClearStatus
    | RequestGetState
    | RequestAbort
    | RequestOther

  /** The fields of struct bootloader_info that anything reads. */
  datatype Info = Info(magic: nat, startAddress: nat, length: nat, checksum: nat)

  /** struct dfu_download. */
  datatype Download = Download(
    page: seq<byte>, firstPage: seq<byte>, overflow: seq<byte>, pageWaiting: bool,
    count: nat, pageCount: nat, overflowCount: nat, appUpdate: bool, done: bool, info: Info)

  /** struct dfu_upload. */
  datatype Upload = Upload(sequenceNum: nat, totalLen: nat, transmitCount: nat)

  datatype Reply =
    | StatusReply(status: Status, pollTimeout: nat, state: State)
    | StateReply(state: State)
    | FlashReply(bytes: seq<byte>)

  /** The endpoint-0 transfer that is under way. */
  datatype Transfer = NoTransfer | Receiving(limit: nat) | Sending(reply: Reply)

  /** History, read by statements only. */
  datatype Log = Log(
    stream: seq<byte>,     // every byte the session has received
    headerChecks: nat,     // header checks the session has run
    base: seq<byte>,       // memory when the session began
    mark: nat,             // driver calls made before the session began
    committed: seq<byte>,  // memory at boot or at the end of the last successful manifest
    uploaded: seq<byte>)   // everything the upload has submitted

  datatype Machine = Machine(
    state: State, status: Status, download: Download, upload: Upload, transfer: Transfer,
    dirty: bool, flash: FlashState, log: Log)

  type uint16 = n: nat | n < 0x1_0000

  datatype Event =
    | Setup(request: Request, wLength: uint16, accepted: bool)  // accepted: the endpoint call succeeds
    | Data(bytes: seq<byte>)
    | SendDone(ok: bool)
    | Poll

  /** Buffers have their C sizes and the counters that index them stay inside. */
  ghost predicate Fitting(m: Machine) {
    && FlashControl.Sized(m.flash)
    && |m.download.page| == PAGE_SIZE
    && |m.download.firstPage| == PAGE_SIZE
    && |m.download.overflow| == PACKET_SIZE
    && m.download.pageCount <= PAGE_SIZE
    && m.download.overflowCount <= PACKET_SIZE
    && m.upload.transmitCount <= m.upload.totalLen < TWO_TO_THE_32
  }

  function Zeros(n: nat): (r: seq<byte>)
    ensures |r| == n
  {
    seq(n, _ => 0)
  }

  /** dfu_init on zeroed memory, with flash as the reset finds it. */
  function PowerUp(f: FlashState): (m: Machine)
    requires FlashControl.Sized(f)
    ensures Fitting(m)
  {
    Machine(Idle, OK,
            Download(Zeros(PAGE_SIZE), Zeros(PAGE_SIZE), Zeros(PACKET_SIZE), false, 0, 0, 0, false, false, Info(0, 0, 0, 0)),
            Upload(0, 0, 0), NoTransfer, false, f,
            Log([], 0, f.mem, |f.calls|, f.mem, []))
  }

  // ---------- Shared moves ----------

  function Enter(m: Machine, state: State): Machine {
    m.(state := state, status := OK)
  }

  function Fail(m: Machine, status: Status): Machine {
    m.(state := Error, status := status)
  }

  function Stall(m: Machine): Machine {
    Fail(m, ErrorStalledPacket)
  }

  function Send(m: Machine, reply: Reply, accepted: bool): Machine {
    m.(transfer := if accepted then Sending(reply) else NoTransfer)
  }

  function SendStatus(m: Machine, pollTimeout: nat, accepted: bool): Machine {
    Send(m, StatusReply(m.status, pollTimeout, m.state), accepted)
  }

  function SendState(m: Machine, accepted: bool): Machine {
    Send(m, StateReply(m.state), accepted)
  }

  function Receive(m: Machine, wLength: nat, accepted: bool): Machine {
    m.(transfer := if accepted then Receiving(wLength) else NoTransfer)
  }

  // ---------- Download ----------

  function ParseInfo(s: seq<byte>): Info
    requires |s| >= MINIMUM_SIZE
  {
    Info(Word(s, INFO_OFFSET), Word(s, INFO_OFFSET + START_ADDRESS_FIELD),
         Word(s, INFO_OFFSET + LENGTH_FIELD), Word(s, INFO_OFFSET + CHECKSUM_FIELD))
  }

  /** dfu_download_start. */
  function StartDownload(m: Machine): (r: Machine)
    requires Fitting(m)
    ensures Fitting(r)
  {
    m.(download := m.download.(pageWaiting := false, count := 0, pageCount := 0, overflowCount := 0,
                               appUpdate := false, done := false,
                               info := m.download.info.(magic := 0, length := 0)),
       log := m.log.(stream := [], headerChecks := 0, base := m.flash.mem, mark := |m.flash.calls|))
  }

  /** dfu_download_check_done. */
  function CheckDone(d: Download): Status {
    var progress := Add32(d.count, d.pageCount);
    if progress < d.info.length then ErrorNotDone
    else if progress < MINIMUM_SIZE then ErrorTarget
    else OK
  }

  /** dfu_download_verify_header. */
  function VerifyHeader(d: Download): (r: (Download, Status))
    requires |d.page| == PAGE_SIZE
    ensures r.0 == d.(info := r.0.info, appUpdate := r.0.appUpdate)
  {
    var read := d.(info := ParseInfo(d.page));
    if read.info.magic != BOOTLOADER_MAGIC then (read, ErrorTarget)
    else if read.info.startAddress == APP_START then (read.(appUpdate := true), OK)
    else if read.info.startAddress == BOOTLOADER_START then (read.(appUpdate := false), OK)
    else (read, ErrorFile)
  }

  /** The copies at the head of dfu_download: into the page while it has room, then into overflow. */
  function Buffer(d: Download, bytes: seq<byte>): (r: Download)
    requires |d.page| == PAGE_SIZE && |d.overflow| == PACKET_SIZE
    requires d.pageCount <= PAGE_SIZE && |bytes| <= PACKET_SIZE
    ensures |r.page| == PAGE_SIZE && |r.overflow| == PACKET_SIZE
    ensures r.pageCount + r.overflowCount == d.pageCount + |bytes| && r.pageCount <= PAGE_SIZE
    ensures r.overflowCount <= PACKET_SIZE
  {
    var room := PAGE_SIZE - d.pageCount;
    var n := if |bytes| > room then room else |bytes|;
    d.(page := Splice(d.page, d.pageCount, bytes[..n]),
       overflow := Splice(d.overflow, 0, bytes[n..]),
       overflowCount := |bytes| - n,
       pageCount := d.pageCount + n,
       pageWaiting := d.pageCount + n == PAGE_SIZE)
  }

  /** dfu_download: a packet has arrived. */
  function PacketIn(m: Machine, bytes: seq<byte>): (r: Machine)
    requires Fitting(m) && |bytes| <= PACKET_SIZE
    ensures Fitting(r)
  {
    var d := Buffer(m.download, bytes);
    var m1 := m.(download := d, log := m.log.(stream := m.log.stream + bytes));
    if d.count == 0 && d.pageCount >= MINIMUM_SIZE && m.download.pageCount < MINIMUM_SIZE then CheckHeader(m1) else m1
  }

  /** The packet has completed the header. */
  function CheckHeader(m: Machine): (r: Machine)
    requires Fitting(m)
    ensures Fitting(r)
  {
    var (checked, status) := VerifyHeader(m.download);
    var m1 := m.(download := checked, log := m.log.(headerChecks := m.log.headerChecks + 1));
    if status != OK then Fail(m1, status) else m1
  }

  /** Where the page being collected belongs. */
  function PageAddress(d: Download): nat {
    Add32(d.info.startAddress, d.count)
  }

  /** dfu_download_busy. */
  function Flush(drv: Driver, m: Machine): (r: Machine)
    requires Fitting(m) && drv.Sane()
    ensures Fitting(r)
  {
    var (f, status) := drv.erase(m.flash, PageAddress(m.download));
    AfterBusyErase(drv, m.(dirty := true), f, status)
  }

  function AfterBusyErase(drv: Driver, m: Machine, f: FlashState, status: Status): (r: Machine)
    requires Fitting(m) && drv.Sane() && FlashControl.Sized(f)
    ensures Fitting(r)
  {
    var d := m.download;
    if status != OK then Fail(m.(flash := f), status)
    else if d.count == 0 then PageDone(m.(flash := f, download := d.(firstPage := d.page)))
    else
      var (g, programmed) := drv.program(f, PageAddress(d), d.page);
      AfterBusyProgram(m, g, programmed)
  }

  function AfterBusyProgram(m: Machine, g: FlashState, status: Status): (r: Machine)
    requires Fitting(m) && FlashControl.Sized(g)
    ensures Fitting(r)
  {
    if status != OK then Fail(m.(flash := g), status) else PageDone(m.(flash := g))
  }

  /** The page is dealt with; the overflow opens the next one. */
  function PageDone(m: Machine): (r: Machine)
    requires Fitting(m)
    ensures Fitting(r)
  {
    var d := m.download;
    Enter(m.(download := d.(count := Add32(d.count, PAGE_SIZE),
                            page := Splice(d.page, 0, d.overflow[..d.overflowCount]),
                            pageCount := d.overflowCount,
                            overflowCount := 0,
                            pageWaiting := false)),
          DownloadSync)
  }

  /** The first `n` bytes of a page, the rest erased. */
  function Padded(page: seq<byte>, n: nat): (r: seq<byte>)
    requires |page| == PAGE_SIZE && n <= PAGE_SIZE
    ensures |r| == PAGE_SIZE
  {
    page[..n] + Blank(PAGE_SIZE - n)
  }

  /** dfu_download_manifest. */
  function ManifestImage(drv: Driver, m: Machine): (r: Machine)
    requires Fitting(m) && drv.Sane()
    ensures Fitting(r)
  {
    if m.download.count == 0 then
      var held := HoldBack(m);
      var (f, status) := drv.erase(held.flash, held.download.info.startAddress);
      if status != OK then Fail(held.(flash := f), status) else FlushLast(drv, held.(flash := f))
    else FlushLast(drv, m)
  }

  /** An image shorter than a page becomes its own held-back first page. */
  function HoldBack(m: Machine): (r: Machine)
    requires Fitting(m)
    ensures Fitting(r)
  {
    var d := m.download;
    m.(dirty := true, download := d.(firstPage := Padded(d.page, d.pageCount), pageCount := 0))
  }

  /** The page in progress, if there is one. */
  function FlushLast(drv: Driver, m: Machine): (r: Machine)
    requires Fitting(m) && drv.Sane()
    ensures Fitting(r)
  {
    var d := m.download;
    if d.pageCount == 0 then SealImage(drv, m)
    else
      var m1 := m.(download := d.(page := Padded(d.page, d.pageCount)));
      var (f, status) := drv.erase(m1.flash, PageAddress(d));
      AfterLastErase(drv, m1, f, status)
  }

  function AfterLastErase(drv: Driver, m: Machine, f: FlashState, status: Status): (r: Machine)
    requires Fitting(m) && drv.Sane() && FlashControl.Sized(f)
    ensures Fitting(r)
  {
    if status != OK then Fail(m.(flash := f), status)
    else
      var (g, programmed) := drv.program(f, PageAddress(m.download), m.download.page);
      AfterLastProgram(drv, m, g, programmed)
  }

  function AfterLastProgram(drv: Driver, m: Machine, g: FlashState, status: Status): (r: Machine)
    requires Fitting(m) && drv.Sane() && FlashControl.Sized(g)
    ensures Fitting(r)
  {
    if status != OK then Fail(m.(flash := g), status) else SealImage(drv, m.(flash := g))
  }

  /** The first page goes in last. */
  function SealImage(drv: Driver, m: Machine): (r: Machine)
    requires Fitting(m) && drv.Sane()
    ensures Fitting(r)
  {
    var (g, status) := drv.program(m.flash, m.download.info.startAddress, m.download.firstPage);
    AfterSeal(m, g, status)
  }

  function AfterSeal(m: Machine, g: FlashState, status: Status): (r: Machine)
    requires Fitting(m) && FlashControl.Sized(g)
    ensures Fitting(r)
  {
    if status != OK then Fail(m.(flash := g), status)
    else
      Enter(m.(flash := g, dirty := false, download := m.download.(done := true),
               log := m.log.(committed := g.mem)),
            ManifestSync)
  }

  // ---------- Upload ----------

  function HasImage(mem: seq<byte>): bool
    requires |mem| == FLASH_END
  {
    Word(mem, APP_START + INFO_OFFSET) == BOOTLOADER_MAGIC
  }

  /** The length dfu_upload_start announces. */
  function UploadLength(mem: seq<byte>): (n: nat)
    requires |mem| == FLASH_END
    ensures n < TWO_TO_THE_32
  {
    if HasImage(mem) then Add32(BOOTLOADER_SIZE, Word(mem, APP_START + INFO_OFFSET + LENGTH_FIELD))
    else Word(mem, BOOTLOADER_START + INFO_OFFSET + LENGTH_FIELD)
  }

  /** What an address beyond the flash reads as: anything. */
  const BEYOND: nat -> byte

  /** `n` bytes as the endpoint reads them. */
  function ReadBytes(mem: seq<byte>, address: nat, n: nat): (r: seq<byte>)
    ensures |r| == n
    ensures forall i {:trigger r[i]} :: 0 <= i < n ==> r[i] == if address + i < |mem| then mem[address + i] else BEYOND(address + i)
  {
    seq(n, i requires 0 <= i < n => if address + i < |mem| then mem[address + i] else BEYOND(address + i))
  }

  /** dfu_upload. */
  function UploadChunk(m: Machine, wLength: uint16, accepted: bool): (r: Machine)
    requires Fitting(m)
    ensures Fitting(r)
  {
    var u := m.upload;
    var n := if u.totalLen < Add32(u.transmitCount, wLength) then u.totalLen - u.transmitCount else wLength;
    var chunk := ReadBytes(m.flash.mem, BOOTLOADER_START + u.transmitCount, n);
    var m1 := m.(upload := Upload(Add32(u.sequenceNum, 1), u.totalLen, Add32(u.transmitCount, n)));
    if !accepted then Fail(m1, ErrorUnknown)
    else Enter(Send(m1, FlashReply(chunk), true).(log := m1.log.(uploaded := m1.log.uploaded + chunk)), UploadIdle)
  }

  /** dfu_upload_start. */
  function StartUpload(m: Machine, wLength: uint16, accepted: bool): (r: Machine)
    requires Fitting(m)
    ensures Fitting(r)
  {
    UploadChunk(m.(upload := Upload(0, UploadLength(m.flash.mem), 0), log := m.log.(uploaded := [])), wLength, accepted)
  }

  // ---------- Setup packets, state by state ----------

  function SetupIdle(m: Machine, request: Request, wLength: uint16, accepted: bool): (r: Machine)
    requires Fitting(m)
    ensures Fitting(r)
  {
    match request
    case RequestDownload =>
      if wLength > 0 then Receive(Enter(StartDownload(m), DownloadSync), wLength, accepted) else Stall(m)
    case RequestUpload => if wLength > 0 then StartUpload(m, wLength, accepted) else Stall(m)
    case RequestAbort => m
    case RequestGetStatus => SendStatus(m, 0, accepted)
    case RequestGetState => SendState(m, accepted)
    case RequestDetach => if m.dirty then Fail(m, ErrorFirmware) else Enter(m, Detach)
    case _ => Stall(m)
  }

  function SetupDownloadSync(m: Machine, request: Request, accepted: bool): (r: Machine)
    requires Fitting(m)
    ensures Fitting(r)
  {
    match request
    case RequestGetStatus =>
      if m.download.pageWaiting then SendStatus(Enter(m, DownloadBusy), 700, accepted)
      else SendStatus(Enter(m, DownloadIdle), 0, accepted)
    case RequestGetState => SendState(m, accepted)
    case _ => Stall(m)
  }

  function SetupDownloadIdle(m: Machine, request: Request, wLength: uint16, accepted: bool): (r: Machine)
    requires Fitting(m)
    ensures Fitting(r)
  {
    match request
    case RequestDownload =>
      if wLength > 0 then Enter(Receive(m, wLength, accepted), DownloadSync)
      else
        var status := CheckDone(m.download);
        if status == OK then Enter(m, ManifestSync) else Fail(m, status)
    case RequestAbort => Enter(m, Idle)
    case RequestGetStatus => SendStatus(m, 0, accepted)
    case RequestGetState => SendState(m, accepted)
    case _ => Stall(m)
  }

  function SetupManifestSync(m: Machine, request: Request, accepted: bool): (r: Machine)
    requires Fitting(m)
    ensures Fitting(r)
  {
    match request
    case RequestGetStatus =>
      if !m.download.done then SendStatus(Enter(m, Manifest), 1200, accepted)
      else SendStatus(Enter(m, Idle), 0, accepted)
    case RequestGetState => SendState(m, accepted)
    case _ => Stall(m)
  }

  function SetupUploadIdle(m: Machine, request: Request, wLength: uint16, accepted: bool): (r: Machine)
    requires Fitting(m)
    ensures Fitting(r)
  {
    match request
    case RequestUpload => if wLength > 0 then UploadChunk(m, wLength, accepted) else m
    case RequestAbort => Enter(m, Idle)
    case RequestGetStatus => SendStatus(m, 0, accepted)
    case RequestGetState => SendState(m, accepted)
    case _ => Stall(m)
  }

  function SetupError(m: Machine, request: Request, accepted: bool): (r: Machine)
    requires Fitting(m)
    ensures Fitting(r)
  {
    match request
    case RequestGetStatus => SendStatus(m, 0, accepted)
    case RequestGetState => SendState(m, accepted)
    case RequestClearStatus => Enter(m, Idle)
    case _ => Stall(m)
  }

  /** dfu_state_machine. A new setup packet ends whatever transfer was pending. */
  function OnSetup(m: Machine, request: Request, wLength: uint16, accepted: bool): (r: Machine)
    requires Fitting(m)
    ensures Fitting(r)
  {
    var q := m.(transfer := NoTransfer);
    match m.state
    case Idle => SetupIdle(q, request, wLength, accepted)
    case DownloadSync => SetupDownloadSync(q, request, accepted)
    case DownloadBusy => Stall(q)
    case DownloadIdle => SetupDownloadIdle(q, request, wLength, accepted)
    case ManifestSync => SetupManifestSync(q, request, accepted)
    case Manifest => Stall(q)
    case UploadIdle => SetupUploadIdle(q, request, wLength, accepted)
    case Error => SetupError(q, request, accepted)
    case Detach => q
  }

  // ---------- The other events ----------

  /** The data stage of a download: at most what was asked for, at most a full endpoint packet. */
  function OnData(m: Machine, bytes: seq<byte>): (r: Machine)
    requires Fitting(m)
    ensures Fitting(r)
  {
    if m.transfer.Receiving? && |bytes| <= m.transfer.limit && |bytes| <= PACKET_SIZE
    then PacketIn(m.(transfer := NoTransfer), bytes)
    else m
  }

  /** dfu_send_state_status_callback and dfu_upload_callback. */
  function OnSendDone(m: Machine, ok: bool): (r: Machine)
    requires Fitting(m)
    ensures Fitting(r)
  {
    if !m.transfer.Sending? then m
    else if ok then m.(transfer := NoTransfer)
    else Fail(m.(transfer := NoTransfer), ErrorUnknown)
  }

  /** dfu_poll_state; in Detach it ends the loop of main instead. */
  function OnPoll(drv: Driver, m: Machine): (r: Machine)
    requires Fitting(m) && drv.Sane()
    ensures Fitting(r)
  {
    match m.state
    case Manifest => ManifestImage(drv, m)
    case DownloadBusy => Flush(drv, m)
    case _ => m
  }

  function Step(drv: Driver, m: Machine, e: Event): (r: Machine)
    requires Fitting(m) && drv.Sane()
    ensures Fitting(r)
  {
    match e
    case Setup(request, wLength, accepted) => OnSetup(m, request, wLength, accepted)
    case Data(bytes) => OnData(m, bytes)
    case SendDone(ok) => OnSendDone(m, ok)
    case Poll => OnPoll(drv, m)
  }

  ghost function Run(drv: Driver, m: Machine, events: seq<Event>): (r: Machine)
    requires Fitting(m) && drv.Sane()
    ensures Fitting(r)
  {
    if events == [] then m
    else
      Step(drv, Run(drv, m, events[..|events| - 1]), events[|events| - 1])
  }
}
