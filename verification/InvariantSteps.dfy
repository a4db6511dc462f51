/** Data stages and polls keep the invariant. */
module InvariantSteps {
  import opened Layout
  import opened Bytes
  import opened FlashControl
  import opened DfuMachine
  import opened Invariant

  // ---------- Data stages ----------

  lemma BufferKeeps(d: Download, stream: seq<byte>, bytes: seq<byte>)
    requires |d.page| == PAGE_SIZE && |d.overflow| == PACKET_SIZE
    requires Buffered(d, stream) && !d.pageWaiting && |bytes| <= PACKET_SIZE
    ensures Buffered(Buffer(d, bytes), stream + bytes)
  {
    var room := PAGE_SIZE - d.pageCount;
    var n := if |bytes| > room then room else |bytes|;
    var e, s := Buffer(d, bytes), stream + bytes;
    assert s[d.count..d.count + e.pageCount] == stream[d.count..] + bytes[..n];
    assert e.page[..e.pageCount] == d.page[..d.pageCount] + bytes[..n];
    assert s[e.count + e.pageCount..] == bytes[n..];
    assert e.overflow[..e.overflowCount] == bytes[n..];
    if d.count > 0 {
      assert s[..PAGE_SIZE] == stream[..PAGE_SIZE];
    }
  }

  /** The header depends on the first MINIMUM_SIZE bytes only. */
  lemma ParseInfoPrefix(a: seq<byte>, b: seq<byte>)
    requires |a| >= MINIMUM_SIZE && |b| >= MINIMUM_SIZE && a[..MINIMUM_SIZE] == b[..MINIMUM_SIZE]
    ensures ParseInfo(a) == ParseInfo(b)
  {
    WordPrefix(a, b, INFO_OFFSET);
    WordPrefix(a, b, INFO_OFFSET + START_ADDRESS_FIELD);
    WordPrefix(a, b, INFO_OFFSET + LENGTH_FIELD);
    WordPrefix(a, b, INFO_OFFSET + CHECKSUM_FIELD);
  }

  lemma WordPrefix(a: seq<byte>, b: seq<byte>, at: nat)
    requires at + 4 <= MINIMUM_SIZE
    requires |a| >= MINIMUM_SIZE && |b| >= MINIMUM_SIZE && a[..MINIMUM_SIZE] == b[..MINIMUM_SIZE]
    ensures Word(a, at) == Word(b, at)
  {
    assert a[at..at + 4] == a[..MINIMUM_SIZE][at..at + 4] == b[at..at + 4];
  }

  lemma GatedGrows(log: Log, calls: seq<Call>, bytes: seq<byte>)
    requires Gated(log, calls)
    ensures Gated(log.(stream := log.stream + bytes), calls)
  {
    if |log.stream| >= MINIMUM_SIZE {
      assert (log.stream + bytes)[..MINIMUM_SIZE] == log.stream[..MINIMUM_SIZE];
      ParseInfoPrefix(log.stream, log.stream + bytes);
    }
  }

  lemma VerifyDecides(d: Download)
    requires |d.page| == PAGE_SIZE
    ensures var (e, status) := VerifyHeader(d);
      && e == d.(info := ParseInfo(d.page), appUpdate := e.appUpdate)
      && (status == OK <==> Acceptable(ParseInfo(d.page)))
      && status in {OK, ErrorTarget, ErrorFile}
  {
  }

  /** When the check runs, it judges the header in the stream; when it does not, the recorded header
      still is the one in the stream. */
  lemma HeaderStep(d: Download, log: Log, bytes: seq<byte>, e: Download)
    requires |d.page| == PAGE_SIZE && |d.overflow| == PACKET_SIZE && |bytes| <= PACKET_SIZE
    requires Buffered(d, log.stream) && !d.pageWaiting && HeaderKnown(d, log.stream) && e == Buffer(d, bytes)
    ensures var s := log.stream + bytes;
      var checks := e.count == 0 && e.pageCount >= MINIMUM_SIZE && d.pageCount < MINIMUM_SIZE;
      && (checks <==> |log.stream| < MINIMUM_SIZE <= |s|)
      && (checks ==> ParseInfo(e.page) == ParseInfo(s))
      && (!checks ==> HeaderKnown(e, s))
  {
    var s := log.stream + bytes;
    BufferKeeps(d, log.stream, bytes);
    if e.count == 0 && e.pageCount >= MINIMUM_SIZE {
      assert s[..e.pageCount] == e.page[..e.pageCount];
      assert s[..MINIMUM_SIZE] == s[..e.pageCount][..MINIMUM_SIZE] == e.page[..MINIMUM_SIZE];
      ParseInfoPrefix(e.page, s);
    }
    if |log.stream| >= MINIMUM_SIZE {
      assert s[..MINIMUM_SIZE] == log.stream[..MINIMUM_SIZE];
      ParseInfoPrefix(log.stream, s);
    }
  }

  lemma OnFlashGrows(d: Download, e: Download, log: Log, bytes: seq<byte>, mem: seq<byte>, dirty: bool)
    requires OnFlash(d, log, mem, dirty) && e.count == d.count
    requires d.count > 0 ==> e.info.startAddress == d.info.startAddress
    ensures OnFlash(e, log.(stream := log.stream + bytes), mem, dirty)
  {
    assert (log.stream + bytes)[..d.count] == log.stream[..d.count];
  }

  lemma SameBuffers(d: Download, e: Download, stream: seq<byte>)
    requires |d.page| == PAGE_SIZE && |d.overflow| == PACKET_SIZE && Buffered(d, stream)
    requires e == d.(info := e.info, appUpdate := e.appUpdate)
    ensures Buffered(e, stream)
  {
  }

  /** What a packet changes, whatever becomes of the header. */
  lemma PacketChanges(m: Machine, bytes: seq<byte>, n: Machine)
    requires Fitting(m) && m.download.pageCount < PAGE_SIZE && |bytes| <= PACKET_SIZE && n == PacketIn(m, bytes)
    ensures var e := Buffer(m.download, bytes);
      var checks := e.count == 0 && e.pageCount >= MINIMUM_SIZE && m.download.pageCount < MINIMUM_SIZE;
      && n.flash == m.flash && n.dirty == m.dirty && n.transfer == m.transfer
      && n.log == m.log.(stream := m.log.stream + bytes, headerChecks := m.log.headerChecks + if checks then 1 else 0)
      && n.download == e.(info := n.download.info, appUpdate := n.download.appUpdate)
      && n.download.info == (if checks then ParseInfo(e.page) else m.download.info)
      && (if checks && !Acceptable(ParseInfo(e.page))
          then n.state == Error && n.status in {ErrorTarget, ErrorFile}
          else n.state == m.state && n.status == m.status)
  {
    VerifyDecides(Buffer(m.download, bytes));
  }

  lemma PacketKeeps(m: Machine, bytes: seq<byte>)
    requires Inv(m) && m.state == DownloadSync && !m.download.pageWaiting && m.transfer == NoTransfer
    requires |bytes| <= PACKET_SIZE
    ensures Inv(PacketIn(m, bytes))
  {
    var d, log, n, e := m.download, m.log, PacketIn(m, bytes), Buffer(m.download, bytes);
    PacketChanges(m, bytes, n);
    HeaderStep(d, log, bytes, e);
    GatedGrows(log, m.flash.calls, bytes);
    if n.state != Error {
      BufferKeeps(d, log.stream, bytes);
      SameBuffers(e, n.download, n.log.stream);
      OnFlashGrows(d, n.download, log, bytes, m.flash.mem, m.dirty);
    }
    PacketFits(m, bytes, n);
  }

  /** The last step of PacketKeeps, on the facts it has collected. */
  lemma PacketFits(m: Machine, bytes: seq<byte>, n: Machine)
    requires Inv(m) && m.state == DownloadSync && m.transfer == NoTransfer && Fitting(n)
    requires n.flash == m.flash && n.dirty == m.dirty && n.transfer == m.transfer
    requires n.log == m.log.(stream := m.log.stream + bytes, headerChecks := n.log.headerChecks)
    requires n.log.headerChecks == if |n.log.stream| >= MINIMUM_SIZE then 1 else 0
    requires Gated(n.log, n.flash.calls)
    requires n.state in {DownloadSync, Error} && (n.state == Error <==> n.status != OK)
    requires n.state != Error ==> SessionData(n.download, n.log, n.flash, n.dirty)
    ensures Inv(n)
  {
  }

  lemma DataKeeps(m: Machine, bytes: seq<byte>)
    requires Inv(m)
    ensures Inv(OnData(m, bytes))
  {
    if m.transfer.Receiving? && |bytes| <= m.transfer.limit && |bytes| <= PACKET_SIZE {
      MoveKeeps(m, m.(transfer := NoTransfer));
      PacketKeeps(m.(transfer := NoTransfer), bytes);
    }
  }

  // ---------- Flushing a page ----------

  /** Where a waiting page goes. */
  lemma PageAddressKnown(m: Machine)
    requires Inv(m) && InSession(m) && (m.download.pageWaiting || m.state in {ManifestSync, Manifest})
    ensures var d := m.download;
      && HeaderKnown(d, m.log.stream) && |m.log.stream| >= MINIMUM_SIZE
      && Aligned(d.info.startAddress) && Aligned(d.count) && BOOTLOADER_START <= d.info.startAddress < FLASH_END
      && PageAddress(d) == d.info.startAddress + d.count && Aligned(d.info.startAddress + d.count)
      && d.info.startAddress + d.count < TWO_TO_THE_32
  {
    StreamCounted(m.download, m.log, m.flash.mem, m.dirty);
    StartsAligned();
    AlignedSum(m.download.info.startAddress, m.download.count);
  }

  /** A call at the page being collected is a gated call. */
  lemma GatedCallAt(log: Log, calls: seq<Call>, call: Call, d: Download)
    requires Gated(log, calls) && HeaderKnown(d, log.stream) && |log.stream| >= MINIMUM_SIZE
    requires Aligned(d.count) && d.count < |log.stream|
    requires call.page == d.info.startAddress + d.count
    ensures Gated(log, calls + [call])
  {
  }

  lemma DisciplinedCall(calls: seq<Call>, call: Call)
    requires Disciplined(calls) && (call.ProgramCall? ==> call.found == Blank(PAGE_SIZE))
    ensures Disciplined(calls + [call])
  {
  }

  /** An error after driver calls: only the call log still matters. */
  lemma FailedKeeps(m: Machine, n: Machine)
    requires Fitting(n) && n.state == Error && n.status != OK && n.dirty && !n.transfer.Receiving?
    requires n.log == m.log && m.log.headerChecks == if |m.log.stream| >= MINIMUM_SIZE then 1 else 0
    requires Gated(n.log, n.flash.calls) && Disciplined(n.flash.calls) && |n.flash.calls| > n.log.mark
    ensures Inv(n)
  {
  }

  /** Erase, then program: the staged image grows by a page. */
  lemma StagedGrows(base: seq<byte>, start: nat, chunk: seq<byte>, page: seq<byte>)
    requires |chunk| >= PAGE_SIZE && |page| == PAGE_SIZE && start + |chunk| + PAGE_SIZE <= |base|
    ensures var at := start + |chunk|;
      Splice(Splice(Staged(base, start, chunk), at, Blank(PAGE_SIZE)), at, page) == Staged(base, start, chunk + page)
  {
    var held := Blank(PAGE_SIZE) + chunk[PAGE_SIZE..];
    GrowSplice(base, start, held, start + |chunk|, page);
    TailGrows(chunk, page);
    StagedIs(base, start, chunk, held);
    StagedIs(base, start, chunk + page, held + page);
  }

  lemma StagedIs(base: seq<byte>, start: nat, chunk: seq<byte>, held: seq<byte>)
    requires |chunk| >= PAGE_SIZE && start + |chunk| <= |base| && held == Blank(PAGE_SIZE) + chunk[PAGE_SIZE..]
    ensures Staged(base, start, chunk) == Splice(base, start, held)
  {
  }

  lemma GrowSplice(base: seq<byte>, start: nat, held: seq<byte>, at: nat, page: seq<byte>)
    requires |page| == PAGE_SIZE && at == start + |held| && at + PAGE_SIZE <= |base|
    ensures Splice(Splice(Splice(base, start, held), at, Blank(PAGE_SIZE)), at, page) == Splice(base, start, held + page)
  {
    SpliceOver(Splice(base, start, held), at, Blank(PAGE_SIZE), page);
    SpliceTwo(base, start, held, page);
  }

  lemma TailGrows(chunk: seq<byte>, page: seq<byte>)
    requires |chunk| >= PAGE_SIZE
    ensures Blank(PAGE_SIZE) + (chunk + page)[PAGE_SIZE..] == Blank(PAGE_SIZE) + chunk[PAGE_SIZE..] + page
  {
    assert (chunk + page)[PAGE_SIZE..] == chunk[PAGE_SIZE..] + page;
  }

  lemma StagedFirst(base: seq<byte>, start: nat, page: seq<byte>)
    requires |page| == PAGE_SIZE && start + PAGE_SIZE <= |base|
    ensures Splice(base, start, Blank(PAGE_SIZE)) == Staged(base, start, page)
  {
    assert Blank(PAGE_SIZE) + page[PAGE_SIZE..] == Blank(PAGE_SIZE);
  }

  /** The overflow becomes the start of the next page. */
  lemma PageDoneBuffers(d: Download, stream: seq<byte>, e: Download)
    requires |d.page| == PAGE_SIZE && |d.overflow| == PACKET_SIZE
    requires Buffered(d, stream) && d.pageWaiting
    requires d.count == 0 ==> e.firstPage == d.page
    requires d.count > 0 ==> e.firstPage == d.firstPage
    requires e.count == d.count + PAGE_SIZE && e.pageCount == d.overflowCount && e.overflowCount == 0 && !e.pageWaiting
    requires e.page == Splice(d.page, 0, d.overflow[..d.overflowCount]) && e.overflow == d.overflow
    ensures Buffered(e, stream)
    ensures stream[..e.count] == stream[..d.count] + d.page
  {
    AlignedStep(d.count);
    assert stream[d.count + PAGE_SIZE..] == d.overflow[..d.overflowCount];
    assert e.page[..e.pageCount] == d.overflow[..d.overflowCount];
    assert stream[e.count..e.count + e.pageCount] == stream[d.count + PAGE_SIZE..];
    assert stream[d.count..d.count + PAGE_SIZE] == d.page[..PAGE_SIZE] == d.page;
    assert stream[..e.count] == stream[..d.count] + stream[d.count..e.count];
    if d.count == 0 {
      assert stream[..PAGE_SIZE] == d.page;
    }
  }

  /** The state of a session whose page has been flushed. */
  lemma PageDoneKeeps(m: Machine, n: Machine, f: FlashState)
    requires Inv(m) && m.state == DownloadBusy && m.dirty
    requires FlashControl.Sized(f) && n == PageDone(m.(flash := f,
               download := m.download.(firstPage := if m.download.count == 0 then m.download.page else m.download.firstPage)))
    requires m.download.info.startAddress + m.download.count + PAGE_SIZE <= FLASH_END
    requires f.mem == Staged(m.log.base, m.download.info.startAddress, m.log.stream[..m.download.count] + m.download.page)
    requires m.log.mark < |f.calls|
    requires f.calls[m.log.mark..] == PageCalls(m.download.info.startAddress, m.download.count + PAGE_SIZE)
    requires Gated(m.log, f.calls) && Disciplined(f.calls)
    ensures Inv(n)
  {
    PageAddressKnown(m);
    PageDoneBuffers(m.download, m.log.stream, n.download);
  }

  /** The first page: erased, and held back. */
  lemma FirstPageKeeps(drv: Driver, m: Machine, f: FlashState)
    requires drv.Honest() && Inv(m) && m.state == DownloadBusy && m.dirty && m.download.count == 0
    requires Erased(m.flash, m.download.info.startAddress, f, OK)
    requires Gated(m.log, f.calls) && Disciplined(f.calls)
    ensures Inv(AfterBusyErase(drv, m, f, OK))
  {
    var d := m.download;
    StagedFirst(m.log.base, d.info.startAddress, d.page);
    assert m.log.stream[..0] + d.page == d.page;
    assert f.calls[m.log.mark..] == PageCalls(d.info.startAddress, PAGE_SIZE);
    PageDoneKeeps(m, AfterBusyErase(drv, m, f, OK), f);
  }

  /** The calls of a session that has flushed another page. */
  lemma CallsGrow(before: seq<Call>, after: seq<Call>, mark: nat, start: nat, count: nat)
    requires count >= PAGE_SIZE && mark <= |before| && before[mark..] == PageCalls(start, count)
    requires var at := start + count; after == before + [EraseCall(at), ProgramCall(at, Blank(PAGE_SIZE))]
    ensures mark < |after| && after[mark..] == PageCalls(start, count + PAGE_SIZE)
  {
    var more := [EraseCall(start + count), ProgramCall(start + count, Blank(PAGE_SIZE))];
    assert after[mark..] == before[mark..] + more;
  }

  /** A later page: erased, and programmed. */
  lemma NextPageKeeps(m: Machine, at: nat, f: FlashState, g: FlashState)
    requires Inv(m) && m.state == DownloadBusy && m.dirty && m.download.count > 0
    requires at == m.download.info.startAddress + m.download.count
    requires Erased(m.flash, at, f, OK) && Programmed(f, at, m.download.page, g, OK)
    requires Gated(m.log, g.calls) && Disciplined(g.calls)
    ensures Inv(AfterBusyProgram(m, g, OK))
  {
    NextPageStaged(m, at, f, g);
    CallsGrow(m.flash.calls, g.calls, m.log.mark, m.download.info.startAddress, m.download.count);
    PageDoneKeeps(m, AfterBusyProgram(m, g, OK), g);
  }

  lemma NextPageStaged(m: Machine, at: nat, f: FlashState, g: FlashState)
    requires Inv(m) && m.state == DownloadBusy && m.download.count > 0
    requires at == m.download.info.startAddress + m.download.count
    requires Erased(m.flash, at, f, OK) && Programmed(f, at, m.download.page, g, OK)
    ensures at + PAGE_SIZE <= FLASH_END
    ensures g.mem == Staged(m.log.base, m.download.info.startAddress, m.log.stream[..m.download.count] + m.download.page)
  {
    var start, chunk := m.download.info.startAddress, m.log.stream[..m.download.count];
    assert m.flash.mem == Staged(m.log.base, start, chunk);
    PageStaged(m.log.base, start, at, chunk, m.download.page, m.flash, f, g);
  }

  lemma PageStaged(
    base: seq<byte>, start: nat, at: nat, chunk: seq<byte>, last: seq<byte>, before: FlashState, f: FlashState, g: FlashState)
    requires |chunk| >= PAGE_SIZE && at == start + |chunk| && at <= |base| == FLASH_END
    requires before.mem == Staged(base, start, chunk)
    requires Erased(before, at, f, OK) && Programmed(f, at, last, g, OK)
    ensures at + PAGE_SIZE <= FLASH_END && g.mem == Staged(base, start, chunk + last)
  {
    StagedGrows(base, start, chunk, last);
  }

  lemma CallsAt(log: Log, calls: seq<Call>, d: Download)
    requires Gated(log, calls) && Disciplined(calls) && HeaderKnown(d, log.stream) && |log.stream| >= MINIMUM_SIZE
    requires Aligned(d.count) && d.count < |log.stream|
    ensures var at := d.info.startAddress + d.count;
      var erased := calls + [EraseCall(at)];
      var programmed := erased + [ProgramCall(at, Blank(PAGE_SIZE))];
      Gated(log, erased) && Disciplined(erased) && Gated(log, programmed) && Disciplined(programmed)
  {
    var at := d.info.startAddress + d.count;
    GatedCallAt(log, calls, EraseCall(at), d);
    DisciplinedCall(calls, EraseCall(at));
    GatedCallAt(log, calls + [EraseCall(at)], ProgramCall(at, Blank(PAGE_SIZE)), d);
    DisciplinedCall(calls + [EraseCall(at)], ProgramCall(at, Blank(PAGE_SIZE)));
  }

  lemma BusyPrograms(drv: Driver, m: Machine, f: FlashState)
    requires Fitting(m) && drv.Sane() && FlashControl.Sized(f) && m.download.count > 0
    ensures var (g, status) := drv.program(f, PageAddress(m.download), m.download.page);
      AfterBusyErase(drv, m, f, OK) == AfterBusyProgram(m, g, status)
  {
  }

  lemma NextPageErased(drv: Driver, m: Machine, f: FlashState)
    requires drv.Honest() && Inv(m) && m.state == DownloadBusy && m.dirty && m.download.count > 0
    requires Erased(m.flash, m.download.info.startAddress + m.download.count, f, OK)
    ensures Inv(AfterBusyErase(drv, m, f, OK))
  {
    var at := m.download.info.startAddress + m.download.count;
    PageAddressKnown(m);
    var g, status := BusyProgrammed(drv, m, f, at);
    NextPageProgrammed(m, f, g, status);
  }

  /** What the program call of a flush yields, and where the engine goes with it. */
  lemma BusyProgrammed(drv: Driver, m: Machine, f: FlashState, at: nat) returns (g: FlashState, status: Status)
    requires drv.Honest() && Fitting(m) && m.download.count > 0 && PageAddress(m.download) == at && Aligned(at)
    requires Erased(m.flash, at, f, OK)
    ensures Programmed(f, at, m.download.page, g, status)
    ensures AfterBusyErase(drv, m, f, OK) == AfterBusyProgram(m, g, status)
  {
    SpliceBlank(m.flash.mem, at);
    BusyPrograms(drv, m, f);
    var (h, programmed) := drv.program(f, at, m.download.page);
    g, status := h, programmed;
  }

  lemma NextPageProgrammed(m: Machine, f: FlashState, g: FlashState, status: Status)
    requires Inv(m) && m.state == DownloadBusy && m.dirty && m.download.count > 0
    requires Erased(m.flash, m.download.info.startAddress + m.download.count, f, OK)
    requires Programmed(f, m.download.info.startAddress + m.download.count, m.download.page, g, status)
    ensures Inv(AfterBusyProgram(m, g, status))
  {
    PageAddressKnown(m);
    CallsAt(m.log, m.flash.calls, m.download);
    if status == OK {
      NextPageKeeps(m, m.download.info.startAddress + m.download.count, f, g);
    } else {
      FailedKeeps(m, AfterBusyProgram(m, g, status));
    }
  }

  lemma SpliceBlank(mem: seq<byte>, at: nat)
    requires at + PAGE_SIZE <= |mem|
    ensures BlankPage(Splice(mem, at, Blank(PAGE_SIZE)), at)
  {
  }

  lemma AfterBusyEraseKeeps(drv: Driver, m: Machine, f: FlashState, status: Status)
    requires drv.Honest() && Inv(m) && m.state == DownloadBusy && m.dirty
    requires Erased(m.flash, m.download.info.startAddress + m.download.count, f, status)
    ensures Inv(AfterBusyErase(drv, m, f, status))
  {
    PageAddressKnown(m);
    CallsAt(m.log, m.flash.calls, m.download);
    if status != OK {
      FailedKeeps(m, AfterBusyErase(drv, m, f, status));
    } else if m.download.count == 0 {
      FirstPageKeeps(drv, m, f);
    } else {
      NextPageErased(drv, m, f);
    }
  }

  lemma FlushKeeps(drv: Driver, m: Machine)
    requires drv.Honest() && Inv(m) && m.state == DownloadBusy
    ensures Inv(Flush(drv, m))
  {
    PageAddressKnown(m);
    var (f, status) := drv.erase(m.flash, PageAddress(m.download));
    DirtyKeeps(m);
    AfterBusyEraseKeeps(drv, m.(dirty := true), f, status);
  }

  lemma DirtyKeeps(m: Machine)
    requires Inv(m) && m.state != Detach
    ensures Inv(m.(dirty := true))
  {
  }
}
