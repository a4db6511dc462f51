/** Manifesting keeps the invariant, and when it succeeds the image is in flash, whole and alone. */
module ManifestSteps {
  import opened Layout
  import opened Bytes
  import opened FlashControl
  import opened DfuMachine
  import opened Invariant
  import opened InvariantSteps

  /** The stream filled up to whole pages with erased bytes. */
  function PaddedImage(stream: seq<byte>): (image: seq<byte>)
    ensures |image| == PageEnd(|stream|) && Aligned(|image|)
  {
    stream + Blank(PageEnd(|stream|) - |stream|)
  }

  /** Memory with exactly the image at `start` and everything else as in `base`. */
  function Install(base: seq<byte>, start: nat, stream: seq<byte>): (mem: seq<byte>)
    requires start + PageEnd(|stream|) <= |base|
    ensures |mem| == |base|
  {
    Splice(base, start, PaddedImage(stream))
  }

  /** Byte by byte: the stream, FF up to the end of its last 16 KiB page, and what was there before. */
  lemma InstalledBytes(base: seq<byte>, start: nat, stream: seq<byte>, i: nat)
    requires start + PageEnd(|stream|) <= |base| && i < |base|
    ensures Install(base, start, stream)[i] ==
      if start <= i < start + |stream| then stream[i - start]
      else if start + |stream| <= i < start + PageEnd(|stream|) then 0xFF
      else base[i]
    ensures PageEnd(|stream|) % 0x4000 == 0 && |stream| <= PageEnd(|stream|) < |stream| + 0x4000
  {
    PageOfMasks(|stream| + PAGE_SIZE - 1);
  }

  /** Every driver call of a finished session, in order: the first page is programmed last. */
  function SessionCalls(start: nat, pages: nat): seq<Call> {
    PageCalls(start, pages) + [ProgramCall(start, Blank(PAGE_SIZE))]
  }

  // ---------- The seal ----------

  /** All pages of `image` but the first are in place, the first is blank and held back. */
  ghost predicate Sealable(m: Machine, image: seq<byte>) {
    var start := m.download.info.startAddress;
    && Fitting(m) && m.state == Manifest && m.dirty && !m.transfer.Receiving?
    && m.log.headerChecks == (if |m.log.stream| >= MINIMUM_SIZE then 1 else 0)
    && HeaderKnown(m.download, m.log.stream) && |m.log.stream| >= MINIMUM_SIZE
    && Aligned(start) && start < FLASH_END
    && |image| >= PAGE_SIZE && start + |image| <= FLASH_END && |m.log.base| == FLASH_END
    && m.flash.mem == Staged(m.log.base, start, image)
    && m.download.firstPage == image[..PAGE_SIZE]
    && Gated(m.log, m.flash.calls) && Disciplined(m.flash.calls)
  }

  lemma StagedIsBlank(base: seq<byte>, start: nat, image: seq<byte>)
    requires |image| >= PAGE_SIZE && start + |image| <= |base|
    ensures BlankPage(Staged(base, start, image), start)
  {
  }

  lemma StagedSealed(base: seq<byte>, start: nat, image: seq<byte>)
    requires |image| >= PAGE_SIZE && start + |image| <= |base|
    ensures Splice(Staged(base, start, image), start, image[..PAGE_SIZE]) == Splice(base, start, image)
  {
    var held := Blank(PAGE_SIZE) + image[PAGE_SIZE..];
    assert Staged(base, start, image) == Splice(base, start, held);
  }

  /** The last program either fails, or completes the image and commits it. */
  lemma SealOutcome(drv: Driver, m: Machine, image: seq<byte>, n: Machine)
    requires drv.Honest() && Sealable(m, image) && n == SealImage(drv, m)
    ensures Inv(n)
    ensures n.flash.calls == m.flash.calls + [ProgramCall(m.download.info.startAddress, Blank(PAGE_SIZE))]
    ensures n.state == Error || Manifested(m, n, Splice(m.log.base, m.download.info.startAddress, image))
  {
    var start, first := m.download.info.startAddress, m.download.firstPage;
    StagedIsBlank(m.log.base, start, image);
    var (g, status) := drv.program(m.flash, start, first);
    SealGated(m, ProgramCall(start, Blank(PAGE_SIZE)));
    DisciplinedCall(m.flash.calls, ProgramCall(start, Blank(PAGE_SIZE)));
    if status == OK {
      StagedSealed(m.log.base, start, image);
    }
    AfterSealKeeps(m, g, status);
  }

  lemma SealGated(m: Machine, call: Call)
    requires Gated(m.log, m.flash.calls) && call.page == m.download.info.startAddress
    requires HeaderKnown(m.download, m.log.stream) && |m.log.stream| >= MINIMUM_SIZE
    ensures Gated(m.log, m.flash.calls + [call])
  {
    AlignedStep(0);
  }

  lemma AfterSealKeeps(m: Machine, g: FlashState, status: Status)
    requires Fitting(m) && FlashControl.Sized(g) && m.dirty && !m.transfer.Receiving?
    requires m.log.headerChecks == if |m.log.stream| >= MINIMUM_SIZE then 1 else 0
    requires Gated(m.log, g.calls) && Disciplined(g.calls) && |g.calls| > m.log.mark
    ensures Inv(AfterSeal(m, g, status))
  {
  }

  /** `n` has finished the manifest of `m`, leaving `mem` in flash. */
  ghost predicate Manifested(m: Machine, n: Machine, mem: seq<byte>) {
    && n.state == ManifestSync && n.status == OK && n.download.done && !n.dirty
    && n.flash.mem == mem
    && n.log == m.log.(committed := mem)
  }

  // ---------- The page in progress ----------

  lemma PaddedEnd(count: nat, n: nat)
    requires Aligned(count) && 0 < n <= PAGE_SIZE
    ensures PageEnd(count + n) == count + PAGE_SIZE
    ensures PageEnd(count) == count
  {
    AlignedStep(count);
    PageOfWithin(count + PAGE_SIZE, n - 1);
    PageOfWithin(count, PAGE_SIZE - 1);
  }

  /** The image is whole pages already. */
  lemma WholePages(d: Download, stream: seq<byte>)
    requires |d.page| == PAGE_SIZE && |d.overflow| == PACKET_SIZE && Buffered(d, stream)
    requires d.pageCount == 0 && !d.pageWaiting
    ensures PaddedImage(stream) == stream == stream[..d.count]
  {
    PaddedEnd(d.count, 1);
  }

  /** The page in progress completes the padded image. */
  lemma LastPage(d: Download, stream: seq<byte>)
    requires |d.page| == PAGE_SIZE && |d.overflow| == PACKET_SIZE && Buffered(d, stream)
    requires 0 < d.pageCount && !d.pageWaiting
    ensures PaddedImage(stream) == stream[..d.count] + Padded(d.page, d.pageCount)
    ensures |PaddedImage(stream)| == d.count + PAGE_SIZE
  {
    PaddedEnd(d.count, d.pageCount);
    assert stream == stream[..d.count] + stream[d.count..];
    assert stream[d.count..] == d.page[..d.pageCount];
  }

  /** Ready to manifest: the facts of the Manifest state that the cases below start from. */
  ghost predicate Ready(m: Machine) {
    var d, start := m.download, m.download.info.startAddress;
    && Fitting(m) && m.state == Manifest && !m.transfer.Receiving?
    && m.log.headerChecks == (if |m.log.stream| >= MINIMUM_SIZE then 1 else 0)
    && Gated(m.log, m.flash.calls) && Disciplined(m.flash.calls)
    && !d.pageWaiting && Buffered(d, m.log.stream) && HeaderKnown(d, m.log.stream)
    && |m.log.stream| == d.count + d.pageCount && |m.log.stream| >= MINIMUM_SIZE
    && |m.log.base| == FLASH_END
    && (d.count > 0 ==> m.dirty && d.count >= PAGE_SIZE && start + d.count <= FLASH_END)
    && m.flash.mem == Staged(m.log.base, start, m.log.stream[..d.count])
    && PageAddress(d) == start + d.count && Aligned(start + d.count)
    && Aligned(start) && start < FLASH_END
  }

  lemma ManifestReady(m: Machine)
    requires Inv(m) && m.state == Manifest
    ensures Ready(m)
  {
    PageAddressKnown(m);
    StreamCounted(m.download, m.log, m.flash.mem, m.dirty);
  }

  /** How a manifest of `m` may end: in an error, or with the padded image installed. */
  ghost predicate ManifestEnds(m: Machine, n: Machine) {
    && Inv(n)
    && (n.state == Error || Installed(m, n))
  }

  ghost predicate Installed(m: Machine, n: Machine) {
    && m.download.info.startAddress + PageEnd(|m.log.stream|) <= |m.log.base|
    && Manifested(m, n, Install(m.log.base, m.download.info.startAddress, m.log.stream))
    && n.flash.calls == m.flash.calls + LastCalls(m.download)
  }

  /** The driver calls of a manifest. */
  function LastCalls(d: Download): seq<Call> {
    var start, at := d.info.startAddress, d.info.startAddress + d.count;
    var seal := ProgramCall(start, Blank(PAGE_SIZE));
    if d.count == 0 then [EraseCall(start), seal]
    else if d.pageCount == 0 then [seal]
    else [EraseCall(at), ProgramCall(at, Blank(PAGE_SIZE)), seal]
  }

  /** An image shorter than a page: erased, then programmed from the held-back copy. */
  lemma ShortImage(drv: Driver, m: Machine, n: Machine)
    requires drv.Honest() && Ready(m) && m.download.count == 0 && n == ManifestImage(drv, m)
    ensures ManifestEnds(m, n)
  {
    var d, stream, start := m.download, m.log.stream, m.download.info.startAddress;
    var held := HoldBack(m);
    LastPage(d, stream);
    var (f, status) := drv.erase(held.flash, start);
    CallsAt(m.log, m.flash.calls, d);
    if status != OK {
      FailedKeeps(m, n);
    } else {
      ShortSealable(m, f);
      SealOutcome(drv, held.(flash := f), PaddedImage(stream), n);
    }
  }

  lemma ShortSealable(m: Machine, f: FlashState)
    requires Ready(m) && m.download.count == 0 && Erased(m.flash, m.download.info.startAddress, f, OK)
    requires Gated(m.log, f.calls) && Disciplined(f.calls)
    ensures Sealable(HoldBack(m).(flash := f), PaddedImage(m.log.stream))
  {
    var d, stream := m.download, m.log.stream;
    var image := PaddedImage(stream);
    LastPage(d, stream);
    assert stream[..0] + Padded(d.page, d.pageCount) == Padded(d.page, d.pageCount);
    assert image[..PAGE_SIZE] == image;
    StagedFirst(m.log.base, d.info.startAddress, image);
  }

  /** Whole pages: only the seal is missing. */
  lemma WholeImage(drv: Driver, m: Machine, n: Machine)
    requires drv.Honest() && Ready(m) && m.download.count > 0 && m.download.pageCount == 0 && n == ManifestImage(drv, m)
    ensures ManifestEnds(m, n)
  {
    WholePages(m.download, m.log.stream);
    SealOutcome(drv, m, m.log.stream, n);
  }

  /** The machine with the page in progress padded, as the source leaves it. */
  function WithLastPage(m: Machine): Machine
    requires Fitting(m)
  {
    m.(download := m.download.(page := Padded(m.download.page, m.download.pageCount)))
  }

  // The machine's own steps, unfolded one at a time.

  lemma TailErases(drv: Driver, m: Machine, at: nat)
    requires drv.Sane() && Fitting(m) && m.download.count > 0 && m.download.pageCount > 0 && PageAddress(m.download) == at
    ensures var (f, status) := drv.erase(m.flash, at); ManifestImage(drv, m) == AfterLastErase(drv, WithLastPage(m), f, status)
  {
  }

  lemma TailPrograms(drv: Driver, m: Machine, f: FlashState, at: nat)
    requires drv.Sane() && Fitting(m) && FlashControl.Sized(f) && PageAddress(m.download) == at
    ensures var (g, status) := drv.program(f, at, WithLastPage(m).download.page);
      AfterLastErase(drv, WithLastPage(m), f, OK) == AfterLastProgram(drv, WithLastPage(m), g, status)
  {
  }

  /** The padded page in progress is erased and programmed; then comes the seal. */
  lemma TailImage(drv: Driver, m: Machine, n: Machine)
    requires drv.Honest() && Ready(m) && m.download.count > 0 && m.download.pageCount > 0 && n == ManifestImage(drv, m)
    ensures ManifestEnds(m, n)
  {
    var at := m.download.info.startAddress + m.download.count;
    var (f, erased) := drv.erase(m.flash, at);
    TailErases(drv, m, at);
    TailErased(drv, m, f, erased, n);
  }

  lemma TailErased(drv: Driver, m: Machine, f: FlashState, status: Status, n: Machine)
    requires drv.Honest() && Ready(m) && m.download.count > 0 && m.download.pageCount > 0
    requires Erased(m.flash, m.download.info.startAddress + m.download.count, f, status)
    requires n == AfterLastErase(drv, WithLastPage(m), f, status)
    ensures ManifestEnds(m, n)
  {
    var at := m.download.info.startAddress + m.download.count;
    CallsAt(m.log, m.flash.calls, m.download);
    if status != OK {
      FailedKeeps(m, n);
    } else {
      var last := Padded(m.download.page, m.download.pageCount);
      SpliceBlank(m.flash.mem, at);
      var (g, programmed) := drv.program(f, at, last);
      TailPrograms(drv, m, f, at);
      TailProgrammed(drv, m, f, g, programmed, n);
    }
  }

  lemma TailProgrammed(drv: Driver, m: Machine, f: FlashState, g: FlashState, status: Status, n: Machine)
    requires drv.Honest() && Ready(m) && m.download.count > 0 && m.download.pageCount > 0
    requires Erased(m.flash, m.download.info.startAddress + m.download.count, f, OK)
    requires Programmed(f, m.download.info.startAddress + m.download.count, Padded(m.download.page, m.download.pageCount), g, status)
    requires Gated(m.log, g.calls) && Disciplined(g.calls)
    requires n == AfterLastProgram(drv, WithLastPage(m), g, status)
    ensures ManifestEnds(m, n)
  {
    if status != OK {
      FailedKeeps(m, n);
    } else {
      TailSealable(m, f, g);
      TailSealed(drv, m, WithLastPage(m).(flash := g), n);
    }
  }

  lemma TailSealed(drv: Driver, m: Machine, sealing: Machine, n: Machine)
    requires drv.Honest() && Fitting(m) && m.download.count > 0 && m.download.pageCount > 0
    requires Sealable(sealing, PaddedImage(m.log.stream)) && n == SealImage(drv, sealing)
    requires sealing == WithLastPage(m).(flash := sealing.flash)
    requires var at := m.download.info.startAddress + m.download.count;
      sealing.flash.calls == m.flash.calls + [EraseCall(at), ProgramCall(at, Blank(PAGE_SIZE))]
    ensures ManifestEnds(m, n)
  {
    SealOutcome(drv, sealing, PaddedImage(m.log.stream), n);
  }

  lemma TailSealable(m: Machine, f: FlashState, g: FlashState)
    requires Ready(m) && m.download.count > 0 && m.download.pageCount > 0
    requires Erased(m.flash, m.download.info.startAddress + m.download.count, f, OK)
    requires Programmed(f, m.download.info.startAddress + m.download.count, Padded(m.download.page, m.download.pageCount), g, OK)
    requires Gated(m.log, g.calls) && Disciplined(g.calls)
    ensures Sealable(WithLastPage(m).(flash := g), PaddedImage(m.log.stream))
  {
    var start := m.download.info.startAddress;
    var chunk, last := m.log.stream[..m.download.count], Padded(m.download.page, m.download.pageCount);
    LastPage(m.download, m.log.stream);
    PageStaged(m.log.base, start, start + m.download.count, chunk, last, m.flash, f, g);
    assert PaddedImage(m.log.stream)[..PAGE_SIZE] == m.log.stream[..PAGE_SIZE];
  }

  lemma ManifestOutcome(drv: Driver, m: Machine)
    requires drv.Honest() && Inv(m) && m.state == Manifest
    ensures ManifestEnds(m, ManifestImage(drv, m))
  {
    ManifestReady(m);
    var n := ManifestImage(drv, m);
    if m.download.count == 0 {
      ShortImage(drv, m, n);
    } else if m.download.pageCount == 0 {
      WholeImage(drv, m, n);
    } else {
      TailImage(drv, m, n);
    }
  }

  // ---------- Every step ----------

  lemma PollKeeps(drv: Driver, m: Machine)
    requires drv.Honest() && Inv(m)
    ensures Inv(OnPoll(drv, m))
  {
    if m.state == Manifest {
      ManifestOutcome(drv, m);
    } else if m.state == DownloadBusy {
      FlushKeeps(drv, m);
    }
  }

  lemma StepKeeps(drv: Driver, m: Machine, e: Event)
    requires drv.Honest() && Inv(m)
    ensures Inv(Step(drv, m, e))
  {
    match e
    case Setup(request, wLength, accepted) => SetupKeeps(m, request, wLength, accepted);
    case Data(bytes) => DataKeeps(m, bytes);
    case SendDone(ok) => SendDoneKeeps(m, ok);
    case Poll => PollKeeps(drv, m);
  }

  /** The invariant holds after every run. */
  lemma {:induction false} RunKeeps(drv: Driver, m: Machine, events: seq<Event>)
    requires drv.Honest() && Inv(m)
    ensures Inv(Run(drv, m, events))
  {
    if events != [] {
      RunKeeps(drv, m, events[..|events| - 1]);
      StepKeeps(drv, Run(drv, m, events[..|events| - 1]), events[|events| - 1]);
    }
  }
}
