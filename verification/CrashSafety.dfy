/** What a power loss leaves behind. The snapshots of FlashControl are the contents of memory after
    every primitive, so a property of every new snapshot is a property of every crash point. */
module CrashSafety {
  import opened Layout
  import opened Bytes
  import opened FlashControl
  import opened DfuMachine
  import opened Invariant
  import opened InvariantSteps
  import opened ManifestSteps
  import opened Protocol

  // ---------- The driver, between its primitives ----------

  ghost predicate AllBlank(f: FlashState, g: FlashState, at: nat) {
    forall k :: |f.snaps| <= k < |g.snaps| ==> BlankPage(g.snaps[k], at)
  }

  ghost predicate ErasesCarefully(before: FlashState, at: nat, f: FlashState) {
    && Touched(before, f, at, at + PAGE_SIZE)
    && (Orderly(before.script) ==> AllFading(before, f, at))
    && (AllNominal(before.script) ==> AllBlank(before, f, at))
    && (AllNominal(before.script) && InFlash(at, PAGE_SIZE) ==> |f.snaps| == |before.snaps| + 1)
  }

  /** The snapshots from the `from`-th on are the first ones of a healthy write loop. */
  ghost predicate BlocksSoFar(snaps: seq<seq<byte>>, from: nat, mem: seq<byte>, page: nat, data: seq<byte>) {
    && |data| == PAGE_SIZE && page + PAGE_SIZE <= |mem|
    && |snaps| <= from + BLOCKS
    && forall k :: from <= k < |snaps| ==> snaps[k] == Written(mem, page, data, k - from + 1)
  }

  ghost predicate ProgramsCarefully(before: FlashState, at: nat, data: seq<byte>, g: FlashState, status: Status) {
    && Touched(before, g, at, at + PAGE_SIZE)
    && (status == OK ==> |g.snaps| == |before.snaps| + BLOCKS)
    && (Confined(before.script) ==> InBlockOrder(before, g, at))
    && (AllNominal(before.script) && BlankPage(before.mem, at) ==> BlocksSoFar(g.snaps, |before.snaps|, before.mem, at, data))
  }

  /** Every primitive of a call stays in the page addressed, and a program goes through it block by
      block if the controller writes no more than the block it is given. An orderly erase leaves
      nothing new behind, and healthy hardware writes exactly one more block at a time. */
  ghost predicate Careful(drv: Driver) {
    && drv.Honest()
    && (forall f, at: nat {:trigger drv.erase(f, at)} ::
          FlashControl.Sized(f) && Aligned(at) ==> ErasesCarefully(f, at, drv.erase(f, at).0))
    && (forall f, at: nat, data {:trigger drv.program(f, at, data)} ::
          FlashControl.Sized(f) && Aligned(at) && |data| == PAGE_SIZE
          ==> ProgramsCarefully(f, at, data, drv.program(f, at, data).0, drv.program(f, at, data).1))
  }

  lemma FlashErasesCarefully(f: FlashState, at: nat)
    requires FlashControl.Sized(f) && Aligned(at)
    ensures ErasesCarefully(f, at, Erase(f, at).0)
  {
    var (g, status) := Erase(f, at);
    PageOfAligned(at);
    EraseContract(f, at, g, status);
    if Orderly(f.script) {
      EraseFades(f, at);
    }
    if AllNominal(f.script) {
      HealthyErase(f, at);
      if InFlash(at, PAGE_SIZE) {
        EraseNominal(f, at);
      }
    }
  }

  lemma HealthyErase(f: FlashState, at: nat)
    requires FlashControl.Sized(f) && Aligned(at) && AllNominal(f.script)
    ensures AllBlank(f, Erase(f, at).0, at)
  {
    PageOfAligned(at);
    if InFlash(at, PAGE_SIZE) {
      EraseNominal(f, at);
      SpliceBlank(f.mem, at);
    }
  }

  lemma FlashProgramsCarefully(f: FlashState, at: nat, data: seq<byte>)
    requires FlashControl.Sized(f) && Aligned(at) && |data| == PAGE_SIZE
    ensures ProgramsCarefully(f, at, data, Program(f, at, data).0, Program(f, at, data).1)
  {
    var (g, status) := Program(f, at, data);
    PageOfAligned(at);
    ProgramContract(f, at, data, g, status);
    if AllNominal(f.script) && BlankPage(f.mem, at) {
      HealthyBlocks(f, at, data);
    }
  }

  lemma HealthyBlocks(f: FlashState, at: nat, data: seq<byte>)
    requires FlashControl.Sized(f) && Aligned(at) && |data| == PAGE_SIZE && AllNominal(f.script) && BlankPage(f.mem, at)
    ensures BlocksSoFar(Program(f, at, data).0.snaps, |f.snaps|, f.mem, at, data)
  {
    PageOfAligned(at);
    if InFlash(at, PAGE_SIZE) {
      ProgramSnaps(f, at, data);
    } else {
      OutsideWritesNothing(f, at, data);
    }
  }

  lemma OutsideWritesNothing(f: FlashState, at: nat, data: seq<byte>)
    requires FlashControl.Sized(f) && |data| == PAGE_SIZE && !InFlash(PageOf(at), PAGE_SIZE)
    ensures Program(f, at, data).0.snaps == f.snaps
  {
  }

  lemma FlashIsCareful()
    ensures Careful(FLASH)
  {
    FlashIsHonest();
    forall f, at: nat {:trigger FLASH.erase(f, at)} | FlashControl.Sized(f) && Aligned(at)
      ensures ErasesCarefully(f, at, FLASH.erase(f, at).0)
    {
      FlashErasesCarefully(f, at);
    }
    forall f, at: nat, data {:trigger FLASH.program(f, at, data)} | FlashControl.Sized(f) && Aligned(at) && |data| == PAGE_SIZE
      ensures ProgramsCarefully(f, at, data, FLASH.program(f, at, data).0, FLASH.program(f, at, data).1)
    {
      FlashProgramsCarefully(f, at, data);
    }
  }

  // ---------- Crash points of a session ----------

  /** Only the image's first page differs from what was there when the session began; and that page
      is on its way to being blank, if erases are orderly. */
  ghost predicate OldBody(m: Machine, snap: seq<byte>) {
    var start := m.download.info.startAddress;
    && SameOutside(m.log.base, snap, start, start + PAGE_SIZE)
    && (Orderly(m.flash.script) ==> Fading(m.log.base, snap, start))
  }

  /** Only the image's first page differs from the finished image. */
  ghost predicate NewBody(m: Machine, snap: seq<byte>) {
    var s, start := m.log.stream, m.download.info.startAddress;
    && start + PageEnd(|s|) <= |m.log.base|
    && SameOutside(Install(m.log.base, start, s), snap, start, start + PAGE_SIZE)
  }

  /** Before the seal: the first page is blank, or it is the one being erased. */
  ghost predicate Unsealed(m: Machine, snap: seq<byte>) {
    && |snap| == FLASH_END
    && (BlankPage(snap, m.download.info.startAddress)
        || (m.download.count == 0 && OldBody(m, snap) && !AllNominal(m.flash.script)))
  }

  ghost predicate AllUnsealed(m: Machine, snaps: seq<seq<byte>>, from: nat, to: nat) {
    from <= to <= |snaps| && forall k :: from <= k < to ==> Unsealed(m, snaps[k])
  }

  ghost predicate AllNewBody(m: Machine, snaps: seq<seq<byte>>, from: nat) {
    from <= |snaps| && forall k :: from <= k < |snaps| ==> NewBody(m, snaps[k])
  }

  /** The region a session works on. */
  ghost predicate WorksInRegion(m: Machine, f: FlashState) {
    Touched(m.flash, f, m.download.info.startAddress, m.download.info.startAddress + PageEnd(|m.log.stream|))
  }

  /** A bootloader image that is being flushed ends before the application. The source does not check
      this. */
  ghost predicate Contained(m: Machine) {
    m.state in {DownloadBusy, Manifest} && m.download.info.startAddress == BOOTLOADER_START ==>
      BOOTLOADER_START + PageEnd(|m.log.stream|) <= APP_START
  }

  /** The crash points of the poll that takes `m` to `n`: up to `q` before the seal, from `q` on in
      it, block after block over the blank first page if the controller writes no more than the block
      it is given, and exactly the image's blocks on healthy hardware. */
  ghost predicate SealedFrom(m: Machine, n: Machine, q: nat) {
    && WorksInRegion(m, n.flash)
    && AllUnsealed(m, n.flash.snaps, |m.flash.snaps|, q)
    && AllNewBody(m, n.flash.snaps, q)
    && (Confined(m.flash.script) ==> OverBlank(n.flash.snaps, q, m.download.info.startAddress))
    && (AllNominal(m.flash.script) ==> SealBlocks(m, n.flash.snaps, q))
  }

  ghost predicate OverBlank(snaps: seq<seq<byte>>, q: nat, start: nat) {
    q <= |snaps| && forall k :: q <= k < |snaps| ==> BlankAfter(snaps[k], start, BLOCK_SIZE * (k - q + 1))
  }

  /** The page is still blank from `n` bytes on. */
  ghost predicate BlankAfter(snap: seq<byte>, page: nat, n: nat) {
    page + PAGE_SIZE <= |snap| && forall i :: page + n <= i < page + PAGE_SIZE ==> snap[i] == ERASED
  }

  /** From `q` on: the first page of the image, block after block, everything else being in place.
      Nothing has been sealed if the image does not fit. */
  ghost predicate SealBlocks(m: Machine, snaps: seq<seq<byte>>, q: nat) {
    var image, start := PaddedImage(m.log.stream), m.download.info.startAddress;
    && q <= |snaps|
    && (if |image| >= PAGE_SIZE && start + |image| <= |m.log.base|
        then BlocksSoFar(snaps, q, Staged(m.log.base, start, image), start, image[..PAGE_SIZE])
        else q == |snaps|)
  }

  /** `q` is the number of snapshots taken when the last program call was made; if the poll failed
      before that call, it is the number of all snapshots. */
  ghost predicate SealMarked(drv: Driver, m: Machine, n: Machine, q: nat) {
    && (n.state != Error ==> |n.flash.snaps| == q + BLOCKS)
    && (if |n.flash.calls| < |m.flash.calls| + |LastCalls(m.download)| then q == |n.flash.snaps| else SealCalled(drv, n, q))
  }

  ghost predicate SealCalled(drv: Driver, n: Machine, q: nat) {
    exists f: FlashState {:trigger drv.program(f, n.download.info.startAddress, n.download.firstPage)} ::
      |f.snaps| == q && n.flash == drv.program(f, n.download.info.startAddress, n.download.firstPage).0
  }

  // ---------- The seal ----------

  lemma StagedIsNewBody(m: Machine, image: seq<byte>, snap: seq<byte>)
    requires Sealable(m, image) && image == PaddedImage(m.log.stream)
    requires SameOutside(m.flash.mem, snap, m.download.info.startAddress, m.download.info.startAddress + PAGE_SIZE)
    ensures NewBody(m, snap)
  {
  }

  lemma SealPoints(drv: Driver, m: Machine, n: Machine)
    requires Careful(drv) && Sealable(m, PaddedImage(m.log.stream)) && n == SealImage(drv, m)
    ensures SealedFrom(m, n, |m.flash.snaps|) && SealCalled(drv, n, |m.flash.snaps|)
    ensures n.state != Error ==> |n.flash.snaps| == |m.flash.snaps| + BLOCKS
  {
    var start := m.download.info.startAddress;
    var (g, status) := drv.program(m.flash, start, m.download.firstPage);
    assert ProgramsCarefully(m.flash, start, m.download.firstPage, g, status);
    assert n.flash == g;
    SealSnaps(m, g, status);
  }

  lemma SealSnaps(m: Machine, g: FlashState, status: Status)
    requires Sealable(m, PaddedImage(m.log.stream))
    requires ProgramsCarefully(m.flash, m.download.info.startAddress, m.download.firstPage, g, status)
    ensures SealedFrom(m, m.(flash := g), |m.flash.snaps|)
  {
    var start, q := m.download.info.startAddress, |m.flash.snaps|;
    StagedIsBlank(m.log.base, start, PaddedImage(m.log.stream));
    TouchedWider(m.flash, g, start, start + PAGE_SIZE, start, start + PageEnd(|m.log.stream|));
    forall k | q <= k < |g.snaps| ensures NewBody(m, g.snaps[k]) {
      StagedIsNewBody(m, PaddedImage(m.log.stream), g.snaps[k]);
    }
    if Confined(m.flash.script) {
      SealOverBlank(m.flash, g, start);
    }
  }

  lemma SealOverBlank(f: FlashState, g: FlashState, start: nat)
    requires InBlockOrder(f, g, start) && f.snaps <= g.snaps && BlankPage(f.mem, start)
    ensures OverBlank(g.snaps, |f.snaps|, start)
  {
    var q := |f.snaps|;
    forall k | q <= k < |g.snaps| ensures BlankAfter(g.snaps[k], start, BLOCK_SIZE * (k - q + 1)) {
      assert SameOutside(f.mem, g.snaps[k], start, start + BLOCK_SIZE * (k - q + 1));
    }
  }

  // ---------- Later pages ----------

  /** Work on a later page leaves the blank first page alone. */
  lemma FirstPageStaysBlank(before: FlashState, after: FlashState, start: nat, at: nat)
    requires Touched(before, after, at, at + PAGE_SIZE) && BlankPage(before.mem, start) && start + PAGE_SIZE <= at
    ensures BlankPage(after.mem, start)
    ensures forall k :: |before.snaps| <= k < |after.snaps| ==> BlankPage(after.snaps[k], start)
  {
  }

  lemma UnsealedFrom(m: Machine, f: FlashState)
    requires WorksInRegion(m, f) && AllUnsealed(m, f.snaps, |m.flash.snaps|, |f.snaps|)
    ensures SealedFrom(m, m.(flash := f), |f.snaps|)
  {
  }

  /** The crash points before the seal join those of the seal. */
  lemma SealedLater(m: Machine, sealing: Machine, n: Machine)
    requires sealing.log == m.log && sealing.download.info == m.download.info
    requires WorksInRegion(m, sealing.flash)
    requires AllUnsealed(m, sealing.flash.snaps, |m.flash.snaps|, |sealing.flash.snaps|)
    requires SealedFrom(sealing, n, |sealing.flash.snaps|)
    ensures SealedFrom(m, n, |sealing.flash.snaps|)
  {
    var q, start := |sealing.flash.snaps|, m.download.info.startAddress;
    TouchedTransitive(m.flash, sealing.flash, n.flash, start, start + PageEnd(|m.log.stream|));
    assert AllUnsealed(m, n.flash.snaps, |m.flash.snaps|, q);
    forall k | q <= k < |n.flash.snaps| ensures NewBody(m, n.flash.snaps[k]) {
      assert NewBody(sealing, n.flash.snaps[k]);
    }
  }

  /** The first page itself is worked on: nothing else has changed since the session began. */
  lemma FirstErasePoints(m: Machine, f: FlashState)
    requires m.download.count == 0 && m.flash.mem == m.log.base && FlashControl.Sized(m.flash)
    requires ErasesCarefully(m.flash, m.download.info.startAddress, f)
    ensures AllUnsealed(m, f.snaps, |m.flash.snaps|, |f.snaps|)
  {
    forall k | |m.flash.snaps| <= k < |f.snaps| ensures Unsealed(m, f.snaps[k]) {
    }
  }

  lemma LaterPagePoints(m: Machine, f: FlashState, at: nat)
    requires Touched(m.flash, f, at, at + PAGE_SIZE) && BlankPage(m.flash.mem, m.download.info.startAddress)
    requires m.download.info.startAddress + PAGE_SIZE <= at && FlashControl.Sized(m.flash)
    ensures AllUnsealed(m, f.snaps, |m.flash.snaps|, |f.snaps|)
  {
    FirstPageStaysBlank(m.flash, f, m.download.info.startAddress, at);
  }

  /** A page of the stream lies in the region. */
  lemma PageInRegion(m: Machine, f: FlashState, at: nat)
    requires Touched(m.flash, f, at, at + PAGE_SIZE)
    requires m.download.info.startAddress <= at && at < m.download.info.startAddress + |m.log.stream|
    requires Aligned(at - m.download.info.startAddress)
    ensures WorksInRegion(m, f)
  {
    var start := m.download.info.startAddress;
    AlignedGap(at - start, PageEnd(|m.log.stream|));
    TouchedWider(m.flash, f, at, at + PAGE_SIZE, start, start + PageEnd(|m.log.stream|));
  }

  // ---------- A manifest ----------

  lemma ShortPoints(drv: Driver, m: Machine, n: Machine) returns (q: nat)
    requires Careful(drv) && Ready(m) && m.download.count == 0 && n == ManifestImage(drv, m)
    ensures SealedFrom(m, n, q) && SealMarked(drv, m, n, q)
  {
    var start := m.download.info.startAddress;
    var (f, status) := drv.erase(m.flash, start);
    assert m.log.stream[..0] == [];
    assert ErasesCarefully(m.flash, start, f);
    PageInRegion(m, f, start);
    FirstErasePoints(m, f);
    q := |f.snaps|;
    if status != OK {
      UnsealedFrom(m, f);
    } else {
      ShortSealPoints(drv, m, f, n);
    }
  }

  lemma ShortSealPoints(drv: Driver, m: Machine, f: FlashState, n: Machine)
    requires Careful(drv) && Ready(m) && m.download.count == 0 && Erased(m.flash, m.download.info.startAddress, f, OK)
    requires WorksInRegion(m, f) && AllUnsealed(m, f.snaps, |m.flash.snaps|, |f.snaps|)
    requires n == SealImage(drv, HoldBack(m).(flash := f))
    ensures SealedFrom(m, n, |f.snaps|) && SealMarked(drv, m, n, |f.snaps|)
  {
    var sealing := HoldBack(m).(flash := f);
    CallsAt(m.log, m.flash.calls, m.download);
    ShortSealable(m, f);
    SealPoints(drv, sealing, n);
    SealedLater(m, sealing, n);
    SealOutcome(drv, sealing, PaddedImage(m.log.stream), n);
  }

  lemma WholePoints(drv: Driver, m: Machine, n: Machine)
    requires Careful(drv) && Ready(m) && m.download.count > 0 && m.download.pageCount == 0 && n == ManifestImage(drv, m)
    ensures SealedFrom(m, n, |m.flash.snaps|) && SealMarked(drv, m, n, |m.flash.snaps|)
  {
    WholePages(m.download, m.log.stream);
    SealPoints(drv, m, n);
    SealOutcome(drv, m, m.log.stream, n);
  }

  lemma ReadyIsBlank(m: Machine)
    requires Ready(m) && m.download.count > 0
    ensures BlankPage(m.flash.mem, m.download.info.startAddress)
  {
    StagedIsBlank(m.log.base, m.download.info.startAddress, m.log.stream[..m.download.count]);
  }

  /** `at` is where the page in progress belongs. */
  ghost predicate Tail(m: Machine, at: nat) {
    && Ready(m) && m.download.count > 0 && m.download.pageCount > 0
    && at == m.download.info.startAddress + m.download.count
  }

  lemma TailPoints(drv: Driver, m: Machine, n: Machine) returns (q: nat)
    requires Careful(drv) && Ready(m) && m.download.count > 0 && m.download.pageCount > 0 && n == ManifestImage(drv, m)
    ensures SealedFrom(m, n, q) && SealMarked(drv, m, n, q)
  {
    var at := m.download.info.startAddress + m.download.count;
    var (f, status) := drv.erase(m.flash, at);
    TailErases(drv, m, at);
    assert ErasesCarefully(m.flash, at, f);
    assert Erased(m.flash, at, f, status);
    q := TailErasedPoints(drv, m, at, f, status, n);
  }

  lemma TailErasedPoints(drv: Driver, m: Machine, at: nat, f: FlashState, status: Status, n: Machine) returns (q: nat)
    requires Careful(drv) && Tail(m, at)
    requires Erased(m.flash, at, f, status) && Touched(m.flash, f, at, at + PAGE_SIZE)
    requires n == AfterLastErase(drv, WithLastPage(m), f, status)
    ensures SealedFrom(m, n, q) && SealMarked(drv, m, n, q)
  {
    if status != OK {
      q := |f.snaps|;
      TailUnsealed(m, f, at);
      UnsealedFrom(m, f);
    } else {
      q := TailProgramPoints(drv, m, at, f, n);
    }
  }

  lemma TailUnsealed(m: Machine, f: FlashState, at: nat)
    requires Tail(m, at) && Touched(m.flash, f, at, at + PAGE_SIZE)
    ensures WorksInRegion(m, f) && AllUnsealed(m, f.snaps, |m.flash.snaps|, |f.snaps|)
  {
    ReadyIsBlank(m);
    LaterPagePoints(m, f, at);
    PageInRegion(m, f, at);
  }

  lemma TailProgramPoints(drv: Driver, m: Machine, at: nat, f: FlashState, n: Machine) returns (q: nat)
    requires Careful(drv) && Tail(m, at)
    requires Erased(m.flash, at, f, OK) && Touched(m.flash, f, at, at + PAGE_SIZE)
    requires n == AfterLastErase(drv, WithLastPage(m), f, OK)
    ensures SealedFrom(m, n, q) && SealMarked(drv, m, n, q)
  {
    var last := Padded(m.download.page, m.download.pageCount);
    SpliceBlank(m.flash.mem, at);
    var (g, status) := drv.program(f, at, last);
    TailPrograms(drv, m, f, at);
    assert ProgramsCarefully(f, at, last, g, status);
    assert Programmed(f, at, last, g, status);
    TouchedTransitive(m.flash, f, g, at, at + PAGE_SIZE);
    q := |g.snaps|;
    TailProgrammedPoints(drv, m, at, last, f, g, status, n);
  }

  lemma TailProgrammedPoints(
    drv: Driver, m: Machine, at: nat, last: seq<byte>, f: FlashState, g: FlashState, status: Status, n: Machine)
    requires Careful(drv) && Tail(m, at) && last == Padded(m.download.page, m.download.pageCount)
    requires Erased(m.flash, at, f, OK) && Programmed(f, at, last, g, status)
    requires Touched(m.flash, g, at, at + PAGE_SIZE)
    requires n == AfterLastProgram(drv, WithLastPage(m), g, status)
    ensures SealedFrom(m, n, |g.snaps|) && SealMarked(drv, m, n, |g.snaps|)
  {
    TailUnsealed(m, g, at);
    if status != OK {
      UnsealedFrom(m, g);
    } else {
      TailIsSealable(m, at, last, f, g);
      TailSealPoints(drv, m, g, n);
    }
  }

  lemma TailIsSealable(m: Machine, at: nat, last: seq<byte>, f: FlashState, g: FlashState)
    requires Tail(m, at) && last == Padded(m.download.page, m.download.pageCount)
    requires Erased(m.flash, at, f, OK) && Programmed(f, at, last, g, OK)
    ensures Sealable(WithLastPage(m).(flash := g), PaddedImage(m.log.stream))
  {
    CallsAt(m.log, m.flash.calls, m.download);
    TailSealable(m, f, g);
  }

  lemma TailSealPoints(drv: Driver, m: Machine, g: FlashState, n: Machine)
    requires Careful(drv) && Fitting(m) && Sealable(WithLastPage(m).(flash := g), PaddedImage(m.log.stream))
    requires m.download.count > 0 && m.download.pageCount > 0 && |g.calls| == |m.flash.calls| + 2
    requires WorksInRegion(m, g) && AllUnsealed(m, g.snaps, |m.flash.snaps|, |g.snaps|)
    requires n == SealImage(drv, WithLastPage(m).(flash := g))
    ensures SealedFrom(m, n, |g.snaps|) && SealMarked(drv, m, n, |g.snaps|)
  {
    var sealing := WithLastPage(m).(flash := g);
    SealPoints(drv, sealing, n);
    SealedLater(m, sealing, n);
    SealOutcome(drv, sealing, PaddedImage(m.log.stream), n);
  }

  lemma ReadyPoints(drv: Driver, m: Machine, n: Machine) returns (q: nat)
    requires Careful(drv) && Ready(m) && n == ManifestImage(drv, m)
    ensures SealedFrom(m, n, q) && SealMarked(drv, m, n, q)
  {
    if m.download.count == 0 {
      q := ShortPoints(drv, m, n);
    } else if m.download.pageCount == 0 {
      q := |m.flash.snaps|;
      WholePoints(drv, m, n);
    } else {
      q := TailPoints(drv, m, n);
    }
  }

  /** The crash points of a manifest: first those before the seal, then those of the seal. */
  lemma ManifestPoints(drv: Driver, m: Machine) returns (q: nat)
    requires Careful(drv) && Inv(m) && m.state == Manifest
    ensures SealedFrom(m, OnPoll(drv, m), q) && SealMarked(drv, m, OnPoll(drv, m), q)
  {
    ManifestReady(m);
    q := ReadyPoints(drv, m, OnPoll(drv, m));
  }

  // ---------- A flush ----------

  lemma LaterFlushPoints(drv: Driver, m: Machine, f: FlashState, status: Status)
    requires Careful(drv) && Inv(m) && m.state == DownloadBusy && m.download.count > 0 && FlashControl.Sized(f)
    requires Touched(m.flash, f, PageAddress(m.download), PageAddress(m.download) + PAGE_SIZE)
    ensures var n := AfterBusyErase(drv, m, f, status);
      WorksInRegion(m, n.flash) && AllUnsealed(m, n.flash.snaps, |m.flash.snaps|, |n.flash.snaps|)
  {
    PageAddressKnown(m);
    var at := PageAddress(m.download);
    if status != OK {
      BusyUnsealed(m, f, at);
    } else {
      BusyPrograms(drv, m, f);
      var (g, programmed) := drv.program(f, at, m.download.page);
      assert ProgramsCarefully(f, at, m.download.page, g, programmed);
      BusyProgramPoints(m, f, g, programmed, at);
    }
  }

  lemma BusyProgramPoints(m: Machine, f: FlashState, g: FlashState, status: Status, at: nat)
    requires Inv(m) && m.state == DownloadBusy && m.download.count > 0 && at == PageAddress(m.download)
    requires Touched(m.flash, f, at, at + PAGE_SIZE) && Touched(f, g, at, at + PAGE_SIZE) && FlashControl.Sized(g)
    ensures var n := AfterBusyProgram(m, g, status);
      WorksInRegion(m, n.flash) && AllUnsealed(m, n.flash.snaps, |m.flash.snaps|, |n.flash.snaps|)
  {
    TouchedTransitive(m.flash, f, g, at, at + PAGE_SIZE);
    BusyUnsealed(m, g, at);
  }

  lemma BusyUnsealed(m: Machine, f: FlashState, at: nat)
    requires Inv(m) && m.state == DownloadBusy && m.download.count > 0
    requires at == PageAddress(m.download) && Touched(m.flash, f, at, at + PAGE_SIZE)
    ensures WorksInRegion(m, f) && AllUnsealed(m, f.snaps, |m.flash.snaps|, |f.snaps|)
  {
    PageAddressKnown(m);
    StagedIsBlank(m.log.base, m.download.info.startAddress, m.log.stream[..m.download.count]);
    LaterPagePoints(m, f, at);
    PageInRegion(m, f, at);
  }

  /** The crash points of a flush are all before the seal. */
  lemma FlushPoints(drv: Driver, m: Machine)
    requires Careful(drv) && Inv(m) && m.state == DownloadBusy
    ensures var n := OnPoll(drv, m);
      WorksInRegion(m, n.flash) && AllUnsealed(m, n.flash.snaps, |m.flash.snaps|, |n.flash.snaps|)
  {
    PageAddressKnown(m);
    var (f, status) := drv.erase(m.flash, PageAddress(m.download));
    assert ErasesCarefully(m.flash, PageAddress(m.download), f);
    DirtyKeeps(m);
    var dirty := m.(dirty := true);
    if m.download.count == 0 {
      assert m.log.stream[..0] == [];
      FirstErasePoints(m, f);
      PageInRegion(m, f, m.download.info.startAddress);
    } else {
      LaterFlushPoints(drv, dirty, f, status);
      assert forall snap :: Unsealed(dirty, snap) == Unsealed(m, snap);
    }
  }

  // ---------- Every crash point of every run ----------

  /** A crash point of a session: before the seal, or in it. */
  ghost predicate SafePoint(m: Machine, snap: seq<byte>) {
    && |snap| == FLASH_END
    && (Unsealed(m, snap) || (m.state == Manifest && NewBody(m, snap)))
  }

  ghost predicate SafePoints(m: Machine, snaps: seq<seq<byte>>) {
    forall k :: |m.flash.snaps| <= k < |snaps| ==> SafePoint(m, snaps[k])
  }

  /** All crash points on the way from `m` to `n` are safe ones, and nothing outside the session's
      region has changed. */
  ghost predicate SafeStep(m: Machine, n: Machine) {
    WorksInRegion(m, n.flash) && SafePoints(m, n.flash.snaps)
  }

  lemma SnapSized(f: FlashState, g: FlashState, lo: nat, hi: nat, k: nat)
    requires Touched(f, g, lo, hi) && |f.snaps| <= k < |g.snaps|
    ensures |g.snaps[k]| == |f.mem|
  {
    assert SameOutside(f.mem, g.snaps[k], lo, hi);
  }

  lemma SealedSafely(m: Machine, n: Machine, q: nat)
    requires FlashControl.Sized(m.flash) && m.state == Manifest && SealedFrom(m, n, q)
    ensures SafeStep(m, n)
  {
    forall k | |m.flash.snaps| <= k < |n.flash.snaps| ensures SafePoint(m, n.flash.snaps[k]) {
      SealedPoint(m, n, q, k);
    }
  }

  lemma SealedPoint(m: Machine, n: Machine, q: nat, k: nat)
    requires FlashControl.Sized(m.flash) && m.state == Manifest && SealedFrom(m, n, q)
    requires |m.flash.snaps| <= k < |n.flash.snaps|
    ensures SafePoint(m, n.flash.snaps[k])
    ensures if k < q then Unsealed(m, n.flash.snaps[k]) else NewBody(m, n.flash.snaps[k])
  {
    var start := m.download.info.startAddress;
    SnapSized(m.flash, n.flash, start, start + PageEnd(|m.log.stream|), k);
  }

  lemma UnsealedSafely(m: Machine, n: Machine)
    requires WorksInRegion(m, n.flash) && AllUnsealed(m, n.flash.snaps, |m.flash.snaps|, |n.flash.snaps|)
    ensures SafeStep(m, n)
  {
  }

  /** Every crash point of every step is a safe one. */
  lemma StepCrashPoints(drv: Driver, m: Machine, e: Event)
    requires Careful(drv) && Inv(m)
    ensures SafeStep(m, Step(drv, m, e))
    ensures |m.flash.snaps| < |Step(drv, m, e).flash.snaps| ==> e == Poll && m.state in {DownloadBusy, Manifest}
  {
    if e == Poll && m.state == DownloadBusy {
      FlushPoints(drv, m);
      UnsealedSafely(m, OnPoll(drv, m));
    } else if e == Poll && m.state == Manifest {
      var q := ManifestPoints(drv, m);
      SealedSafely(m, OnPoll(drv, m), q);
    } else {
      OnlyPollsTouchFlash(drv, m, e);
    }
  }

  /** The `k`-th snapshot was taken during the `i`-th event of the run, and is safe for the session of
      that time. */
  ghost predicate TakenAt(drv: Driver, m: Machine, events: seq<Event>, i: nat, snap: seq<byte>, k: nat)
    requires Fitting(m) && drv.Sane() && i < |events|
  {
    TakenBetween(Run(drv, m, events[..i]), events[i], Run(drv, m, events[..i + 1]), snap, k)
  }

  ghost predicate TakenBetween(before: Machine, e: Event, after: Machine, snap: seq<byte>, k: nat) {
    && e == Poll && before.state in {DownloadBusy, Manifest}
    && |before.flash.snaps| <= k < |after.flash.snaps| && after.flash.snaps[k] == snap
    && Inv(before) && SafePoint(before, snap)
  }

  /** Wherever power is lost in whatever run: memory is a safe crash point of the session under way. */
  lemma {:induction false} RunCrashPoints(drv: Driver, m: Machine, events: seq<Event>, k: nat) returns (i: nat)
    requires Careful(drv) && Inv(m)
    requires |m.flash.snaps| <= k < |Run(drv, m, events).flash.snaps|
    ensures i < |events| && TakenAt(drv, m, events, i, Run(drv, m, events).flash.snaps[k], k)
  {
    i := |events| - 1;
    var prefix := events[..i];
    RunKeeps(drv, m, prefix);
    TakenLast(drv, Run(drv, m, prefix), events[i], k);
    if k < |Run(drv, m, prefix).flash.snaps| {
      i := RunCrashPoints(drv, m, prefix, k);
      TakenInPrefix(drv, m, prefix, events, i, Run(drv, m, prefix).flash.snaps[k], k);
    } else {
      assert events[..i + 1] == events;
    }
  }

  /** A snapshot is an old one, or the step has just taken it. */
  lemma TakenLast(drv: Driver, before: Machine, e: Event, k: nat)
    requires Careful(drv) && Inv(before) && k < |Step(drv, before, e).flash.snaps|
    ensures var after := Step(drv, before, e);
      if k < |before.flash.snaps| then after.flash.snaps[k] == before.flash.snaps[k]
      else TakenBetween(before, e, after, after.flash.snaps[k], k)
  {
    StepCrashPoints(drv, before, e);
  }

  lemma TakenInPrefix(drv: Driver, m: Machine, prefix: seq<Event>, events: seq<Event>, i: nat, snap: seq<byte>, k: nat)
    requires Fitting(m) && drv.Sane() && i < |prefix| && prefix <= events
    requires TakenAt(drv, m, prefix, i, snap, k)
    ensures TakenAt(drv, m, events, i, snap, k)
  {
    assert prefix[..i] == events[..i] && prefix[..i + 1] == events[..i + 1];
  }

  lemma {:induction false} SnapsGrow(drv: Driver, m: Machine, events: seq<Event>)
    requires Careful(drv) && Inv(m)
    ensures m.flash.snaps <= Run(drv, m, events).flash.snaps
  {
    if events != [] {
      var prefix := events[..|events| - 1];
      SnapsGrow(drv, m, prefix);
      RunKeeps(drv, m, prefix);
      StepCrashPoints(drv, Run(drv, m, prefix), events[|events| - 1]);
    }
  }
}
