/** Across aborted sessions, errors, restarts and resets: an application that carries its magic has the
    body of one memory, never of two. Its first page may be cut short; the CRC is for that. */
module AppWholeness {
  import opened Layout
  import opened Bytes
  import opened FlashControl
  import opened DfuMachine
  import opened Invariant
  import opened InvariantSteps
  import opened ManifestSteps
  import opened Protocol
  import opened CrashSafety
  import opened CrashBoot

  // ---------- What vouches for an application ----------

  /** Everything behind the application's first page. */
  ghost predicate SameBody(a: seq<byte>, b: seq<byte>) {
    |a| == |b| == FLASH_END && forall i :: APP_START + PAGE_SIZE <= i < FLASH_END ==> a[i] == b[i]
  }

  /** Memory without magic in the application's first page, or with the body of `whole`. */
  ghost predicate Vouched(mem: seq<byte>, whole: seq<byte>) {
    |mem| == |whole| == FLASH_END && (HasImage(mem) ==> SameBody(mem, whole))
  }

  /** The event begins the manifest of an application, whose completed memory is `whole`. The
      invariant of `m` says that its stream is whole and its header acceptable. */
  ghost predicate Installs(m: Machine, e: Event, whole: seq<byte>) {
    && e == Poll && m.state == Manifest && m.download.info.startAddress == APP_START
    && APP_START + PageEnd(|m.log.stream|) <= |m.log.base|
    && whole == Install(m.log.base, APP_START, m.log.stream)
  }

  // ---------- Crash points ----------

  /** An erase that has not finished cannot make a magic out of anything else. */
  lemma FadingBringsNoMagic(mem: seq<byte>, snap: seq<byte>)
    requires |mem| == FLASH_END && Fading(mem, snap, APP_START) && HasImage(snap)
    ensures HasImage(mem)
  {
    var at := APP_START + INFO_OFFSET;
    var was, left := mem[at..at + 4], snap[at..at + 4];
    FourBytes(left);
    forall i | 0 <= i < 4 ensures left[i] == was[i] {
      assert left[i] == snap[at + i] && was[i] == mem[at + i];
      NoErasedByteInMagic(left, i);
    }
    assert left == was;
  }

  lemma NoErasedByteInMagic(b: seq<byte>, i: nat)
    requires |b| == 4 && LittleEndian(b) == BOOTLOADER_MAGIC && i < 4
    ensures b[i] != ERASED
  {
    FourBytes(b);
  }

  /** Work outside the application changes nothing about it. */
  lemma ElsewhereVouched(mem: seq<byte>, snap: seq<byte>, lo: nat, hi: nat, whole: seq<byte>)
    requires SameOutside(mem, snap, lo, hi) && hi <= APP_START && Vouched(mem, whole)
    ensures Vouched(snap, whole)
  {
    var at := APP_START + INFO_OFFSET;
    assert mem[at..at + 4] == snap[at..at + 4];
  }

  /** Before the seal: no magic, or still what the session found. */
  lemma UnsealedVouched(m: Machine, snap: seq<byte>, whole: seq<byte>)
    requires Unsealed(m, snap) && m.download.info.startAddress == APP_START && Orderly(m.flash.script)
    requires m.download.count == 0 ==> m.log.base == m.flash.mem
    requires Vouched(m.flash.mem, whole)
    ensures Vouched(snap, whole)
  {
    if BlankPage(snap, APP_START) {
      NoMagicWhereErased(snap);
    } else if HasImage(snap) {
      FadingBringsNoMagic(m.flash.mem, snap);
    }
  }

  lemma NewBodyVouched(m: Machine, snap: seq<byte>)
    requires NewBody(m, snap) && m.download.info.startAddress == APP_START && |m.log.base| == FLASH_END
    ensures Vouched(snap, Install(m.log.base, APP_START, m.log.stream))
  {
  }

  // ---------- A step ----------

  ghost predicate AllVouched(snaps: seq<seq<byte>>, from: nat, whole: seq<byte>, next: seq<byte>) {
    forall k :: from <= k < |snaps| ==> Vouched(snaps[k], whole) || Vouched(snaps[k], next)
  }

  /** Memory after a step is what its last crash point shows. */
  lemma MemoryIsLastPoint(m: Machine, n: Machine)
    requires WorksInRegion(m, n.flash)
    ensures m.flash.snaps <= n.flash.snaps
    ensures n.flash.mem == if |m.flash.snaps| < |n.flash.snaps| then n.flash.snaps[|n.flash.snaps| - 1] else m.flash.mem
  {
  }

  lemma SessionBase(m: Machine)
    requires Inv(m) && m.state in {DownloadBusy, Manifest}
    ensures |m.log.base| == FLASH_END && (m.download.count == 0 ==> m.log.base == m.flash.mem)
    ensures m.download.info.startAddress in {APP_START, BOOTLOADER_START}
  {
    PageAddressKnown(m);
    assert m.log.stream[..0] == [];
  }

  lemma BootloaderVouched(m: Machine, n: Machine, whole: seq<byte>)
    requires m.state in {DownloadBusy, Manifest} && m.download.info.startAddress == BOOTLOADER_START
    requires Contained(m) && WorksInRegion(m, n.flash) && Vouched(m.flash.mem, whole)
    ensures AllVouched(n.flash.snaps, |m.flash.snaps|, whole, whole) && Vouched(n.flash.mem, whole)
  {
    var hi := BOOTLOADER_START + PageEnd(|m.log.stream|);
    forall k | |m.flash.snaps| <= k < |n.flash.snaps| ensures Vouched(n.flash.snaps[k], whole) {
      ElsewhereVouched(m.flash.mem, n.flash.snaps[k], BOOTLOADER_START, hi, whole);
    }
    ElsewhereVouched(m.flash.mem, n.flash.mem, BOOTLOADER_START, hi, whole);
  }

  lemma AppFlushVouched(m: Machine, n: Machine, whole: seq<byte>)
    requires m.download.info.startAddress == APP_START && Orderly(m.flash.script)
    requires m.download.count == 0 ==> m.log.base == m.flash.mem
    requires WorksInRegion(m, n.flash) && AllUnsealed(m, n.flash.snaps, |m.flash.snaps|, |n.flash.snaps|)
    requires Vouched(m.flash.mem, whole)
    ensures AllVouched(n.flash.snaps, |m.flash.snaps|, whole, whole) && Vouched(n.flash.mem, whole)
  {
    MemoryIsLastPoint(m, n);
    forall k | |m.flash.snaps| <= k < |n.flash.snaps| ensures Vouched(n.flash.snaps[k], whole) {
      UnsealedVouched(m, n.flash.snaps[k], whole);
    }
  }

  lemma AppManifestVouched(m: Machine, n: Machine, q: nat, whole: seq<byte>) returns (next: seq<byte>)
    requires m.state == Manifest && m.download.info.startAddress == APP_START && Orderly(m.flash.script)
    requires |m.log.base| == FLASH_END && (m.download.count == 0 ==> m.log.base == m.flash.mem)
    requires SealedFrom(m, n, q) && Vouched(m.flash.mem, whole)
    ensures next == whole || Installs(m, Poll, next)
    ensures AllVouched(n.flash.snaps, |m.flash.snaps|, whole, next) && Vouched(n.flash.mem, next)
  {
    MemoryIsLastPoint(m, n);
    next := whole;
    if q < |n.flash.snaps| {
      assert NewBody(m, n.flash.snaps[q]);
      next := Install(m.log.base, APP_START, m.log.stream);
    }
    forall k | |m.flash.snaps| <= k < |n.flash.snaps|
      ensures if k < q then Vouched(n.flash.snaps[k], whole) else Vouched(n.flash.snaps[k], next)
    {
      if k < q {
        UnsealedVouched(m, n.flash.snaps[k], whole);
      } else {
        NewBodyVouched(m, n.flash.snaps[k]);
      }
    }
  }

  /** Every step keeps an application vouched for, by the memory that did so before or by that of the
      image whose manifest it begins; and so do all its crash points. */
  lemma StepVouched(drv: Driver, m: Machine, e: Event, whole: seq<byte>) returns (next: seq<byte>)
    requires Careful(drv) && Inv(m) && Orderly(m.flash.script) && (e == Poll ==> Contained(m))
    requires Vouched(m.flash.mem, whole)
    ensures next == whole || Installs(m, e, next)
    ensures var n := Step(drv, m, e);
      Vouched(n.flash.mem, next) && AllVouched(n.flash.snaps, |m.flash.snaps|, whole, next)
  {
    next := whole;
    if e == Poll && m.state in {DownloadBusy, Manifest} {
      SessionBase(m);
      next := PollVouched(drv, m, whole);
    } else {
      OnlyPollsTouchFlash(drv, m, e);
    }
  }

  lemma PollVouched(drv: Driver, m: Machine, whole: seq<byte>) returns (next: seq<byte>)
    requires Careful(drv) && Inv(m) && Orderly(m.flash.script) && Contained(m) && m.state in {DownloadBusy, Manifest}
    requires |m.log.base| == FLASH_END && (m.download.count == 0 ==> m.log.base == m.flash.mem)
    requires m.download.info.startAddress in {APP_START, BOOTLOADER_START}
    requires Vouched(m.flash.mem, whole)
    ensures next == whole || Installs(m, Poll, next)
    ensures var n := OnPoll(drv, m);
      Vouched(n.flash.mem, next) && AllVouched(n.flash.snaps, |m.flash.snaps|, whole, next)
  {
    var n := OnPoll(drv, m);
    next := whole;
    if m.download.info.startAddress == BOOTLOADER_START {
      StepCrashPoints(drv, m, Poll);
      BootloaderVouched(m, n, whole);
    } else if m.state == DownloadBusy {
      FlushPoints(drv, m);
      AppFlushVouched(m, n, whole);
    } else {
      var q := ManifestPoints(drv, m);
      next := AppManifestVouched(m, n, q, whole);
    }
  }

  // ---------- A run ----------

  /** Every bootloader image that the run polls on ends before the application. */
  ghost predicate ContainedRun(drv: Driver, m: Machine, events: seq<Event>)
    requires Fitting(m) && drv.Sane()
  {
    events != [] ==>
      (var prefix := events[..|events| - 1];
       ContainedRun(drv, m, prefix) && (events[|events| - 1] == Poll ==> Contained(Run(drv, m, prefix))))
  }

  /** The `i`-th event of the run begins the manifest of an application that completes `whole`. */
  ghost predicate InstallsAt(drv: Driver, m: Machine, events: seq<Event>, i: nat, whole: seq<byte>)
    requires Fitting(m) && drv.Sane()
  {
    i < |events| && Installs(Run(drv, m, events[..i]), events[i], whole)
  }

  /** `whole` vouched for the application when the run began, or an image that the run set out to
      install does. */
  ghost predicate Origin(drv: Driver, m: Machine, events: seq<Event>, first: seq<byte>, whole: seq<byte>)
    requires Fitting(m) && drv.Sane()
  {
    whole == first || exists i: nat :: InstallsAt(drv, m, events, i, whole)
  }

  lemma OriginGrows(drv: Driver, m: Machine, prefix: seq<Event>, events: seq<Event>, first: seq<byte>, whole: seq<byte>)
    requires Fitting(m) && drv.Sane() && prefix <= events && Origin(drv, m, prefix, first, whole)
    ensures Origin(drv, m, events, first, whole)
  {
    if whole != first {
      var i: nat :| InstallsAt(drv, m, prefix, i, whole);
      assert prefix[..i] == events[..i] && prefix[i] == events[i];
      assert InstallsAt(drv, m, events, i, whole);
    }
  }

  lemma OriginLast(drv: Driver, m: Machine, events: seq<Event>, first: seq<byte>, whole: seq<byte>, next: seq<byte>)
    requires Fitting(m) && drv.Sane() && events != []
    requires Origin(drv, m, events[..|events| - 1], first, whole)
    requires next == whole || Installs(Run(drv, m, events[..|events| - 1]), events[|events| - 1], next)
    ensures Origin(drv, m, events, first, whole) && Origin(drv, m, events, first, next)
  {
    OriginGrows(drv, m, events[..|events| - 1], events, first, whole);
    if next != whole {
      assert InstallsAt(drv, m, events, |events| - 1, next);
    }
  }

  lemma {:induction false} OrderlyThroughout(drv: Driver, m: Machine, events: seq<Event>)
    requires Careful(drv) && Inv(m) && Orderly(m.flash.script)
    ensures Orderly(Run(drv, m, events).flash.script)
  {
    if events != [] {
      var prefix := events[..|events| - 1];
      OrderlyThroughout(drv, m, prefix);
      RunKeeps(drv, m, prefix);
      StepCrashPoints(drv, Run(drv, m, prefix), events[|events| - 1]);
    }
  }

  /** At the end of every run, and at every crash point in it. */
  lemma {:induction false} RunVouched(drv: Driver, m: Machine, events: seq<Event>, first: seq<byte>) returns (whole: seq<byte>)
    requires Careful(drv) && Inv(m) && Orderly(m.flash.script) && ContainedRun(drv, m, events)
    requires Vouched(m.flash.mem, first)
    ensures Origin(drv, m, events, first, whole) && Vouched(Run(drv, m, events).flash.mem, whole)
  {
    if events == [] {
      whole := first;
    } else {
      var prefix, e := events[..|events| - 1], events[|events| - 1];
      var before := RunVouched(drv, m, prefix, first);
      RunKeeps(drv, m, prefix);
      OrderlyThroughout(drv, m, prefix);
      whole := StepVouched(drv, Run(drv, m, prefix), e, before);
      OriginLast(drv, m, events, first, before, whole);
    }
  }

  lemma {:induction false} CrashVouched(
    drv: Driver, m: Machine, events: seq<Event>, first: seq<byte>, k: nat)
    returns (whole: seq<byte>)
    requires Careful(drv) && Inv(m) && Orderly(m.flash.script) && ContainedRun(drv, m, events)
    requires Vouched(m.flash.mem, first)
    requires |m.flash.snaps| <= k < |Run(drv, m, events).flash.snaps|
    ensures Origin(drv, m, events, first, whole) && Vouched(Run(drv, m, events).flash.snaps[k], whole)
  {
    var prefix, e := events[..|events| - 1], events[|events| - 1];
    var before := Run(drv, m, prefix);
    RunKeeps(drv, m, prefix);
    StepCrashPoints(drv, before, e);
    if k < |before.flash.snaps| {
      whole := CrashVouched(drv, m, prefix, first, k);
      OriginGrows(drv, m, prefix, events, first, whole);
    } else {
      whole := LastCrashVouched(drv, m, events, first, k);
    }
  }

  lemma LastCrashVouched(drv: Driver, m: Machine, events: seq<Event>, first: seq<byte>, k: nat) returns (whole: seq<byte>)
    requires Careful(drv) && Inv(m) && Orderly(m.flash.script) && events != [] && ContainedRun(drv, m, events)
    requires Vouched(m.flash.mem, first)
    requires |Run(drv, m, events[..|events| - 1]).flash.snaps| <= k < |Run(drv, m, events).flash.snaps|
    ensures Origin(drv, m, events, first, whole) && Vouched(Run(drv, m, events).flash.snaps[k], whole)
  {
    var prefix, e := events[..|events| - 1], events[|events| - 1];
    var before := RunVouched(drv, m, prefix, first);
    RunKeeps(drv, m, prefix);
    OrderlyThroughout(drv, m, prefix);
    var next := StepVouched(drv, Run(drv, m, prefix), e, before);
    OriginLast(drv, m, events, first, before, next);
    whole := if Vouched(Run(drv, m, events).flash.snaps[k], before) then before else next;
  }

  // ---------- Resets ----------

  /** `g` is the flash that a reset may find after `events` on `f`: as the run leaves it, or as it was
      at one of the crash points. Nothing is known of the hardware from then on. */
  ghost predicate Reset(drv: Driver, f: FlashState, events: seq<Event>, g: FlashState)
    requires drv.Sane()
  {
    && FlashControl.Sized(f)
    && var n := Run(drv, PowerUp(f), events).flash;
      && g.calls == n.calls && g.snaps == n.snaps
      && (g.mem == n.mem || exists k :: |f.snaps| <= k < |n.snaps| && g.mem == n.snaps[k])
  }

  lemma ResetKeeps(drv: Driver, f: FlashState, events: seq<Event>, g: FlashState)
    requires Careful(drv) && Disciplined(f.calls) && Reset(drv, f, events, g)
    ensures FlashControl.Sized(g) && Disciplined(g.calls)
  {
    PowerUpHolds(f);
    RunKeeps(drv, PowerUp(f), events);
    var n := Run(drv, PowerUp(f), events).flash;
    if g.mem != n.mem {
      var k :| |f.snaps| <= k < |n.snaps| && g.mem == n.snaps[k];
      var i := RunCrashPoints(drv, PowerUp(f), events, k);
    }
  }

  lemma ResetVouched(drv: Driver, f: FlashState, events: seq<Event>, g: FlashState, first: seq<byte>) returns (whole: seq<byte>)
    requires Careful(drv) && Disciplined(f.calls) && Reset(drv, f, events, g)
    requires Orderly(f.script) && ContainedRun(drv, PowerUp(f), events) && Vouched(f.mem, first)
    ensures Origin(drv, PowerUp(f), events, first, whole) && Vouched(g.mem, whole)
  {
    PowerUpHolds(f);
    var n := Run(drv, PowerUp(f), events).flash;
    if g.mem == n.mem {
      whole := RunVouched(drv, PowerUp(f), events, first);
    } else {
      var k :| |f.snaps| <= k < |n.snaps| && g.mem == n.snaps[k];
      whole := CrashVouched(drv, PowerUp(f), events, first, k);
    }
  }

  /** The flash at each reset of a device's life, and what happened in between. */
  ghost predicate Lifetime(drv: Driver, flashes: seq<FlashState>, runs: seq<seq<Event>>)
    requires drv.Sane()
  {
    && |flashes| == |runs| + 1
    && forall i {:trigger runs[i]} :: 0 <= i < |runs| ==> Reset(drv, flashes[i], runs[i], flashes[i + 1])
  }

  /** However often power is lost or the device is reset, wherever in a run: no program call has met a
      byte that was not erased, and every reset leads into a state of the invariant. */
  lemma {:induction false} LifetimeKeeps(drv: Driver, flashes: seq<FlashState>, runs: seq<seq<Event>>, i: nat)
    requires Careful(drv) && Lifetime(drv, flashes, runs) && i <= |runs|
    requires FlashControl.Sized(flashes[0]) && Disciplined(flashes[0].calls)
    ensures FlashControl.Sized(flashes[i]) && Disciplined(flashes[i].calls) && Inv(PowerUp(flashes[i]))
  {
    if i > 0 {
      LifetimeKeeps(drv, flashes, runs, i - 1);
      ResetKeeps(drv, flashes[i - 1], runs[i - 1], flashes[i]);
    }
    PowerUpHolds(flashes[i]);
  }

  /** In every life the hardware erases in an orderly way and bootloader images end before the
      application. */
  ghost predicate Orderliness(drv: Driver, flashes: seq<FlashState>, runs: seq<seq<Event>>)
    requires drv.Sane() && Lifetime(drv, flashes, runs)
  {
    forall i {:trigger runs[i]} :: 0 <= i < |runs| ==>
      FlashControl.Sized(flashes[i]) && Orderly(flashes[i].script) && ContainedRun(drv, PowerUp(flashes[i]), runs[i])
  }

  ghost predicate InstalledIn(drv: Driver, f: FlashState, events: seq<Event>, e: nat, whole: seq<byte>)
    requires drv.Sane()
  {
    FlashControl.Sized(f) && InstallsAt(drv, PowerUp(f), events, e, whole)
  }

  /** `whole` is the memory of the first reset, or what some later run set out to install. */
  ghost predicate LifeOrigin(drv: Driver, flashes: seq<FlashState>, runs: seq<seq<Event>>, i: nat, whole: seq<byte>)
    requires drv.Sane() && Lifetime(drv, flashes, runs) && i <= |runs|
  {
    whole == flashes[0].mem || exists j: nat, e: nat :: j < i && InstalledIn(drv, flashes[j], runs[j], e, whole)
  }

  /** However often power is lost or the device is reset, wherever in a run: an application that a
      reset finds with its magic has the body of the very first memory, or that of one whole image
      that was received, checked and set out to be installed. Every life is taken to run the same code,
      also after a bootloader update. */
  lemma {:induction false} LifetimeVouched(
    drv: Driver, flashes: seq<FlashState>, runs: seq<seq<Event>>, i: nat) returns (whole: seq<byte>)
    requires Careful(drv) && Lifetime(drv, flashes, runs) && Orderliness(drv, flashes, runs) && i <= |runs|
    requires FlashControl.Sized(flashes[0]) && Disciplined(flashes[0].calls)
    ensures LifeOrigin(drv, flashes, runs, i, whole) && Vouched(flashes[i].mem, whole)
  {
    if i == 0 {
      whole := flashes[0].mem;
    } else {
      var before := LifetimeVouched(drv, flashes, runs, i - 1);
      whole := LifeVouched(drv, flashes, runs, i - 1, before);
    }
  }

  lemma LifeVouched(
    drv: Driver, flashes: seq<FlashState>, runs: seq<seq<Event>>, i: nat, before: seq<byte>) returns (whole: seq<byte>)
    requires Careful(drv) && Lifetime(drv, flashes, runs) && Orderliness(drv, flashes, runs) && i < |runs|
    requires FlashControl.Sized(flashes[0]) && Disciplined(flashes[0].calls)
    requires LifeOrigin(drv, flashes, runs, i, before) && Vouched(flashes[i].mem, before)
    ensures LifeOrigin(drv, flashes, runs, i + 1, whole) && Vouched(flashes[i + 1].mem, whole)
  {
    var f, events, g := flashes[i], runs[i], flashes[i + 1];
    LifetimeKeeps(drv, flashes, runs, i);
    assert Reset(drv, f, events, g) && Orderly(f.script) && ContainedRun(drv, PowerUp(f), events);
    whole := ResetVouched(drv, f, events, g, before);
    LifeOriginGrows(drv, flashes, runs, i, before, whole);
  }

  lemma LifeOriginGrows(drv: Driver, flashes: seq<FlashState>, runs: seq<seq<Event>>, i: nat, before: seq<byte>, whole: seq<byte>)
    requires drv.Sane() && Lifetime(drv, flashes, runs) && i < |runs| && FlashControl.Sized(flashes[i])
    requires LifeOrigin(drv, flashes, runs, i, before) && Origin(drv, PowerUp(flashes[i]), runs[i], before, whole)
    ensures LifeOrigin(drv, flashes, runs, i + 1, whole)
  {
    if whole != before {
      var e: nat :| InstallsAt(drv, PowerUp(flashes[i]), runs[i], e, whole);
      assert InstalledIn(drv, flashes[i], runs[i], e, whole);
    }
  }
}
