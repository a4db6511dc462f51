/** After a power loss: main can read what it finds, starts no mixture, and DFU mode can always
    install the application again. */
module Recovery {
  import opened Layout
  import opened FlashControl
  import opened DfuMachine
  import opened Invariant
  import opened ManifestSteps
  import opened Protocol
  import opened CrashSafety
  import opened CrashBoot
  import opened AppWholeness
  import opened Delivery
  import opened Bootloader
  import opened FirmwareUpdate

  // ---------- Every crash point can be read ----------

  /** A poll that works on flash works on an application, and when it installs one, the header lies
      within one block and delimits an image that reaches past its checksum. Polls that work on the
      bootloader are excluded: the code that would recover is what they replace. */
  ghost predicate WellFormed(m: Machine) {
    m.state in {DownloadBusy, Manifest} ==>
      && m.download.info.startAddress == APP_START
      && (m.state == Manifest ==> ReadableHeader(m.download.info))
  }

  /** The crash points from the `from`-th on: main can read them, and the bootloader is as in `mem`. */
  ghost predicate AllSound(snaps: seq<seq<byte>>, from: nat, mem: seq<byte>, magicReceived: bool) {
    forall k :: from <= k < |snaps| ==> Readable(snaps[k], magicReceived) && SameBootloader(mem, snaps[k])
  }

  lemma AppFlushReadable(m: Machine, n: Machine, magicReceived: bool)
    requires FlashControl.Sized(m.flash) && m.download.info.startAddress == APP_START && AllNominal(m.flash.script)
    requires WorksInRegion(m, n.flash) && AllUnsealed(m, n.flash.snaps, |m.flash.snaps|, |n.flash.snaps|)
    requires SelfReadable(m.flash.mem)
    ensures AllReadable(n.flash.snaps, |m.flash.snaps|, magicReceived)
  {
    forall k | |m.flash.snaps| <= k < |n.flash.snaps| ensures Readable(n.flash.snaps[k], magicReceived) {
      BootloaderUntouched(m, n.flash, k);
      UnsealedReadable(m, n.flash.snaps[k], magicReceived);
    }
  }

  lemma PollReadable(drv: Driver, m: Machine, magicReceived: bool)
    requires Careful(drv) && Inv(m) && m.state in {DownloadBusy, Manifest} && WellFormed(m)
    requires AllNominal(m.flash.script) && SelfReadable(m.flash.mem)
    ensures AllReadable(OnPoll(drv, m).flash.snaps, |m.flash.snaps|, magicReceived)
    ensures WorksInRegion(m, OnPoll(drv, m).flash)
  {
    var n := OnPoll(drv, m);
    if m.state == DownloadBusy {
      FlushPoints(drv, m);
      AppFlushReadable(m, n, magicReceived);
    } else {
      var q := ManifestPoints(drv, m);
      ManifestReady(m);
      ManifestOnlyWhole(m);
      SealedReadable(m, n, q, magicReceived);
    }
  }

  lemma PollSound(m: Machine, n: Machine, magicReceived: bool)
    requires FlashControl.Sized(m.flash) && m.download.info.startAddress == APP_START && WorksInRegion(m, n.flash)
    requires AllReadable(n.flash.snaps, |m.flash.snaps|, magicReceived) && Readable(m.flash.mem, magicReceived)
    ensures AllSound(n.flash.snaps, |m.flash.snaps|, m.flash.mem, magicReceived)
    ensures Readable(n.flash.mem, magicReceived) && SameBootloader(m.flash.mem, n.flash.mem) && Inherits(m.flash.script, n.flash.script)
  {
    MemoryIsLastPoint(m, n);
    forall k | |m.flash.snaps| <= k < |n.flash.snaps|
      ensures Readable(n.flash.snaps[k], magicReceived) && SameBootloader(m.flash.mem, n.flash.snaps[k])
    {
      BootloaderUntouched(m, n.flash, k);
    }
  }

  /** Main can read memory after the step and at all its crash points, and the bootloader is as before. */
  ghost predicate SoundStep(m: Machine, n: Machine, magicReceived: bool) {
    && m.flash.snaps <= n.flash.snaps
    && AllSound(n.flash.snaps, |m.flash.snaps|, m.flash.mem, magicReceived)
    && Readable(n.flash.mem, magicReceived) && SameBootloader(m.flash.mem, n.flash.mem)
    && AllNominal(n.flash.script)
  }

  lemma PollSoundStep(drv: Driver, m: Machine, magicReceived: bool)
    requires Careful(drv) && Inv(m) && m.state in {DownloadBusy, Manifest} && WellFormed(m)
    requires AllNominal(m.flash.script) && Readable(m.flash.mem, magicReceived)
    ensures SoundStep(m, OnPoll(drv, m), magicReceived)
  {
    PollReadable(drv, m, magicReceived);
    PollSound(m, OnPoll(drv, m), magicReceived);
    MemoryIsLastPoint(m, OnPoll(drv, m));
  }

  lemma StillSound(m: Machine, n: Machine, magicReceived: bool)
    requires n.flash == m.flash && Readable(m.flash.mem, magicReceived) && AllNominal(m.flash.script)
    ensures SoundStep(m, n, magicReceived)
  {
  }

  /** On hardware that does what it should, every crash point of a step leaves memory that main can
      read, with the bootloader untouched; and so does the step. */
  lemma StepReadable(drv: Driver, m: Machine, e: Event, magicReceived: bool)
    requires Careful(drv) && Inv(m) && AllNominal(m.flash.script) && Readable(m.flash.mem, magicReceived)
    requires e == Poll ==> WellFormed(m)
    ensures SoundStep(m, Step(drv, m, e), magicReceived)
  {
    if e == Poll && m.state in {DownloadBusy, Manifest} {
      PollSoundStep(drv, m, magicReceived);
    } else {
      OnlyPollsTouchFlash(drv, m, e);
      StillSound(m, Step(drv, m, e), magicReceived);
    }
  }

  /** Every poll of the run is well-formed. */
  ghost predicate WellFormedRun(drv: Driver, m: Machine, events: seq<Event>)
    requires Fitting(m) && drv.Sane()
  {
    events != [] ==>
      (var prefix := events[..|events| - 1];
       WellFormedRun(drv, m, prefix) && (events[|events| - 1] == Poll ==> WellFormed(Run(drv, m, prefix))))
  }

  lemma {:induction false} RunReadable(drv: Driver, m: Machine, events: seq<Event>, magicReceived: bool)
    requires Careful(drv) && Inv(m) && AllNominal(m.flash.script) && Readable(m.flash.mem, magicReceived)
    requires WellFormedRun(drv, m, events)
    ensures var n := Run(drv, m, events);
      && AllSound(n.flash.snaps, |m.flash.snaps|, m.flash.mem, magicReceived)
      && Readable(n.flash.mem, magicReceived) && SameBootloader(m.flash.mem, n.flash.mem)
      && AllNominal(n.flash.script)
  {
    if events != [] {
      var prefix, e := events[..|events| - 1], events[|events| - 1];
      RunReadable(drv, m, prefix, magicReceived);
      RunKeeps(drv, m, prefix);
      StepReadable(drv, Run(drv, m, prefix), e, magicReceived);
      JoinSound(Run(drv, m, prefix).flash, Run(drv, m, events).flash, |m.flash.snaps|, m.flash.mem, magicReceived);
    }
  }

  lemma JoinSound(before: FlashState, after: FlashState, from: nat, mem: seq<byte>, magicReceived: bool)
    requires before.snaps <= after.snaps && SameBootloader(mem, before.mem)
    requires AllSound(before.snaps, from, mem, magicReceived)
    requires AllSound(after.snaps, |before.snaps|, before.mem, magicReceived)
    ensures AllSound(after.snaps, from, mem, magicReceived)
  {
    forall k | from <= k < |after.snaps| ensures Readable(after.snaps[k], magicReceived) && SameBootloader(mem, after.snaps[k]) {
      if k < |before.snaps| {
        assert after.snaps[k] == before.snaps[k];
      }
    }
  }

  /** The condition is exact for hardware that completes every primitive: a manifest of an application
      that fits has no crash point that main cannot read if and only if main could read its own image
      before and the application's header is readable in this sense. */
  lemma HealthyManifestReadable(drv: Driver, m: Machine, magicReceived: bool)
    requires Careful(drv) && Healthy(drv) && Inv(m) && m.state == Manifest && AllNominal(m.flash.script)
    requires m.download.info.startAddress == APP_START && APP_START + PageEnd(|m.log.stream|) <= FLASH_END
    ensures AllReadable(OnPoll(drv, m).flash.snaps, |m.flash.snaps|, magicReceived)
       <==> (SelfReadable(m.flash.mem) && ReadableHeader(ParseInfo(m.log.stream)))
  {
    HealthyManifest(drv, m);
    ManifestReadable(drv, m, magicReceived);
  }

  /** Otherwise this is a crash point that main cannot read: no reset reaches DFU mode again. */
  lemma UnreadablePoint(drv: Driver, m: Machine, magicReceived: bool) returns (k: nat)
    requires Careful(drv) && Healthy(drv) && Inv(m) && m.state == Manifest && AllNominal(m.flash.script)
    requires m.download.info.startAddress == APP_START && APP_START + PageEnd(|m.log.stream|) <= FLASH_END
    requires !(SelfReadable(m.flash.mem) && ReadableHeader(ParseInfo(m.log.stream)))
    ensures |m.flash.snaps| <= k < |OnPoll(drv, m).flash.snaps|
    ensures |OnPoll(drv, m).flash.snaps[k]| == FLASH_END && Decide(OnPoll(drv, m).flash.snaps[k], magicReceived) == ReadFault
  {
    HealthyManifestReadable(drv, m, magicReceived);
    var n := OnPoll(drv, m);
    k :| |m.flash.snaps| <= k < |n.flash.snaps| && !Readable(n.flash.snaps[k], magicReceived);
    PointSized(drv, m, k);
  }

  lemma PointSized(drv: Driver, m: Machine, k: nat)
    requires Careful(drv) && Inv(m) && m.state == Manifest && |m.flash.snaps| <= k < |OnPoll(drv, m).flash.snaps|
    ensures |OnPoll(drv, m).flash.snaps[k]| == FLASH_END
  {
    StepCrashPoints(drv, m, Poll);
    assert SafePoint(m, OnPoll(drv, m).flash.snaps[k]);
  }

  // ---------- And back to a running application ----------

  /** What a host has done when `download` is over: it has sent the image without a fault, and exactly
      the image has been installed. */
  ghost predicate Reinstalls(f: FlashState, image: seq<byte>, download: seq<Event>)
    requires FlashControl.Sized(f) && Installable(image)
  {
    && FLASH.Sane()
    && FaultFree(FLASH, PowerUp(f), image, download) && LeftOver(image, download) == []
    && Run(FLASH, PowerUp(f), download).state == Idle
    && Delivered(Run(FLASH, PowerUp(f), download), f.mem, image)
  }

  /** What a detach request and a reset make of it. */
  ghost predicate StartsAfter(f: FlashState, download: seq<Event>, magicReceived: bool)
    requires FlashControl.Sized(f) && FLASH.Sane()
  {
    var n := Run(FLASH, PowerUp(f), download + [Setup(RequestDetach, 0, true)]);
    n.state == Detach && Decide(n.flash.mem, magicReceived) == WithApp(f.mem, magicReceived)
  }

  /** When a reset enters DFU, whatever flash holds: there is a fault-free download of any bootable
      application, of at most five steps a byte and five more, that installs it whole, and after a
      detach request main starts it, unless it is asked for DFU or cannot read its own image. */
  lemma DfuIsRecoverable(f: FlashState, image: seq<byte>, wanted: nat, magicReceived: bool) returns (download: seq<Event>)
    requires FlashControl.Sized(f) && Disciplined(f.calls) && AllNominal(f.script) && 0 < wanted <= PACKET_SIZE
    requires Installable(image) && ParseInfo(image).startAddress == APP_START && Bootable(image)
    ensures FLASH.Sane() && |download| <= 5 * |image| + 5
    ensures Reinstalls(f, image, download) && StartsAfter(f, download, magicReceived)
  {
    FlashIsHealthy();
    PowerUpHolds(f);
    download := DownloadCompletes(FLASH, PowerUp(f), image, wanted);
    DetachStarts(f, image, download, magicReceived);
  }

  lemma DetachStarts(f: FlashState, image: seq<byte>, download: seq<Event>, magicReceived: bool)
    requires FlashControl.Sized(f) && Installable(image)
    requires ParseInfo(image).startAddress == APP_START && Bootable(image) && Reinstalls(f, image, download)
    ensures StartsAfter(f, download, magicReceived)
  {
    var events := download + [Setup(RequestDetach, 0, true)];
    assert events[..|events| - 1] == download;
    InstalledBoots(f.mem, image, magicReceived);
  }

  /** Power is lost between any two primitives of any well-formed run on hardware that does what it
      should. The bootloader is untouched; the reset starts an application or enters DFU; and from DFU
      any bootable application can be installed and started. */
  lemma PowerLossIsRecoverable(
    f: FlashState, events: seq<Event>, g: FlashState, image: seq<byte>, wanted: nat, magicReceived: bool)
    returns (download: seq<Event>)
    requires FlashControl.Sized(f) && Disciplined(f.calls) && AllNominal(f.script) && Readable(f.mem, magicReceived)
    requires FLASH.Sane() && WellFormedRun(FLASH, PowerUp(f), events)
    requires Reset(FLASH, f, events, g) && AllNominal(g.script)
    requires Installable(image) && ParseInfo(image).startAddress == APP_START && Bootable(image) && 0 < wanted <= PACKET_SIZE
    ensures FlashControl.Sized(g) && g.mem[..APP_START] == f.mem[..APP_START]
    ensures Decide(g.mem, magicReceived) in {JumpToApp, EnterDfu}
    ensures |download| <= 5 * |image| + 5 && Reinstalls(g, image, download)
    ensures StartsAfter(g, download, magicReceived) && WithApp(g.mem, false) == JumpToApp
  {
    PowerLossReadable(f, events, g, magicReceived);
    download := DfuIsRecoverable(g, image, wanted, magicReceived);
  }

  lemma PowerLossReadable(f: FlashState, events: seq<Event>, g: FlashState, magicReceived: bool)
    requires FlashControl.Sized(f) && Disciplined(f.calls) && AllNominal(f.script) && Readable(f.mem, magicReceived)
    requires FLASH.Sane() && WellFormedRun(FLASH, PowerUp(f), events) && Reset(FLASH, f, events, g)
    ensures FlashControl.Sized(g) && Disciplined(g.calls)
    ensures Decide(g.mem, magicReceived) != ReadFault && SelfReadable(g.mem)
    ensures g.mem[..APP_START] == f.mem[..APP_START]
  {
    FlashIsCareful();
    PowerUpHolds(f);
    RunReadable(FLASH, PowerUp(f), events, magicReceived);
    ResetKeeps(FLASH, f, events, g);
    ResetReadable(f, events, g, magicReceived);
  }

  lemma ResetReadable(f: FlashState, events: seq<Event>, g: FlashState, magicReceived: bool)
    requires FLASH.Sane() && Reset(FLASH, f, events, g)
    requires var n := Run(FLASH, PowerUp(f), events);
      && AllSound(n.flash.snaps, |f.snaps|, f.mem, magicReceived)
      && Readable(n.flash.mem, magicReceived) && SameBootloader(f.mem, n.flash.mem)
    ensures Readable(g.mem, magicReceived) && SameBootloader(f.mem, g.mem)
  {
  }

  // ---------- No mixture ----------

  /** Wherever in whatever run power is lost: the `i`-th event, a poll, has left that memory, and if
      main starts an application from it, everything but its first page is as that poll's session
      found it, or as its finished image has it. */
  lemma CrashNeverBootsMixture(f: FlashState, events: seq<Event>, k: nat, magicReceived: bool) returns (i: nat)
    requires FlashControl.Sized(f) && Disciplined(f.calls)
    requires FLASH.Sane() && |f.snaps| <= k < |Run(FLASH, PowerUp(f), events).flash.snaps|
    ensures i < |events| && TakenAt(FLASH, PowerUp(f), events, i, Run(FLASH, PowerUp(f), events).flash.snaps[k], k)
    ensures var snap, m := Run(FLASH, PowerUp(f), events).flash.snaps[k], Run(FLASH, PowerUp(f), events[..i]);
      && |snap| == FLASH_END
      && (m.download.info.startAddress == APP_START && Decide(snap, magicReceived) == JumpToApp ==>
            (m.download.count == 0 && OldBody(m, snap)) || (m.state == Manifest && NewBody(m, snap)))
  {
    FlashIsCareful();
    PowerUpHolds(f);
    i := RunCrashPoints(FLASH, PowerUp(f), events, k);
    var m := Run(FLASH, PowerUp(f), events[..i]);
    if m.download.info.startAddress == APP_START {
      NeverBootsMixture(m, Run(FLASH, PowerUp(f), events).flash.snaps[k], magicReceived);
    }
  }

  /** Over any number of lives, with orderly erases and bootloader images that end before the
      application: an application that a reset starts has the body of the first memory, or that of one
      whole image that some run set out to install. Every life is taken to run the same code. */
  lemma StartedAppIsWhole(
    drv: Driver, flashes: seq<FlashState>, runs: seq<seq<Event>>, i: nat, magicReceived: bool) returns (whole: seq<byte>)
    requires Careful(drv) && Lifetime(drv, flashes, runs) && Orderliness(drv, flashes, runs) && i <= |runs|
    requires FlashControl.Sized(flashes[0]) && Disciplined(flashes[0].calls)
    ensures LifeOrigin(drv, flashes, runs, i, whole) && FlashControl.Sized(flashes[i])
    ensures Decide(flashes[i].mem, magicReceived) == JumpToApp ==> SameBody(flashes[i].mem, whole)
  {
    whole := LifetimeVouched(drv, flashes, runs, i);
    JumpsIffIntact(flashes[i].mem, magicReceived);
  }
}
