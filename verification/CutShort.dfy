/** Power lost in the middle of a primitive, and in the middle of replacing the bootloader: what the
    order of the writes cannot protect. */
module CutShort {
  import opened Layout
  import opened Bytes
  import opened FlashControl
  import opened DfuMachine
  import opened Invariant
  import opened InvariantSteps
  import opened ManifestSteps
  import opened CrashSafety
  import opened CrashBoot
  import opened AppWholeness
  import opened Bootloader

  // ---------- An erase cut short ----------

  /** The bytes from `lo` to `hi` have been reached, the others not. */
  function Reached(size: nat, lo: nat, hi: nat): (done: seq<bool>)
    ensures |done| == size && forall i :: 0 <= i < size ==> done[i] == (lo <= i < hi)
  {
    seq(size, i => lo <= i < hi)
  }

  /** A primitive that stops after reaching some bytes. */
  function Stops(done: seq<bool>): seq<Primitive> {
    [Primitive(true, Interrupted(done))]
  }

  lemma StopsOrderly(done: seq<bool>)
    ensures Orderly(Stops(done)) && Confined(Stops(done))
  {
  }

  /** The erase of the application's first page has reached the length field of its header. */
  function LengthReached(): seq<bool> {
    Reached(PAGE_SIZE, INFO_OFFSET + LENGTH_FIELD, INFO_OFFSET + LENGTH_FIELD + 4)
  }

  /** Four bytes that have been reached are erased, the others are as before. */
  lemma ReachedBytes(mem: seq<byte>, left: seq<byte>, page: nat, lo: nat, place: nat)
    requires page + PAGE_SIZE <= |mem| && lo + 4 <= PAGE_SIZE && place == page + lo
    requires left == Splice(mem, page, Partly(mem[page..page + PAGE_SIZE], Blank(PAGE_SIZE), Reached(PAGE_SIZE, lo, lo + 4)))
    ensures SameOutside(mem, left, place, place + 4) && left[place..place + 4] == Blank(4)
  {
    var held := mem[page..page + PAGE_SIZE];
    var part := Partly(held, Blank(PAGE_SIZE), Reached(PAGE_SIZE, lo, lo + 4));
    forall i | 0 <= i < PAGE_SIZE ensures part[i] == if lo <= i < lo + 4 then ERASED else mem[page + i] {
      assert held[i] == mem[page + i];
    }
  }

  lemma MagicBeforeLength(mem: seq<byte>, length: nat, magicReceived: bool)
    requires |mem| == FLASH_END && HasImage(mem) && length == Word(mem, APP_START + (INFO_OFFSET + LENGTH_FIELD))
    requires length == 0xFFFF_FFFF
    ensures Decide(mem, magicReceived) == ReadFault
  {
    assert APP_START + INFO_OFFSET + LENGTH_FIELD == APP_START + (INFO_OFFSET + LENGTH_FIELD);
    FaultsByLength(mem, magicReceived);
  }

  /** An erase of an application's first page that stops when it has reached the length and not the
      magic leaves memory that main cannot read. */
  lemma CutEraseUnreadable(f: FlashState, magicReceived: bool)
    requires FlashControl.Sized(f) && HasImage(f.mem) && f.script == Stops(LengthReached())
    ensures var g := Erase(f, APP_START).0;
      g.snaps == f.snaps + [g.mem] && |g.mem| == FLASH_END && Decide(g.mem, magicReceived) == ReadFault
  {
    AppPageInFlash();
    CutErase(f, LengthReached());
    LengthGone(f.mem, Erase(f, APP_START).0.mem, magicReceived);
  }

  lemma CutErase(f: FlashState, done: seq<bool>)
    requires FlashControl.Sized(f) && InFlash(APP_START, PAGE_SIZE) && f.script == Stops(done)
    ensures var g := Erase(f, APP_START).0;
      && g.snaps == f.snaps + [g.mem]
      && g.mem == Splice(f.mem, APP_START, Partly(f.mem[APP_START..APP_START + PAGE_SIZE], Blank(PAGE_SIZE), done))
  {
    StartsAligned();
    PageOfAligned(APP_START);
  }

  lemma LengthGone(mem: seq<byte>, left: seq<byte>, magicReceived: bool)
    requires |mem| == FLASH_END && APP_START + PAGE_SIZE <= FLASH_END && HasImage(mem)
    requires left == Splice(mem, APP_START, Partly(mem[APP_START..APP_START + PAGE_SIZE], Blank(PAGE_SIZE), LengthReached()))
    ensures Decide(left, magicReceived) == ReadFault
  {
    ReachedBytes(mem, left, APP_START, INFO_OFFSET + LENGTH_FIELD, APP_START + (INFO_OFFSET + LENGTH_FIELD));
    LengthErased(mem, left, APP_START + (INFO_OFFSET + LENGTH_FIELD), magicReceived);
  }

  lemma LengthErased(mem: seq<byte>, left: seq<byte>, place: nat, magicReceived: bool)
    requires |mem| == FLASH_END && HasImage(mem) && place == APP_START + (INFO_OFFSET + LENGTH_FIELD) && place + 4 <= FLASH_END
    requires SameOutside(mem, left, place, place + 4) && left[place..place + 4] == Blank(4)
    ensures Decide(left, magicReceived) == ReadFault
  {
    WordOutside(mem, left, place, APP_START + INFO_OFFSET);
    FourBytes(Blank(4));
    MagicBeforeLength(left, 0xFFFF_FFFF, magicReceived);
  }

  lemma AppPageInFlash()
    ensures InFlash(APP_START, PAGE_SIZE)
  {
    StartsAligned();
    AlignedGap(APP_START, FLASH_END);
  }

  /** The same session with the hardware as the script says from now on. */
  function WithScript(m: Machine, script: seq<Primitive>): Machine {
    m.(flash := m.flash.(script := script))
  }

  lemma ScriptKeeps(m: Machine, script: seq<Primitive>)
    requires Inv(m)
    ensures Inv(WithScript(m, script))
  {
  }

  /** The next poll of `m`, on orderly hardware that follows the script, has a crash point that main
      cannot read. */
  ghost predicate CutUnreadable(m: Machine, script: seq<Primitive>, magicReceived: bool)
    requires Fitting(m) && FLASH.Sane()
  {
    && Orderly(script) && Confined(script)
    && !AllReadable(OnPoll(FLASH, WithScript(m, script)).flash.snaps, |m.flash.snaps|, magicReceived)
  }

  lemma UnreadableHadImage(m: Machine, script: seq<Primitive>, magicReceived: bool)
    requires Inv(m) && m.state == DownloadBusy && m.download.count == 0 && m.download.info.startAddress == APP_START
    requires SelfReadable(m.flash.mem) && FLASH.Sane() && CutUnreadable(m, script, magicReceived)
    ensures HasImage(m.flash.mem)
  {
    var cut := WithScript(m, script);
    ScriptKeeps(m, script);
    FlashIsCareful();
    FlushPoints(FLASH, cut);
    SessionBase(cut);
    var n := OnPoll(FLASH, cut);
    var k :| |m.flash.snaps| <= k < |n.flash.snaps| && !Readable(n.flash.snaps[k], magicReceived);
    BootloaderUntouched(cut, n.flash, k);
    assert Unsealed(cut, n.flash.snaps[k]);
    if BlankPage(n.flash.snaps[k], APP_START) {
      NoMagicWhereErased(n.flash.snaps[k]);
    } else if HasImage(n.flash.snaps[k]) {
      FadingBringsNoMagic(m.flash.mem, n.flash.snaps[k]);
    }
  }

  lemma CutFlush(m: Machine, magicReceived: bool)
    requires Inv(m) && m.state == DownloadBusy && m.download.count == 0 && m.download.info.startAddress == APP_START
    requires HasImage(m.flash.mem) && FLASH.Sane()
    ensures CutUnreadable(m, Stops(LengthReached()), magicReceived)
  {
    var script := Stops(LengthReached());
    var cut := WithScript(m, script);
    StopsOrderly(LengthReached());
    CutEraseUnreadable(cut.flash, magicReceived);
    var g := Erase(cut.flash, APP_START).0;
    assert PageAddress(cut.download) == APP_START;
    assert FLASH.erase(cut.flash, APP_START) == Erase(cut.flash, APP_START);
    var n := OnPoll(FLASH, cut);
    assert n.flash == g;
    assert !Readable(n.flash.snaps[|m.flash.snaps|], magicReceived);
  }

  /** An update of an application begins with the erase of its first page. Some orderly hardware can be
      stopped in it so that main cannot read what is left, if and only if there was an application. */
  lemma FirstEraseUnreadable(m: Machine, magicReceived: bool)
    requires Inv(m) && m.state == DownloadBusy && m.download.count == 0 && m.download.info.startAddress == APP_START
    requires SelfReadable(m.flash.mem)
    ensures FLASH.Sane() && ((exists script :: CutUnreadable(m, script, magicReceived)) <==> HasImage(m.flash.mem))
  {
    FlashIsSane();
    if HasImage(m.flash.mem) {
      CutFlush(m, magicReceived);
    }
    if exists script :: CutUnreadable(m, script, magicReceived) {
      var script :| CutUnreadable(m, script, magicReceived);
      UnreadableHadImage(m, script, magicReceived);
    }
  }

  // ---------- A write cut short ----------

  /** The magic lies in the `n`-th block, from the `lo`-th byte on. */
  predicate MagicIn(n: nat, lo: nat) {
    INFO_OFFSET == BLOCK_SIZE * n + lo && lo + 4 <= BLOCK_SIZE
  }

  /** There is such a block: the header is aligned to words. */
  lemma MagicInSomeBlock() returns (n: nat, lo: nat)
    ensures MagicIn(n, lo) && n < BLOCKS
  {
    n, lo := MAP.infoWord / 4, 4 * (MAP.infoWord % 4);
  }

  /** What the cut write leaves: the bytes it has reached, `place` being where they are, and everything
      else as before. */
  lemma CutBlock(mem: seq<byte>, at: nat, block: seq<byte>, lo: nat, place: nat, left: seq<byte>)
    requires |block| == BLOCK_SIZE && at + BLOCK_SIZE <= |mem| && lo + 4 <= BLOCK_SIZE && place == at + lo
    requires forall i :: at <= i < at + BLOCK_SIZE ==> mem[i] == ERASED
    requires left == CutAt(mem, at, block, lo)
    ensures SameOutside(mem, left, place, place + 4)
    ensures left[place..place + 4] == block[lo..lo + 4]
  {
    var held := mem[at..at + BLOCK_SIZE];
    var part := Partly(held, ClearBits(held, block), Reached(BLOCK_SIZE, lo, lo + 4));
    forall i | 0 <= i < BLOCK_SIZE ensures part[i] == if lo <= i < lo + 4 then block[i] else held[i] {
      AndErased(block[i]);
      assert held[i] == ERASED;
    }
  }

  /** The application's first page is blank where its `n`-th block and the length in its header are. */
  ghost predicate Pending(mem: seq<byte>, n: nat) {
    && |mem| == FLASH_END && APP_START + BLOCK_SIZE * n + BLOCK_SIZE <= FLASH_END
    && (forall i :: APP_START + BLOCK_SIZE * n <= i < APP_START + BLOCK_SIZE * n + BLOCK_SIZE ==> mem[i] == ERASED)
    && Word(mem, APP_START + (INFO_OFFSET + LENGTH_FIELD)) == 0xFFFF_FFFF
  }

  /** So it is in the seal when the block with the magic comes next. */
  lemma SealingPending(base: seq<byte>, image: seq<byte>, n: nat)
    requires |base| == FLASH_END && |image| >= PAGE_SIZE && APP_START + |image| <= FLASH_END
    requires n < BLOCKS && BLOCK_SIZE * n <= INFO_OFFSET
    ensures Pending(Sealing(base, image, n), n)
  {
    SealingBehind(base, image, n);
    SealingWord(base, image, n, INFO_OFFSET + LENGTH_FIELD);
  }

  /** Then, whatever the header's place in its block: a write of the block with the magic that reaches
      the magic and nothing else leaves memory that main cannot read. */
  lemma CutWriteUnreadable(f: FlashState, image: seq<byte>, n: nat, lo: nat, magicReceived: bool)
    requires |image| >= PAGE_SIZE && ParseInfo(image).magic == BOOTLOADER_MAGIC
    requires MagicIn(n, lo) && n < BLOCKS && Pending(f.mem, n) && f.script == Stops(Reached(BLOCK_SIZE, lo, lo + 4))
    ensures var g := VendorWrite(f, APP_START, n, Block(image[..PAGE_SIZE], n)).0;
      g.snaps == f.snaps + [g.mem] && |g.mem| == FLASH_END && Decide(g.mem, magicReceived) == ReadFault
  {
    AppPageInFlash();
    BlockHolds(image, n, lo);
    assert Head(f.script) == Primitive(true, Interrupted(Reached(BLOCK_SIZE, lo, lo + 4)));
    CutEffect(f.mem, image, Block(image[..PAGE_SIZE], n), n, lo, magicReceived);
  }

  lemma CutEffect(mem: seq<byte>, image: seq<byte>, block: seq<byte>, n: nat, lo: nat, magicReceived: bool)
    requires |image| >= PAGE_SIZE && ParseInfo(image).magic == BOOTLOADER_MAGIC && APP_START + PAGE_SIZE <= FLASH_END
    requires MagicIn(n, lo) && n < BLOCKS && Pending(mem, n)
    requires |block| == BLOCK_SIZE && block[lo..lo + 4] == image[INFO_OFFSET..INFO_OFFSET + 4]
    ensures Decide(WriteEffect(mem, APP_START, n, block, Interrupted(Reached(BLOCK_SIZE, lo, lo + 4))), magicReceived) == ReadFault
  {
    var at := APP_START + BLOCK_SIZE * n;
    EffectIsCut(mem, n, block, lo, at);
    CutFirst(mem, CutAt(mem, at, block, lo), image, block, at, lo, magicReceived);
  }

  lemma EffectIsCut(mem: seq<byte>, n: nat, block: seq<byte>, lo: nat, at: nat)
    requires |block| == BLOCK_SIZE && n < BLOCKS && APP_START + PAGE_SIZE <= |mem| && lo + 4 <= BLOCK_SIZE
    requires at == APP_START + BLOCK_SIZE * n
    ensures WriteEffect(mem, APP_START, n, block, Interrupted(Reached(BLOCK_SIZE, lo, lo + 4))) == CutAt(mem, at, block, lo)
  {
  }

  /** The block, written as far as the magic. */
  function CutAt(mem: seq<byte>, at: nat, block: seq<byte>, lo: nat): seq<byte>
    requires |block| == BLOCK_SIZE && at + BLOCK_SIZE <= |mem|
  {
    var held := mem[at..at + BLOCK_SIZE];
    Splice(mem, at, Partly(held, ClearBits(held, block), Reached(BLOCK_SIZE, lo, lo + 4)))
  }

  lemma CutFirst(mem: seq<byte>, left: seq<byte>, image: seq<byte>, block: seq<byte>, at: nat, lo: nat, magicReceived: bool)
    requires |mem| == FLASH_END && |image| >= PAGE_SIZE && ParseInfo(image).magic == BOOTLOADER_MAGIC
    requires APP_START + PAGE_SIZE <= FLASH_END
    requires |block| == BLOCK_SIZE && at + BLOCK_SIZE <= FLASH_END && lo + 4 <= BLOCK_SIZE && at + lo == APP_START + INFO_OFFSET
    requires forall i :: at <= i < at + BLOCK_SIZE ==> mem[i] == ERASED
    requires block[lo..lo + 4] == image[INFO_OFFSET..INFO_OFFSET + 4]
    requires Word(mem, APP_START + (INFO_OFFSET + LENGTH_FIELD)) == 0xFFFF_FFFF
    requires left == CutAt(mem, at, block, lo)
    ensures Decide(left, magicReceived) == ReadFault
  {
    CutBlock(mem, at, block, lo, APP_START + INFO_OFFSET, left);
    CutHeader(mem, left, image, magicReceived);
  }

  lemma BlockHolds(image: seq<byte>, n: nat, lo: nat)
    requires |image| >= PAGE_SIZE && MagicIn(n, lo) && n < BLOCKS
    ensures Block(image[..PAGE_SIZE], n)[lo..lo + 4] == image[INFO_OFFSET..INFO_OFFSET + 4]
  {
    var page := image[0..PAGE_SIZE];
    assert page == image[..PAGE_SIZE];
    SliceOfSlice(page, BLOCK_SIZE * n, BLOCK_SIZE * n + BLOCK_SIZE, lo, lo + 4);
    SliceOfSlice(image, 0, PAGE_SIZE, INFO_OFFSET, INFO_OFFSET + 4);
  }

  /** Behind the blocks that are written the first page is blank. */
  lemma SealingBehind(base: seq<byte>, image: seq<byte>, n: nat)
    requires |base| == FLASH_END && |image| >= PAGE_SIZE && APP_START + |image| <= FLASH_END && n <= BLOCKS
    ensures forall i :: APP_START + BLOCK_SIZE * n <= i < APP_START + PAGE_SIZE ==> Sealing(base, image, n)[i] == ERASED
  {
    StagedIsBlank(base, APP_START, image);
  }

  lemma CutHeader(mem: seq<byte>, left: seq<byte>, image: seq<byte>, magicReceived: bool)
    requires |mem| == |left| == FLASH_END && |image| >= PAGE_SIZE && ParseInfo(image).magic == BOOTLOADER_MAGIC
    requires SameOutside(mem, left, APP_START + INFO_OFFSET, APP_START + INFO_OFFSET + 4)
    requires left[APP_START + INFO_OFFSET..APP_START + INFO_OFFSET + 4] == image[INFO_OFFSET..INFO_OFFSET + 4]
    requires Word(mem, APP_START + (INFO_OFFSET + LENGTH_FIELD)) == 0xFFFF_FFFF
    ensures Decide(left, magicReceived) == ReadFault
  {
    WordOutside(mem, left, APP_START + INFO_OFFSET, APP_START + (INFO_OFFSET + LENGTH_FIELD));
    MagicBeforeLength(left, 0xFFFF_FFFF, magicReceived);
  }

  // ---------- Replacing the bootloader ----------

  /** The first crash point of every session on healthy hardware: its first page is blank, and nothing
      else has changed. */
  lemma FirstCrashPoint(drv: Driver, m: Machine)
    requires Careful(drv) && Inv(m) && m.state == DownloadBusy && m.download.count == 0 && AllNominal(m.flash.script)
    ensures var n, start := OnPoll(drv, m), m.download.info.startAddress;
      && |n.flash.snaps| == |m.flash.snaps| + 1 && start + PAGE_SIZE <= FLASH_END
      && n.flash.snaps[|m.flash.snaps|] == Splice(m.flash.mem, start, Blank(PAGE_SIZE))
  {
    var start := m.download.info.startAddress;
    PageAddressKnown(m);
    StartsAligned();
    AlignedGap(start, FLASH_END);
    var (f, status) := drv.erase(m.flash, start);
    assert ErasesCarefully(m.flash, start, f);
    OneErase(m.flash, f, start);
    assert OnPoll(drv, m).flash == f;
  }

  lemma OneErase(before: FlashState, f: FlashState, at: nat)
    requires ErasesCarefully(before, at, f) && AllNominal(before.script) && InFlash(at, PAGE_SIZE) && FlashControl.Sized(before)
    ensures |f.snaps| == |before.snaps| + 1 && f.snaps[|before.snaps|] == Splice(before.mem, at, Blank(PAGE_SIZE))
  {
    assert SameOutside(before.mem, f.snaps[|before.snaps|], at, at + PAGE_SIZE);
    assert BlankPage(f.snaps[|before.snaps|], at);
  }

  /** A session leaves the bootloader alone from its first crash point on if and only if it is one of an
      application, unless the bootloader's first page is blank already: a session of a bootloader image
      erases the code that would recover. */
  lemma FirstPollSparesBootloader(drv: Driver, m: Machine)
    requires Careful(drv) && Inv(m) && m.state == DownloadBusy && m.download.count == 0 && AllNominal(m.flash.script)
    ensures (forall k :: |m.flash.snaps| <= k < |OnPoll(drv, m).flash.snaps| ==>
               SameBootloader(m.flash.mem, OnPoll(drv, m).flash.snaps[k]))
       <==> (m.download.info.startAddress == APP_START || BlankPage(m.flash.mem, BOOTLOADER_START))
    ensures m.download.info.startAddress == BOOTLOADER_START ==>
      |OnPoll(drv, m).flash.snaps| > |m.flash.snaps| && BlankPage(OnPoll(drv, m).flash.snaps[|m.flash.snaps|], BOOTLOADER_START)
  {
    FirstCrashPoint(drv, m);
    SessionBase(m);
    var snap := OnPoll(drv, m).flash.snaps[|m.flash.snaps|];
    SparedIffBlank(m.flash.mem, m.download.info.startAddress, snap);
  }

  lemma SparedIffBlank(mem: seq<byte>, start: nat, snap: seq<byte>)
    requires |mem| == FLASH_END && start in {APP_START, BOOTLOADER_START} && start + PAGE_SIZE <= FLASH_END
    requires snap == Splice(mem, start, Blank(PAGE_SIZE))
    ensures SameBootloader(mem, snap) <==> (start == APP_START || BlankPage(mem, BOOTLOADER_START))
    ensures BlankPage(snap, start)
  {
    if start == BOOTLOADER_START && SameBootloader(mem, snap) {
      forall i | BOOTLOADER_START <= i < BOOTLOADER_START + PAGE_SIZE ensures mem[i] == ERASED {
        assert snap[i] == ERASED;
      }
    }
  }
}
