/** What main decides at the crash points of an application update. */
module CrashBoot {
  import opened Layout
  import opened Bytes
  import opened FlashControl
  import opened DfuMachine
  import opened Invariant
  import opened InvariantSteps
  import opened ManifestSteps
  import opened CrashSafety
  import opened Bootloader

  // ---------- No magic, no application ----------

  lemma NoMagicWhereErased(mem: seq<byte>)
    requires |mem| == FLASH_END
    requires forall i :: APP_START + INFO_OFFSET <= i < APP_START + INFO_OFFSET + 4 ==> mem[i] == ERASED
    ensures !HasImage(mem)
  {
    var at := APP_START + INFO_OFFSET;
    FourBytes(mem[at..at + 4]);
  }

  /** After a crash during an application update, main starts no mixture of the image and what the
      session found: if it starts the application at all, the crash hit the first erase and everything
      but the first page is as the session found it, or it hit the seal and everything but the first
      page is as the finished image has it. */
  lemma NeverBootsMixture(m: Machine, snap: seq<byte>, magicReceived: bool)
    requires SafePoint(m, snap) && m.download.info.startAddress == APP_START
    ensures Decide(snap, magicReceived) == JumpToApp ==>
      (m.download.count == 0 && OldBody(m, snap)) || (m.state == Manifest && NewBody(m, snap))
  {
    if BlankPage(snap, APP_START) {
      NoMagicWhereErased(snap);
    }
  }

  /** The session of an application leaves everything below it alone, at every crash point. */
  lemma BootloaderUntouched(m: Machine, f: FlashState, k: nat)
    requires FlashControl.Sized(m.flash) && m.download.info.startAddress == APP_START && WorksInRegion(m, f)
    requires |m.flash.snaps| <= k < |f.snaps|
    ensures SameBootloader(m.flash.mem, f.snaps[k]) && SelfReadable(f.snaps[k]) == SelfReadable(m.flash.mem)
  {
    assert SameOutside(m.flash.mem, f.snaps[k], APP_START, APP_START + PageEnd(|m.log.stream|));
    SelfReadableAlike(m.flash.mem, f.snaps[k]);
  }

  /** From the first page that is flushed to the seal: a reset finds no magic and enters DFU mode, if
      main can read its own image. */
  lemma HalfWrittenEntersDfu(drv: Driver, m: Machine, k: nat, magicReceived: bool)
    requires Careful(drv) && Inv(m) && m.state == DownloadBusy && m.download.count > 0
    requires m.download.info.startAddress == APP_START
    requires |m.flash.snaps| <= k < |OnPoll(drv, m).flash.snaps|
    ensures var snap := OnPoll(drv, m).flash.snaps[k];
      |snap| == FLASH_END && Decide(snap, magicReceived) == WithoutApp(m.flash.mem)
  {
    FlushPoints(drv, m);
    BootloaderUntouched(m, OnPoll(drv, m).flash, k);
    NoMagicWhereErased(OnPoll(drv, m).flash.snaps[k]);
  }

  /** Between events too: a session that has flushed a page has no magic in flash. */
  lemma SessionEntersDfu(m: Machine, magicReceived: bool)
    requires Inv(m) && InSession(m) && m.download.count > 0 && m.download.info.startAddress == APP_START
    ensures Decide(m.flash.mem, magicReceived) == WithoutApp(m.flash.mem)
  {
    StagedIsBlank(m.log.base, APP_START, m.log.stream[..m.download.count]);
    NoMagicWhereErased(m.flash.mem);
  }

  lemma UnsealedEntersDfu(m: Machine, snap: seq<byte>, magicReceived: bool)
    requires Unsealed(m, snap) && m.download.info.startAddress == APP_START
    ensures Decide(snap, magicReceived) == WithoutApp(snap) || (m.download.count == 0 && OldBody(m, snap) && !AllNominal(m.flash.script))
  {
    if BlankPage(snap, APP_START) {
      NoMagicWhereErased(snap);
    }
  }

  /** In the seal, too, as long as the block that holds the magic has not been written, if the
      controller writes no more than the block it is given. `q` counts the crash points that come
      before the call that programs the first page. */
  lemma MagicComesLast(drv: Driver, m: Machine, magicReceived: bool) returns (q: nat)
    requires Careful(drv) && Inv(m) && m.state == Manifest && m.download.info.startAddress == APP_START
    requires Confined(m.flash.script)
    ensures SealMarked(drv, m, OnPoll(drv, m), q)
    ensures var snaps := OnPoll(drv, m).flash.snaps;
      forall k :: |m.flash.snaps| <= k < |snaps| && BLOCK_SIZE * (k - q + 1) <= INFO_OFFSET ==>
        && |snaps[k]| == FLASH_END
        && (Decide(snaps[k], magicReceived) == WithoutApp(m.flash.mem) || (k < q && m.download.count == 0 && OldBody(m, snaps[k])))
  {
    q := ManifestPoints(drv, m);
    var n := OnPoll(drv, m);
    forall k | |m.flash.snaps| <= k < |n.flash.snaps| && BLOCK_SIZE * (k - q + 1) <= INFO_OFFSET
      ensures |n.flash.snaps[k]| == FLASH_END
      ensures Decide(n.flash.snaps[k], magicReceived) == WithoutApp(m.flash.mem)
           || (k < q && m.download.count == 0 && OldBody(m, n.flash.snaps[k]))
    {
      MagicNotYet(m, n, q, k, magicReceived);
    }
  }

  lemma MagicNotYet(m: Machine, n: Machine, q: nat, k: nat, magicReceived: bool)
    requires Fitting(m) && m.state == Manifest && m.download.info.startAddress == APP_START
    requires SealedFrom(m, n, q) && Confined(m.flash.script)
    requires |m.flash.snaps| <= k < |n.flash.snaps| && BLOCK_SIZE * (k - q + 1) <= INFO_OFFSET
    ensures |n.flash.snaps[k]| == FLASH_END
    ensures Decide(n.flash.snaps[k], magicReceived) == WithoutApp(m.flash.mem)
         || (k < q && m.download.count == 0 && OldBody(m, n.flash.snaps[k]))
  {
    BootloaderUntouched(m, n.flash, k);
    SealedPoint(m, n, q, k);
    if k < q {
      UnsealedEntersDfu(m, n.flash.snaps[k], magicReceived);
    } else {
      assert BlankAfter(n.flash.snaps[k], APP_START, BLOCK_SIZE * (k - q + 1));
      NoMagicWhereErased(n.flash.snaps[k]);
    }
  }

  // ---------- The seal, block by block ----------

  /** Memory in the seal: every page of the image is in place but the first, which has `n` blocks. */
  function Sealing(base: seq<byte>, image: seq<byte>, n: nat): (mem: seq<byte>)
    requires |base| == FLASH_END && |image| >= PAGE_SIZE && APP_START + |image| <= FLASH_END && n <= BLOCKS
    ensures |mem| == FLASH_END
  {
    Written(Staged(base, APP_START, image), APP_START, image[..PAGE_SIZE], n)
  }

  lemma SealingSelf(base: seq<byte>, image: seq<byte>, n: nat)
    requires |base| == FLASH_END && |image| >= PAGE_SIZE && APP_START + |image| <= FLASH_END && n <= BLOCKS
    ensures SelfReadable(Sealing(base, image, n)) == SelfReadable(base)
  {
    assert SameBootloader(base, Staged(base, APP_START, image));
    SelfReadableAlike(base, Sealing(base, image, n));
  }

  /** The first page in the seal. */
  lemma SealingPage(base: seq<byte>, image: seq<byte>, n: nat)
    requires |base| == FLASH_END && |image| >= PAGE_SIZE && APP_START + |image| <= FLASH_END && n <= BLOCKS
    ensures Sealing(base, image, n)[APP_START..APP_START + PAGE_SIZE] == image[..BLOCK_SIZE * n] + Blank(PAGE_SIZE - BLOCK_SIZE * n)
  {
    var staged, first := Staged(base, APP_START, image), image[..PAGE_SIZE];
    assert BlankPage(staged, APP_START) by {
      StagedIsBlank(base, APP_START, image);
    }
    assert first[..BLOCK_SIZE * n] == image[..BLOCK_SIZE * n];
  }

  /** A word of the first page is the image's once its block is written, and all ones before. */
  lemma SealingWord(base: seq<byte>, image: seq<byte>, n: nat, at: nat)
    requires |base| == FLASH_END && |image| >= PAGE_SIZE && APP_START + |image| <= FLASH_END && n <= BLOCKS
    requires at + 4 <= PAGE_SIZE
    ensures at + 4 <= BLOCK_SIZE * n ==> Word(Sealing(base, image, n), APP_START + at) == Word(image, at)
    ensures BLOCK_SIZE * n <= at ==> Word(Sealing(base, image, n), APP_START + at) == 0xFFFF_FFFF
  {
    var page := image[..BLOCK_SIZE * n] + Blank(PAGE_SIZE - BLOCK_SIZE * n);
    SealingPage(base, image, n);
    WordOfSlice(Sealing(base, image, n), APP_START, APP_START + PAGE_SIZE, at);
    PageWord(image, n, page, at);
  }

  lemma PageWord(image: seq<byte>, n: nat, page: seq<byte>, at: nat)
    requires |image| >= PAGE_SIZE && n <= BLOCKS && at + 4 <= PAGE_SIZE
    requires page == image[..BLOCK_SIZE * n] + Blank(PAGE_SIZE - BLOCK_SIZE * n)
    ensures at + 4 <= BLOCK_SIZE * n ==> Word(page, at) == Word(image, at)
    ensures BLOCK_SIZE * n <= at ==> Word(page, at) == 0xFFFF_FFFF
  {
    if at + 4 <= BLOCK_SIZE * n {
      assert page[at..at + 4] == image[at..at + 4];
    }
    if BLOCK_SIZE * n <= at {
      assert page[at..at + 4] == Blank(4);
      FourBytes(Blank(4));
    }
  }

  /** The two words of the header that decide. */
  lemma SealingHeader(base: seq<byte>, image: seq<byte>, n: nat) returns (magic: nat, length: nat)
    requires |base| == FLASH_END && |image| >= PAGE_SIZE && APP_START + |image| <= FLASH_END && n <= BLOCKS
    ensures magic == Word(Sealing(base, image, n), APP_START + INFO_OFFSET)
    ensures length == Word(Sealing(base, image, n), APP_START + INFO_OFFSET + LENGTH_FIELD)
    ensures BLOCK_SIZE * n <= INFO_OFFSET ==> magic == 0xFFFF_FFFF
    ensures BLOCK_SIZE * n >= INFO_OFFSET + 4 ==> magic == ParseInfo(image).magic
    ensures BLOCK_SIZE * n <= INFO_OFFSET + LENGTH_FIELD ==> length == 0xFFFF_FFFF
    ensures BLOCK_SIZE * n >= INFO_OFFSET + LENGTH_FIELD + 4 ==> length == ParseInfo(image).length
  {
    SealingWord(base, image, n, INFO_OFFSET);
    SealingWord(base, image, n, INFO_OFFSET + LENGTH_FIELD);
    assert APP_START + INFO_OFFSET + LENGTH_FIELD == APP_START + (INFO_OFFSET + LENGTH_FIELD);
    magic := Word(Sealing(base, image, n), APP_START + INFO_OFFSET);
    length := Word(Sealing(base, image, n), APP_START + INFO_OFFSET + LENGTH_FIELD);
  }

  lemma DecidedByHeader(mem: seq<byte>, magic: nat, length: nat, magicReceived: bool)
    requires |mem| == FLASH_END && magic == Word(mem, APP_START + INFO_OFFSET)
    requires length == Word(mem, APP_START + INFO_OFFSET + LENGTH_FIELD)
    ensures magic != BOOTLOADER_MAGIC ==> Decide(mem, magicReceived) == WithoutApp(mem)
    ensures magic == BOOTLOADER_MAGIC ==>
      (Decide(mem, magicReceived) == ReadFault
       <==> (!SelfReadable(mem) || length < CHECKSUM_END || APP_START + length > FLASH_END))
  {
    if magic == BOOTLOADER_MAGIC {
      FaultsByLength(mem, magicReceived);
    }
  }

  /** Magic but no length yet: the CRC is taken over a length of FFFFFFFF, far beyond memory. */
  lemma MagicWithoutLength(base: seq<byte>, image: seq<byte>, n: nat, magicReceived: bool)
    requires |base| == FLASH_END && |image| >= PAGE_SIZE && APP_START + |image| <= FLASH_END && n <= BLOCKS
    requires ParseInfo(image).magic == BOOTLOADER_MAGIC
    requires INFO_OFFSET + 4 <= BLOCK_SIZE * n <= INFO_OFFSET + LENGTH_FIELD
    ensures Decide(Sealing(base, image, n), magicReceived) == ReadFault
  {
    var magic, length := SealingHeader(base, image, n);
    DecidedByHeader(Sealing(base, image, n), magic, length, magicReceived);
  }

  /** Both written: the length is the image's. */
  lemma MagicWithLength(base: seq<byte>, image: seq<byte>, n: nat, magicReceived: bool)
    requires |base| == FLASH_END && |image| >= PAGE_SIZE && APP_START + |image| <= FLASH_END && n <= BLOCKS
    requires ParseInfo(image).magic == BOOTLOADER_MAGIC && ParseInfo(image).length <= |image|
    requires INFO_OFFSET + LENGTH_FIELD + 4 <= BLOCK_SIZE * n
    ensures Decide(Sealing(base, image, n), magicReceived) == ReadFault
       <==> (!SelfReadable(base) || ParseInfo(image).length < CHECKSUM_END)
  {
    var magic, length := SealingHeader(base, image, n);
    SealingSelf(base, image, n);
    DecidedByHeader(Sealing(base, image, n), magic, length, magicReceived);
  }

  /** Neither written. */
  lemma NoMagicYet(base: seq<byte>, image: seq<byte>, n: nat, magicReceived: bool)
    requires |base| == FLASH_END && |image| >= PAGE_SIZE && APP_START + |image| <= FLASH_END && n <= BLOCKS
    requires BLOCK_SIZE * n <= INFO_OFFSET
    ensures Decide(Sealing(base, image, n), magicReceived) == WithoutApp(base)
  {
    var magic, length := SealingHeader(base, image, n);
    SealingSelf(base, image, n);
    DecidedByHeader(Sealing(base, image, n), magic, length, magicReceived);
  }

  /** Whether every crash point of the seal can be read depends on where the header sits in its block,
      and on the length reaching past the checksum. */
  lemma SealingReadable(base: seq<byte>, image: seq<byte>, magicReceived: bool)
    requires |base| == FLASH_END && |image| >= PAGE_SIZE && APP_START + |image| <= FLASH_END
    requires ParseInfo(image).magic == BOOTLOADER_MAGIC && ParseInfo(image).length <= |image|
    ensures (forall n :: 0 < n <= BLOCKS ==> Decide(Sealing(base, image, n), magicReceived) != ReadFault)
       <==> (SelfReadable(base) && INFO_OFFSET % BLOCK_SIZE == 0 && ParseInfo(image).length >= CHECKSUM_END)
  {
    if INFO_OFFSET % BLOCK_SIZE != 0 {
      MagicWithoutLength(base, image, INFO_OFFSET / BLOCK_SIZE + 1, magicReceived);
    } else {
      MagicWithLength(base, image, BLOCKS, magicReceived);
      if SelfReadable(base) && ParseInfo(image).length >= CHECKSUM_END {
        forall n | 0 < n <= BLOCKS ensures Decide(Sealing(base, image, n), magicReceived) != ReadFault {
          if n <= INFO_OFFSET / BLOCK_SIZE {
            NoMagicYet(base, image, n, magicReceived);
          } else {
            MagicWithLength(base, image, n, magicReceived);
          }
        }
      }
    }
  }

  // ---------- No crash point that main cannot read ----------

  ghost predicate Readable(mem: seq<byte>, magicReceived: bool) {
    |mem| == FLASH_END && Decide(mem, magicReceived) != ReadFault
  }

  ghost predicate AllReadable(snaps: seq<seq<byte>>, from: nat, magicReceived: bool) {
    forall k :: from <= k < |snaps| ==> Readable(snaps[k], magicReceived)
  }

  /** The header lies within one block, and delimits an image that reaches past its checksum. */
  predicate ReadableHeader(info: Info) {
    INFO_OFFSET % BLOCK_SIZE == 0 && info.length >= CHECKSUM_END
  }

  lemma UnsealedReadable(m: Machine, snap: seq<byte>, magicReceived: bool)
    requires Unsealed(m, snap) && AllNominal(m.flash.script) && m.download.info.startAddress == APP_START
    requires SelfReadable(snap)
    ensures Readable(snap, magicReceived)
  {
    NoMagicWhereErased(snap);
  }

  lemma BaseSelf(m: Machine)
    requires Ready(m) && m.download.info.startAddress == APP_START
    ensures SelfReadable(m.log.base) == SelfReadable(m.flash.mem)
  {
    SelfReadableAlike(m.log.base, m.flash.mem);
  }

  /** What the padded image of an accepted stream says of itself. */
  lemma PaddedHeader(m: Machine)
    requires Ready(m)
    ensures var image := PaddedImage(m.log.stream);
      && |image| >= PAGE_SIZE && ParseInfo(image) == m.download.info == ParseInfo(m.log.stream)
      && ParseInfo(image).magic == BOOTLOADER_MAGIC
  {
    var image := PaddedImage(m.log.stream);
    assert image[..MINIMUM_SIZE] == m.log.stream[..MINIMUM_SIZE];
    AlignedStep(0);
    AlignedGap(0, |image|);
    ParseInfoPrefix(image, m.log.stream);
  }

  /** The `n`-th crash point of the seal. */
  lemma SealPointIs(m: Machine, snaps: seq<seq<byte>>, q: nat, k: nat)
    requires Ready(m) && m.download.info.startAddress == APP_START && SealBlocks(m, snaps, q) && q <= k < |snaps|
    ensures var image := PaddedImage(m.log.stream);
      && |image| >= PAGE_SIZE && APP_START + |image| <= FLASH_END && k - q + 1 <= BLOCKS
      && snaps[k] == Sealing(m.log.base, image, k - q + 1)
  {
  }

  lemma SealedReadable(m: Machine, n: Machine, q: nat, magicReceived: bool)
    requires Ready(m) && m.download.info.startAddress == APP_START && m.download.info.length <= |m.log.stream|
    requires AllNominal(m.flash.script) && SealedFrom(m, n, q)
    requires SelfReadable(m.flash.mem) && ReadableHeader(m.download.info)
    ensures AllReadable(n.flash.snaps, |m.flash.snaps|, magicReceived)
  {
    var image := PaddedImage(m.log.stream);
    PaddedHeader(m);
    BaseSelf(m);
    forall k | |m.flash.snaps| <= k < |n.flash.snaps| ensures Readable(n.flash.snaps[k], magicReceived) {
      if k < q {
        BootloaderUntouched(m, n.flash, k);
        UnsealedReadable(m, n.flash.snaps[k], magicReceived);
      } else {
        SealPointIs(m, n.flash.snaps, q, k);
        SealingReadable(m.log.base, image, magicReceived);
      }
    }
  }

  lemma SealedUnreadable(m: Machine, n: Machine, q: nat, magicReceived: bool)
    requires Ready(m) && m.download.info.startAddress == APP_START && m.download.info.length <= |m.log.stream|
    requires AllNominal(m.flash.script) && SealedFrom(m, n, q) && |n.flash.snaps| == q + BLOCKS
    requires AllReadable(n.flash.snaps, |m.flash.snaps|, magicReceived)
    ensures SelfReadable(m.flash.mem) && ReadableHeader(m.download.info)
  {
    var image := PaddedImage(m.log.stream);
    PaddedHeader(m);
    BaseSelf(m);
    SealPointIs(m, n.flash.snaps, q, q);
    forall i | 0 < i <= BLOCKS ensures Decide(Sealing(m.log.base, image, i), magicReceived) != ReadFault {
      SealPointIs(m, n.flash.snaps, q, q + i - 1);
      assert Readable(n.flash.snaps[q + i - 1], magicReceived);
    }
    SealingReadable(m.log.base, image, magicReceived);
  }

  /** A power loss between the primitives of the manifest of an application, on hardware that does what
      it should: every crash point leaves memory that main can read if and only if it could read its own
      image before, the application's header lies within one 16-byte block, and its length reaches past
      the checksum. */
  lemma ManifestReadable(drv: Driver, m: Machine, magicReceived: bool)
    requires Careful(drv) && Inv(m) && m.state == Manifest && m.download.info.startAddress == APP_START
    requires AllNominal(m.flash.script) && OnPoll(drv, m).state != Error
    ensures AllReadable(OnPoll(drv, m).flash.snaps, |m.flash.snaps|, magicReceived)
       <==> (SelfReadable(m.flash.mem) && ReadableHeader(ParseInfo(m.log.stream)))
  {
    var n := OnPoll(drv, m);
    var q := ManifestPoints(drv, m);
    ManifestReady(m);
    PaddedHeader(m);
    if SelfReadable(m.flash.mem) && ReadableHeader(m.download.info) {
      SealedReadable(m, n, q, magicReceived);
    }
    if AllReadable(n.flash.snaps, |m.flash.snaps|, magicReceived) {
      SealedUnreadable(m, n, q, magicReceived);
    }
  }
}
