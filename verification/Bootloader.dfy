/** The boot decision of src/main.c and the image CRC of src/bootloader.c. */
module Bootloader {
  import opened Layout
  import opened Bytes
  import opened Crc32
  import opened DfuMachine

  datatype Option<T> = None | Some(value: T)

  // ---------- The CRC of a byte sequence ----------

  /** The low `width` bits of `n`. */
  function ToBits(n: nat, width: nat): bv8
    decreases width, n
  {
    if width == 0 then 0 else Push(ToBits(n / 2, width - 1), n % 2 == 1)
  }

  function Push(x: bv8, bit: bool): bv8 {
    (x << 1) | (if bit then 1 else 0)
  }

  function Bits(b: byte): bv8 {
    ToBits(b as nat, 8)
  }

  function Raw(s: seq<byte>): (r: seq<bv8>)
    ensures |r| == |s| && forall i {:trigger r[i]} :: 0 <= i < |s| ==> r[i] == Bits(s[i])
  {
    seq(|s|, i requires 0 <= i < |s| => Bits(s[i]))
  }

  function Number(w: bv32): (n: nat)
    ensures n < TWO_TO_THE_32
  {
    w as nat
  }

  /** The CRC-32 of RFC 1952. */
  function Crc(s: seq<byte>): (n: nat)
    ensures n < TWO_TO_THE_32
  {
    Number(UpdateCrc(0, Raw(s)))
  }

  /** Pushing a bit doubles and adds while the top bit is clear. */
  lemma PushValue(x: bv8, bit: bool)
    requires x & 0x80 == 0
    ensures Push(x, bit) as nat == 2 * (x as nat) + if bit then 1 else 0
  {
  }

  lemma PushRoom(x: bv8, b: bool, mask: bv8)
    requires x & mask == 0
    ensures Push(x, b) & (mask << 1) == 0
  {
  }

  lemma MaskTop(x: bv8, mask: bv8)
    requires x & mask == 0 && mask & 0x80 == 0x80
    ensures x & 0x80 == 0
  {
  }

  function HighMask(width: nat): bv8
    decreases width
  {
    if width == 0 then 0xFF else HighMask(width - 1) << 1
  }

  lemma HighMasks(width: nat)
    requires width < 8
    ensures HighMask(width) & 0x80 == 0x80
  {
    assert HighMask(1) == 0xFE && HighMask(2) == 0xFC && HighMask(3) == 0xF8;
    assert HighMask(4) == 0xF0 && HighMask(5) == 0xE0 && HighMask(6) == 0xC0 && HighMask(7) == 0x80;
  }

  lemma {:induction false} ToBitsFits(n: nat, width: nat)
    ensures ToBits(n, width) & HighMask(width) == 0
    decreases width
  {
    if width > 0 {
      ToBitsFits(n / 2, width - 1);
      PushRoom(ToBits(n / 2, width - 1), n % 2 == 1, HighMask(width - 1));
    }
  }

  function Pow2(width: nat): nat {
    if width == 0 then 1 else 2 * Pow2(width - 1)
  }

  lemma {:induction false} ToBitsValue(n: nat, width: nat)
    requires width <= 8 && n < Pow2(width)
    ensures ToBits(n, width) as nat == n
    decreases width
  {
    if width > 0 {
      ToBitsValue(n / 2, width - 1);
      HighMasks(width - 1);
      ToBitsFits(n / 2, width - 1);
      MaskTop(ToBits(n / 2, width - 1), HighMask(width - 1));
      PushValue(ToBits(n / 2, width - 1), n % 2 == 1);
    }
  }

  /** The bits of a byte are the byte. */
  lemma BitsValue(b: byte)
    ensures Bits(b) as nat == b as nat
  {
    assert Pow2(8) == 0x100;
    ToBitsValue(b as nat, 8);
  }

  lemma BitsInjective(a: byte, b: byte)
    requires Bits(a) == Bits(b)
    ensures a == b
  {
    BitsValue(a);
    BitsValue(b);
  }

  lemma BitsAre(b: byte, x: bv8)
    requires x as nat == b as nat
    ensures Bits(b) == x
  {
    BitsValue(b);
  }

  /** The CRC of the nine ASCII digits, the value that CRC-32 is checked by. */
  lemma CrcCheckValue()
    ensures Crc([0x31, 0x32, 0x33, 0x34, 0x35, 0x36, 0x37, 0x38, 0x39]) == 0xCBF4_3926
  {
    CheckValue();
    RawDigits();
    CheckNumber(UpdateCrc(0, Raw([0x31, 0x32, 0x33, 0x34, 0x35, 0x36, 0x37, 0x38, 0x39])));
  }

  lemma CheckNumber(w: bv32)
    requires w == 0xCBF4_3926
    ensures Number(w) == 0xCBF4_3926
  {
  }

  lemma RawDigits()
    ensures Raw([0x31, 0x32, 0x33, 0x34, 0x35, 0x36, 0x37, 0x38, 0x39]) == [0x31, 0x32, 0x33, 0x34, 0x35, 0x36, 0x37, 0x38, 0x39]
  {
    var s: seq<byte> := [0x31, 0x32, 0x33, 0x34, 0x35, 0x36, 0x37, 0x38, 0x39];
    var bits: seq<bv8> := [0x31, 0x32, 0x33, 0x34, 0x35, 0x36, 0x37, 0x38, 0x39];
    RawIs(s, bits);
  }

  /** Bytes and bit-vectors of the same values. */
  lemma RawIs(s: seq<byte>, bits: seq<bv8>)
    requires |s| == |bits| && forall i :: 0 <= i < |s| ==> bits[i] as nat == s[i] as nat
    ensures Raw(s) == bits
  {
    forall i | 0 <= i < |s| ensures Raw(s)[i] == bits[i] {
      BitsAre(s[i], bits[i]);
    }
  }

  lemma NumberInjective(a: bv32, b: bv32)
    requires Number(a) == Number(b)
    ensures a == b
  {
    assert Number(a) as bv32 == a && Number(b) as bv32 == b;
  }

  lemma RawConcat(a: seq<byte>, b: seq<byte>)
    ensures Raw(a + b) == Raw(a) + Raw(b)
  {
  }

  // ---------- The CRC of an image ----------

  const CHECKSUM_END: nat := CHECKSUM_OFFSET + 4

  /** The image with its checksum field reading FFFFFFFF. */
  function WithBlankChecksum(image: seq<byte>): (r: seq<byte>)
    requires |image| >= CHECKSUM_END
    ensures |r| == |image|
  {
    Splice(image, CHECKSUM_OFFSET, Blank(4))
  }

  /** The image that the header at `start` describes; None when its length field does not reach past
      the checksum, or reaches past the end of memory. */
  function ImageAt(mem: seq<byte>, start: nat): Option<seq<byte>>
    requires start + MINIMUM_SIZE <= |mem|
  {
    var length := Word(mem, start + INFO_OFFSET + LENGTH_FIELD);
    if CHECKSUM_END <= length && start + length <= |mem| then Some(mem[start..start + length]) else None
  }

  function ImageCrc(mem: seq<byte>, start: nat): Option<nat>
    requires start + MINIMUM_SIZE <= |mem|
  {
    match ImageAt(mem, start)
    case None => None
    case Some(image) => Some(Crc(WithBlankChecksum(image)))
  }

  /** A CRC over the bytes before the checksum field, a blank in its place, and the bytes behind it, is
      one CRC over the image with its field blanked. */
  lemma ThreeParts(image: seq<byte>, head: seq<byte>, tail: seq<byte>)
    requires |image| >= CHECKSUM_END && head == image[..CHECKSUM_OFFSET] && tail == image[CHECKSUM_END..]
    ensures UpdateCrc(UpdateCrc(UpdateCrc(0, Raw(head)), Raw(Blank(4))), Raw(tail)) == UpdateCrc(0, Raw(WithBlankChecksum(image)))
  {
    UpdateCrcThrice(0, Raw(head), Raw(Blank(4)), Raw(tail));
    RawConcat(head, Blank(4));
    RawConcat(head + Blank(4), tail);
    BlankInside(image);
  }

  lemma BlankInside(image: seq<byte>)
    requires |image| >= CHECKSUM_END
    ensures WithBlankChecksum(image) == image[..CHECKSUM_OFFSET] + Blank(4) + image[CHECKSUM_END..]
  {
  }

  lemma PartsInPlace(mem: seq<byte>, start: nat, rest: nat, image: seq<byte>)
    requires start + CHECKSUM_END + rest <= |mem| && image == mem[start..start + (CHECKSUM_END + rest)]
    ensures mem[start..start + CHECKSUM_OFFSET] == image[..CHECKSUM_OFFSET]
    ensures mem[start + CHECKSUM_END..start + (CHECKSUM_END + rest)] == image[CHECKSUM_END..]
  {
    SliceOfSlice(mem, start, start + (CHECKSUM_END + rest), 0, CHECKSUM_OFFSET);
    SliceOfSlice(mem, start, start + (CHECKSUM_END + rest), CHECKSUM_END, CHECKSUM_END + rest);
  }

  /** calculate_image_crc32. The third length is a 32-bit difference; when it wraps, or runs past the
      end of memory, the reads leave memory and the outcome is None. */
  method CalculateImageCrc32(mem: seq<byte>, start: nat) returns (result: Option<nat>)
    requires start + MINIMUM_SIZE <= |mem| < TWO_TO_THE_32
    ensures result == ImageCrc(mem, start)
  {
    var length := Word(mem, start + INFO_OFFSET + LENGTH_FIELD);
    var rest := Sub32(length, CHECKSUM_END);
    WrapLeavesMemory(length, start, |mem|);
    ImageOfLength(mem, start, length);
    result := None;
    if start + CHECKSUM_END + rest <= |mem| {
      ghost var image := mem[start..start + length];
      var crc := CrcAround(mem, start, rest, image);
      result := Some(crc);
    }
  }

  /** Subtraction of the C type uint32_t. */
  function Sub32(x: nat, y: nat): (r: nat)
    requires y <= TWO_TO_THE_32
    ensures x >= y ==> r == x - y
    ensures x < y ==> r == x + TWO_TO_THE_32 - y
  {
    if x >= y then x - y else x + TWO_TO_THE_32 - y
  }

  lemma WrapLeavesMemory(length: nat, start: nat, size: nat)
    requires size < TWO_TO_THE_32
    ensures start + CHECKSUM_END + Sub32(length, CHECKSUM_END) <= size <==> CHECKSUM_END <= length && start + length <= size
    ensures CHECKSUM_END <= length ==> CHECKSUM_END + Sub32(length, CHECKSUM_END) == length
  {
  }

  lemma ImageOfLength(mem: seq<byte>, start: nat, length: nat)
    requires start + MINIMUM_SIZE <= |mem| && length == Word(mem, start + INFO_OFFSET + LENGTH_FIELD)
    ensures ImageAt(mem, start)
         == if CHECKSUM_END <= length && start + length <= |mem| then Some(mem[start..start + length]) else None
  {
  }

  /** The three calls of util_crc32: up to the checksum field, a blank in its place, and what follows. */
  method CrcAround(mem: seq<byte>, start: nat, rest: nat, ghost image: seq<byte>) returns (crc: nat)
    requires start + CHECKSUM_END + rest <= |mem| && image == mem[start..start + (CHECKSUM_END + rest)]
    ensures crc == Crc(WithBlankChecksum(image))
  {
    var head := mem[start..start + CHECKSUM_OFFSET];
    var tail := mem[start + CHECKSUM_END..start + (CHECKSUM_END + rest)];
    PartsInPlace(mem, start, rest, image);
    ThreeParts(image, head, tail);
    var register := ComputeCrc32(0, Raw(head));
    register := ComputeCrc32(register, Raw(Blank(4)));
    register := ComputeCrc32(register, Raw(tail));
    crc := Number(register);
  }

  // ---------- The decision ----------

  datatype Outcome = JumpToApp | EnterDfu | ReadFault

  function StoredChecksum(mem: seq<byte>, start: nat): nat
    requires start + MINIMUM_SIZE <= |mem|
  {
    Word(mem, start + CHECKSUM_OFFSET)
  }

  /** The CRC of the bootloader itself, which main takes first, stays inside memory. Its value only
      matters for a message. */
  predicate SelfReadable(mem: seq<byte>)
    requires |mem| == FLASH_END
  {
    ImageAt(mem, BOOTLOADER_START).Some?
  }

  /** What main makes of the application it finds. */
  function DecideApp(mem: seq<byte>, magicReceived: bool): Outcome
    requires |mem| == FLASH_END
  {
    if !HasImage(mem) then EnterDfu
    else
      match ImageCrc(mem, APP_START)
      case None => ReadFault
      case Some(crc) => if crc == StoredChecksum(mem, APP_START) && !magicReceived then JumpToApp else EnterDfu
  }

  /** What main does with the flash it finds. */
  function Decide(mem: seq<byte>, magicReceived: bool): Outcome
    requires |mem| == FLASH_END
  {
    if SelfReadable(mem) then DecideApp(mem, magicReceived) else ReadFault
  }

  /** The head of main, up to the jump or the poll loop. */
  method Boot(mem: seq<byte>, magicReceived: bool) returns (outcome: Outcome)
    requires |mem| == FLASH_END
    ensures outcome == Decide(mem, magicReceived)
  {
    var own := CalculateImageCrc32(mem, BOOTLOADER_START);
    if own.None? {
      return ReadFault;
    }
    outcome := BootApp(mem, magicReceived);
  }

  /** The rest of it. */
  method BootApp(mem: seq<byte>, magicReceived: bool) returns (outcome: Outcome)
    requires |mem| == FLASH_END
    ensures outcome == DecideApp(mem, magicReceived)
  {
    var hasImage := Word(mem, APP_START + INFO_OFFSET) == BOOTLOADER_MAGIC;
    var checksumValid := false;
    if hasImage {
      var crc := CalculateImageCrc32(mem, APP_START);
      if crc.None? {
        return ReadFault;
      }
      checksumValid := crc.value == Word(mem, APP_START + CHECKSUM_OFFSET);
    }
    if !hasImage || !checksumValid || magicReceived {
      return EnterDfu;
    }
    return JumpToApp;
  }

  // ---------- What the checksum protects ----------

  /** An image is intact when the CRC over it, checksum field blanked, is the checksum it stores. */
  predicate Intact(image: seq<byte>) {
    && |image| >= CHECKSUM_END
    && Crc(WithBlankChecksum(image)) == Word(image, CHECKSUM_OFFSET)
  }

  /** The application is started exactly when main can read its own image, the application's magic is
      there, nobody asked for DFU, and the image its header delimits is intact. */
  lemma JumpsIffIntact(mem: seq<byte>, magicReceived: bool)
    requires |mem| == FLASH_END
    ensures Decide(mem, magicReceived) == JumpToApp <==>
      && SelfReadable(mem) && HasImage(mem) && !magicReceived
      && ImageAt(mem, APP_START).Some? && Intact(ImageAt(mem, APP_START).value)
    ensures Decide(mem, magicReceived) == ReadFault <==> !SelfReadable(mem) || (HasImage(mem) && ImageAt(mem, APP_START).None?)
  {
    AppStartsIffIntact(mem, magicReceived);
  }

  lemma AppStartsIffIntact(mem: seq<byte>, magicReceived: bool)
    requires |mem| == FLASH_END
    ensures DecideApp(mem, magicReceived) == JumpToApp <==>
      && HasImage(mem) && !magicReceived
      && ImageAt(mem, APP_START).Some? && Intact(ImageAt(mem, APP_START).value)
    ensures DecideApp(mem, magicReceived) == ReadFault <==> HasImage(mem) && ImageAt(mem, APP_START).None?
  {
    StoredInImage(mem, APP_START);
  }

  /** Reading an image leaves memory exactly when its length falls short of the checksum or runs past
      the end of memory. */
  lemma FaultsByLength(mem: seq<byte>, magicReceived: bool)
    requires |mem| == FLASH_END && HasImage(mem)
    ensures var length := Word(mem, APP_START + INFO_OFFSET + LENGTH_FIELD);
      Decide(mem, magicReceived) == ReadFault <==> (!SelfReadable(mem) || length < CHECKSUM_END || APP_START + length > FLASH_END)
  {
    var length := Word(mem, APP_START + INFO_OFFSET + LENGTH_FIELD);
    ImageOfLength(mem, APP_START, length);
    JumpsIffIntact(mem, magicReceived);
  }

  /** What main does without an application: enter DFU mode, if it can read its own image. */
  function WithoutApp(mem: seq<byte>): Outcome
    requires |mem| == FLASH_END
  {
    if SelfReadable(mem) then EnterDfu else ReadFault
  }

  /** Memory that agrees below the application: the bootloader and whatever lies around it. */
  ghost predicate SameBootloader(a: seq<byte>, b: seq<byte>) {
    |a| == |b| == FLASH_END && forall i :: 0 <= i < APP_START ==> a[i] == b[i]
  }

  lemma SelfReadableAlike(a: seq<byte>, b: seq<byte>)
    requires SameBootloader(a, b)
    ensures SelfReadable(a) == SelfReadable(b)
  {
    var at := BOOTLOADER_START + INFO_OFFSET + LENGTH_FIELD;
    assert a[at..at + 4] == b[at..at + 4];
    ImageOfLength(a, BOOTLOADER_START, Word(a, at));
    ImageOfLength(b, BOOTLOADER_START, Word(b, at));
  }

  lemma StoredInImage(mem: seq<byte>, start: nat)
    requires start + MINIMUM_SIZE <= |mem|
    ensures ImageAt(mem, start).Some? ==> Word(ImageAt(mem, start).value, CHECKSUM_OFFSET) == StoredChecksum(mem, start)
  {
    var image := ImageAt(mem, start);
    if image.Some? {
      WordOfSlice(mem, start, start + |image.value|, CHECKSUM_OFFSET);
    }
  }

  /** The stored checksum is not part of what is checked. */
  lemma ChecksumFieldIgnored(image: seq<byte>, field: seq<byte>)
    requires |image| >= CHECKSUM_END && |field| == 4
    ensures WithBlankChecksum(Splice(image, CHECKSUM_OFFSET, field)) == WithBlankChecksum(image)
  {
    SpliceOver(image, CHECKSUM_OFFSET, field, Blank(4));
  }

  /** insert_checksum.sh: the CRC of the image as linked. */
  function InsertChecksum(image: seq<byte>): (r: seq<byte>)
    requires |image| >= CHECKSUM_END
    ensures |r| == |image|
  {
    Splice(image, CHECKSUM_OFFSET, WordBytes(Crc(image)))
  }

  /** Images are linked with a blank checksum field; inserting the CRC makes them intact. */
  lemma InsertedIsIntact(image: seq<byte>)
    requires |image| >= CHECKSUM_END && image[CHECKSUM_OFFSET..CHECKSUM_END] == Blank(4)
    ensures Intact(InsertChecksum(image))
  {
    var bytes := WordBytes(Crc(image));
    assert WithBlankChecksum(image) == image by {
      assert forall i :: CHECKSUM_OFFSET <= i < CHECKSUM_END ==> image[i] == image[CHECKSUM_OFFSET..CHECKSUM_END][i - CHECKSUM_OFFSET];
    }
    ChecksumFieldIgnored(image, bytes);
    assert InsertChecksum(image)[CHECKSUM_OFFSET..CHECKSUM_OFFSET + 4] == bytes;
    WordRoundTrip(Crc(image));
  }

  /** Two images of equal length that differ somewhere, but only inside one window of four consecutive
      bytes clear of the checksum field, never have the same CRC. */
  lemma BurstChangesCrc(a: seq<byte>, b: seq<byte>, p: nat)
    requires |a| == |b| && |a| >= CHECKSUM_END && a != b && SameOutside(a, b, p, p + 4)
    requires p + 4 <= CHECKSUM_OFFSET || CHECKSUM_END <= p
    ensures Crc(WithBlankChecksum(a)) != Crc(WithBlankChecksum(b))
  {
    var x, y := WithBlankChecksum(a), WithBlankChecksum(b);
    var q := if p + 4 <= |a| then p else |a| - 4;
    DifferAfterBlanking(a, b, p);
    RawDiffers(x, y);
    assert forall i :: 0 <= i < |a| && !(q <= i < q + 4) ==> x[i] == y[i];
    BurstDetected(0, Raw(x), Raw(y), q);
    if Crc(x) == Crc(y) {
      NumberInjective(UpdateCrc(0, Raw(x)), UpdateCrc(0, Raw(y)));
    }
  }

  lemma DifferAfterBlanking(a: seq<byte>, b: seq<byte>, p: nat)
    requires |a| == |b| && |a| >= CHECKSUM_END && a != b && SameOutside(a, b, p, p + 4)
    requires p + 4 <= CHECKSUM_OFFSET || CHECKSUM_END <= p
    ensures WithBlankChecksum(a) != WithBlankChecksum(b)
  {
    var i :| 0 <= i < |a| && a[i] != b[i];
    assert WithBlankChecksum(a)[i] == a[i] && WithBlankChecksum(b)[i] == b[i];
  }

  lemma RawDiffers(x: seq<byte>, y: seq<byte>)
    requires |x| == |y| && x != y
    ensures Raw(x) != Raw(y)
  {
    var i :| 0 <= i < |x| && x[i] != y[i];
    if Raw(x)[i] == Raw(y)[i] {
      BitsInjective(x[i], y[i]);
    }
  }
}
