/** The embedded header, spelled out byte by byte: what the download, main and the upload read from it. */
module Header {
  import opened Layout
  import opened Bytes
  import opened FlashControl
  import opened DfuMachine
  import opened Bootloader

  /** struct bootloader_info, packed: 32 bytes, words least significant byte first. */
  function HeaderBytes(
    magic: nat, major: byte, minor: byte, reserved: seq<byte>, start: nat, length: nat, checksum: nat, reserved2: seq<byte>): (b: seq<byte>)
    requires magic < TWO_TO_THE_32 && start < TWO_TO_THE_32 && length < TWO_TO_THE_32 && checksum < TWO_TO_THE_32
    requires |reserved| == 2 && |reserved2| == 12
    ensures |b| == 32
  {
    WordBytes(magic) + [major, minor] + reserved + WordBytes(start) + WordBytes(length) + WordBytes(checksum) + reserved2
  }

  /** `s` holds such a header at `at`. */
  predicate HeaderAt(s: seq<byte>, at: nat, magic: nat, start: nat, length: nat, checksum: nat) {
    && at + 32 <= |s|
    && magic < TWO_TO_THE_32 && start < TWO_TO_THE_32 && length < TWO_TO_THE_32 && checksum < TWO_TO_THE_32
    && s[at..at + 32] == HeaderBytes(magic, s[at + 4], s[at + 5], s[at + 6..at + 8], start, length, checksum, s[at + 20..at + 32])
  }

  lemma WordWritten(s: seq<byte>, at: nat, w: nat)
    requires w < TWO_TO_THE_32 && at + 4 <= |s| && s[at..at + 4] == WordBytes(w)
    ensures Word(s, at) == w
  {
    WordRoundTrip(w);
  }

  lemma HeaderWords(s: seq<byte>, at: nat, magic: nat, start: nat, length: nat, checksum: nat)
    requires HeaderAt(s, at, magic, start, length, checksum)
    ensures Word(s, at) == magic && Word(s, at + 8) == start && Word(s, at + 12) == length && Word(s, at + 16) == checksum
  {
    var h := HeaderBytes(magic, s[at + 4], s[at + 5], s[at + 6..at + 8], start, length, checksum, s[at + 20..at + 32]);
    HeaderSlices(magic, s[at + 4], s[at + 5], s[at + 6..at + 8], start, length, checksum, s[at + 20..at + 32]);
    SliceOfSlice(s, at, at + 32, 0, 4);
    SliceOfSlice(s, at, at + 32, 8, 12);
    SliceOfSlice(s, at, at + 32, 12, 16);
    SliceOfSlice(s, at, at + 32, 16, 20);
    WordWritten(s, at, magic);
    WordWritten(s, at + 8, start);
    WordWritten(s, at + 12, length);
    WordWritten(s, at + 16, checksum);
  }

  lemma HeaderSlices(
    magic: nat, major: byte, minor: byte, reserved: seq<byte>, start: nat, length: nat, checksum: nat, reserved2: seq<byte>)
    requires magic < TWO_TO_THE_32 && start < TWO_TO_THE_32 && length < TWO_TO_THE_32 && checksum < TWO_TO_THE_32
    requires |reserved| == 2 && |reserved2| == 12
    ensures var h := HeaderBytes(magic, major, minor, reserved, start, length, checksum, reserved2);
      && h[0..4] == WordBytes(magic) && h[8..12] == WordBytes(start)
      && h[12..16] == WordBytes(length) && h[16..20] == WordBytes(checksum)
  {
  }

  /** What the download reads. */
  lemma ParsesHeader(image: seq<byte>, magic: nat, start: nat, length: nat, checksum: nat)
    requires |image| >= MINIMUM_SIZE && HeaderAt(image, INFO_OFFSET, magic, start, length, checksum)
    ensures ParseInfo(image) == Info(magic, start, length, checksum)
  {
    HeaderWords(image, INFO_OFFSET, magic, start, length, checksum);
  }

  /** The header check: the magic, which spells the bytes 54 4F 4F 42, then the start address. */
  lemma JudgesHeader(d: Download, magic: nat, start: nat, length: nat, checksum: nat)
    requires |d.page| == PAGE_SIZE && HeaderAt(d.page, INFO_OFFSET, magic, start, length, checksum)
    ensures VerifyHeader(d).1 ==
      if d.page[INFO_OFFSET..INFO_OFFSET + 4] != [0x54, 0x4F, 0x4F, 0x42] then ErrorTarget
      else if start != APP_START && start != BOOTLOADER_START then ErrorFile
      else OK
    ensures VerifyHeader(d).0.info == Info(magic, start, length, checksum)
    ensures VerifyHeader(d).1 == OK ==> (VerifyHeader(d).0.appUpdate <==> start == APP_START)
  {
    ParsesHeader(d.page, magic, start, length, checksum);
    MagicBytes(d.page, INFO_OFFSET);
  }

  lemma MagicBytes(s: seq<byte>, at: nat)
    requires at + 4 <= |s|
    ensures Word(s, at) == BOOTLOADER_MAGIC <==> s[at..at + 4] == [0x54, 0x4F, 0x4F, 0x42]
  {
    FourBytes([0x54, 0x4F, 0x4F, 0x42]);
    if Word(s, at) == BOOTLOADER_MAGIC {
      LittleEndianInjective(s[at..at + 4], [0x54, 0x4F, 0x4F, 0x42]);
    }
  }

  /** What main reads of an application: whether it is there, what its header delimits, and the checksum
      that it stores. */
  lemma FindsApplication(mem: seq<byte>, magic: nat, start: nat, length: nat, checksum: nat)
    requires |mem| == FLASH_END && HeaderAt(mem, APP_START + INFO_OFFSET, magic, start, length, checksum)
    ensures HasImage(mem) <==> mem[APP_START + INFO_OFFSET..APP_START + INFO_OFFSET + 4] == [0x54, 0x4F, 0x4F, 0x42]
    ensures ImageAt(mem, APP_START) ==
      if INFO_OFFSET + 20 <= length && APP_START + length <= FLASH_END then Some(mem[APP_START..APP_START + length]) else None
    ensures StoredChecksum(mem, APP_START) == checksum
  {
    HeaderWords(mem, APP_START + INFO_OFFSET, magic, start, length, checksum);
    MagicBytes(mem, APP_START + INFO_OFFSET);
    ImageOfLength(mem, APP_START, length);
  }

  /** What an upload announces without the magic of an application: the length in the bootloader's own
      header, twelve bytes in. */
  lemma AnnouncesOwnLength(mem: seq<byte>)
    requires |mem| == FLASH_END
    requires mem[APP_START + INFO_OFFSET..APP_START + INFO_OFFSET + 4] != [0x54, 0x4F, 0x4F, 0x42]
    ensures UploadLength(mem) == LittleEndian(mem[BOOTLOADER_START + INFO_OFFSET + 12..BOOTLOADER_START + INFO_OFFSET + 16])
  {
    MagicBytes(mem, APP_START + INFO_OFFSET);
  }

  /** With it: the 32 KiB of the bootloader and the length in the application's header, in 32 bits. */
  lemma AnnouncesAppLength(mem: seq<byte>)
    requires |mem| == FLASH_END
    requires mem[APP_START + INFO_OFFSET..APP_START + INFO_OFFSET + 4] == [0x54, 0x4F, 0x4F, 0x42]
    ensures var length := LittleEndian(mem[APP_START + INFO_OFFSET + 12..APP_START + INFO_OFFSET + 16]);
      UploadLength(mem) == if 0x8000 + length < 0x1_0000_0000 then 0x8000 + length else 0x8000 + length - 0x1_0000_0000
  {
    MagicBytes(mem, APP_START + INFO_OFFSET);
  }
}
