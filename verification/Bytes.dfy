/** Byte buffers: copying into them, reading little-endian words out of them. */
module Bytes {
  import opened Layout

  /** `s` with `b` copied over it at `at` (memcpy into the middle of a buffer). */
  function Splice(s: seq<byte>, at: nat, b: seq<byte>): (r: seq<byte>)
    requires at + |b| <= |s|
    ensures |r| == |s|
    ensures forall i {:trigger r[i]} :: 0 <= i < |s| ==> r[i] == if at <= i < at + |b| then b[i - at] else s[i]
  {
    seq(|s|, i requires 0 <= i < |s| => if at <= i < at + |b| then b[i - at] else s[i])
  }

  lemma SpliceTwo(s: seq<byte>, at: nat, a: seq<byte>, b: seq<byte>)
    requires at + |a| + |b| <= |s|
    ensures Splice(Splice(s, at, a), at + |a|, b) == Splice(s, at, a + b)
  {
  }

  lemma SpliceOver(s: seq<byte>, at: nat, a: seq<byte>, b: seq<byte>)
    requires |a| == |b| && at + |a| <= |s|
    ensures Splice(Splice(s, at, a), at, b) == Splice(s, at, b)
  {
  }

  /** `n` erased bytes. */
  function Blank(n: nat): (r: seq<byte>)
    ensures |r| == n && forall i :: 0 <= i < n ==> r[i] == ERASED
  {
    seq(n, _ => ERASED)
  }

  /** `b` cut or padded to `n` bytes. */
  function Fit(b: seq<byte>, n: nat): (r: seq<byte>)
    ensures |r| == n
  {
    seq(n, i requires 0 <= i < n => if i < |b| then b[i] else ERASED)
  }

  ghost predicate SameOutside(a: seq<byte>, b: seq<byte>, lo: nat, hi: nat) {
    && |a| == |b|
    && forall i :: 0 <= i < |a| && !(lo <= i < hi) ==> a[i] == b[i]
  }

  /** The number that the bytes of `s` spell, least significant byte first. */
  function LittleEndian(s: seq<byte>): (n: nat)
    ensures |s| <= 1 ==> n < 0x100
    ensures |s| <= 2 ==> n < 0x1_0000
    ensures |s| <= 3 ==> n < 0x100_0000
    ensures |s| <= 4 ==> n < TWO_TO_THE_32
  {
    if s == [] then 0 else s[0] as nat + 0x100 * LittleEndian(s[1..])
  }

  lemma {:induction false} LittleEndianInjective(a: seq<byte>, b: seq<byte>)
    requires |a| == |b| && LittleEndian(a) == LittleEndian(b)
    ensures a == b
  {
    if a != [] {
      assert a[0] == b[0];
      LittleEndianInjective(a[1..], b[1..]);
      assert a == [a[0]] + a[1..] && b == [b[0]] + b[1..];
    }
  }

  /** The 32-bit word at `at`. */
  function Word(s: seq<byte>, at: nat): (w: nat)
    requires at + 4 <= |s|
    ensures w < TWO_TO_THE_32
  {
    LittleEndian(s[at..at + 4])
  }

  /** The bytes of a word. */
  function WordBytes(w: nat): (b: seq<byte>)
    requires w < TWO_TO_THE_32
    ensures |b| == 4
  {
    var w1 := w / 0x100;
    var w2 := w1 / 0x100;
    [(w % 0x100) as byte, (w1 % 0x100) as byte, (w2 % 0x100) as byte, (w2 / 0x100) as byte]
  }

  lemma FourBytes(b: seq<byte>)
    requires |b| == 4
    ensures LittleEndian(b) == b[0] as nat + 0x100 * (b[1] as nat + 0x100 * (b[2] as nat + 0x100 * b[3] as nat))
  {
    assert LittleEndian(b[1..][1..][1..]) == b[3] as nat + 0x100 * LittleEndian(b[1..][1..][1..][1..]);
    assert LittleEndian(b[1..][1..]) == b[2] as nat + 0x100 * LittleEndian(b[1..][1..][1..]);
    assert LittleEndian(b[1..]) == b[1] as nat + 0x100 * LittleEndian(b[1..][1..]);
  }

  lemma WordRoundTrip(w: nat)
    requires w < TWO_TO_THE_32
    ensures LittleEndian(WordBytes(w)) == w
  {
    FourBytes(WordBytes(w));
  }

  /** Word-by-word comparison decides byte-by-byte equality. */
  lemma WordsEqual(a: seq<byte>, i: nat, b: seq<byte>, j: nat)
    requires i + 4 <= |a| && j + 4 <= |b|
    ensures Word(a, i) == Word(b, j) <==> a[i..i + 4] == b[j..j + 4]
  {
    if Word(a, i) == Word(b, j) {
      LittleEndianInjective(a[i..i + 4], b[j..j + 4]);
    }
  }

  lemma WordOfSlice(s: seq<byte>, lo: nat, hi: nat, at: nat)
    requires lo <= hi <= |s| && lo + at + 4 <= hi
    ensures Word(s[lo..hi], at) == Word(s, lo + at)
  {
    var t := s[lo..hi];
    assert t[at] == s[lo + at] && t[at + 1] == s[lo + at + 1];
    assert t[at + 2] == s[lo + at + 2] && t[at + 3] == s[lo + at + 3];
    assert t[at..at + 4] == [t[at], t[at + 1], t[at + 2], t[at + 3]];
    assert s[lo + at..lo + at + 4] == [s[lo + at], s[lo + at + 1], s[lo + at + 2], s[lo + at + 3]];
  }

  lemma SliceOfSlice(s: seq<byte>, lo: nat, hi: nat, i: nat, j: nat)
    requires lo <= hi <= |s| && i <= j <= hi - lo
    ensures s[lo..hi][i..j] == s[lo + i..lo + j]
  {
    var a, b := s[lo..hi][i..j], s[lo + i..lo + j];
    forall k | 0 <= k < j - i ensures a[k] == b[k] {
      assert a[k] == s[lo..hi][i + k];
    }
  }

  /** A word clear of the bytes that differ. */
  lemma WordOutside(mem: seq<byte>, other: seq<byte>, lo: nat, at: nat)
    requires SameOutside(mem, other, lo, lo + 4) && at + 4 <= |mem| && (at + 4 <= lo || lo + 4 <= at)
    ensures Word(mem, at) == Word(other, at)
  {
    assert mem[at..at + 4] == other[at..at + 4];
  }
}
