/** The text formatter of src/util.c: logarithms by multiplication, hexadecimal numbers, and output
    that never leaves its buffer. */
module Formatter {

  // ---------- Logarithms ----------

  const POSITIONS: seq<bv32> :=
    [0, 9, 1, 10, 13, 21, 2, 29, 11, 14, 16, 18, 22, 25, 3, 30,
     8, 12, 20, 28, 15, 17, 24, 7, 19, 27, 23, 6, 26, 5, 4, 31]

  /** `r` is the position of the highest set bit: 2^r <= v < 2^(r+1). */
  predicate IsLog2(v: bv32, r: bv32) {
    r < 32 && v >> r == 1
  }

  function Slot(v: bv32): bv32 {
    (v * 0x07C4_ACDD) >> 27
  }

  function OnesUpTo(r: bv32): bv32
    requires r < 32
  {
    0xFFFF_FFFF >> (31 - r)
  }

  lemma SlotInTable(v: bv32)
    ensures Slot(v) as nat < |POSITIONS|
  {
  }

  /** The multiplier sends the 32 possible arguments to 32 different slots. */
  lemma SlotsAreDistinct(r: bv32)
    requires r < 32
    ensures Slot(OnesUpTo(r)) as nat < |POSITIONS| && POSITIONS[Slot(OnesUpTo(r)) as nat] == r
  {
  }

  lemma Smears(v: bv32, r: bv32)
    requires IsLog2(v, r)
    ensures var v1 := v | (v >> 1);
      var v2 := v1 | (v1 >> 2);
      var v3 := v2 | (v2 >> 4);
      var v4 := v3 | (v3 >> 8);
      v4 | (v4 >> 16) == OnesUpTo(r)
  {
  }

  lemma HasLog2(v: bv32) returns (r: bv32)
    requires v != 0
    ensures IsLog2(v, r)
  {
    r := HighestFrom(v, 0);
  }

  lemma {:induction false} HighestFrom(v: bv32, k: bv32) returns (r: bv32)
    requires k < 32 && v >> k != 0
    ensures IsLog2(v, r)
    decreases 32 - k
  {
    r := k;
    if v >> k != 1 {
      NextShift(v, k);
      r := HighestFrom(v, k + 1);
    }
  }

  lemma NextShift(v: bv32, r: bv32)
    requires r < 32 && v >> r != 0 && v >> r != 1
    ensures r + 1 < 32 && v >> (r + 1) != 0 && 32 - (r + 1) < 32 - r
  {
  }

  /** util_log2: the floor of the binary logarithm. */
  method Log2(value: bv32) returns (r: bv32)
    ensures r < 32
    ensures value != 0 ==> IsLog2(value, r)
  {
    var v := value;
    v := v | (v >> 1);
    v := v | (v >> 2);
    v := v | (v >> 4);
    v := v | (v >> 8);
    v := v | (v >> 16);
    SlotInTable(v);
    r := POSITIONS[Slot(v) as nat];
    if value != 0 {
      var log := HasLog2(value);
      Smears(value, log);
      SlotsAreDistinct(log);
    }
  }

  // ---------- Numbers ----------

  /** The lowest hexadecimal digit. */
  function Nibble(v: bv32): (d: nat)
    ensures d < 16
  {
    (v & 0xF) as nat
  }

  function HexChar(d: nat): char
    requires d < 16
  {
    if d < 10 then (48 + d) as char else (55 + d) as char
  }

  function HexValue(c: char): nat {
    if '0' <= c <= '9' then c as nat - 48 else if 'A' <= c <= 'F' then c as nat - 55 else 0
  }

  function Append(v: bv32, d: nat): bv32
    requires d < 16
  {
    (v << 4) | d as bv32
  }

  lemma HexRoundTrip(d: nat)
    requires d < 16
    ensures HexValue(HexChar(d)) == d
  {
  }

  lemma NibbleRoundTrip(v: bv32)
    ensures Append(v >> 4, Nibble(v)) == v
  {
    assert Nibble(v) as bv32 == v & 0xF;
    Recombines(v);
  }

  lemma Recombines(v: bv32)
    ensures ((v >> 4) << 4) | (v & 0xF) == v
  {
  }

  /** How many digits `v` takes. */
  function DigitCount(v: bv32): nat
    decreases v
  {
    if v >> 4 == 0 then 1 else Shorter(v); 1 + DigitCount(v >> 4)
  }

  lemma Shorter(v: bv32)
    requires v >> 4 != 0
    ensures v >> 4 < v
  {
  }

  /** The lowest `n` digits of `v`, highest first. */
  function HexDigits(v: bv32, n: nat): (s: string)
    ensures |s| == n
    decreases n, v
  {
    if n == 0 then "" else HexDigits(v >> 4, n - 1) + [HexChar(Nibble(v))]
  }

  /** The number that a string of digits spells. */
  function Value(s: string): bv32 {
    if s == "" then 0 else Append(Value(s[..|s| - 1]), HexValue(s[|s| - 1]))
  }

  /** The digits of a number spell it. */
  lemma {:induction false} DigitsSpell(v: bv32)
    ensures Value(HexDigits(v, DigitCount(v))) == v
    decreases v
  {
    var s := HexDigits(v, DigitCount(v));
    HexRoundTrip(Nibble(v));
    NibbleRoundTrip(v);
    if v >> 4 == 0 {
      assert s[..|s| - 1] == "";
    } else {
      Shorter(v);
      DigitsSpell(v >> 4);
      assert s[..|s| - 1] == HexDigits(v >> 4, DigitCount(v >> 4));
    }
  }

  /** No digit is wasted on a leading zero. */
  lemma {:induction false} LeadingDigit(v: bv32)
    ensures DigitCount(v) > 1 ==> HexDigits(v, DigitCount(v))[0] != '0'
    decreases v
  {
    if v >> 4 != 0 {
      Shorter(v);
      LeadingDigit(v >> 4);
      if (v >> 4) >> 4 == 0 {
        NonzeroNibble(v >> 4);
        assert HexDigits(v >> 4, 1)[0] == HexChar(Nibble(v >> 4));
      }
      assert HexDigits(v, DigitCount(v))[0] == HexDigits(v >> 4, DigitCount(v >> 4))[0];
    }
  }

  lemma NonzeroNibble(v: bv32)
    requires v != 0 && v >> 4 == 0
    ensures Nibble(v) != 0 && HexChar(Nibble(v)) != '0'
  {
    assert v & 0xF == v;
    assert Nibble(v) as bv32 == v & 0xF;
  }

  lemma LogOfShifted(v: bv32, r: bv32)
    requires IsLog2(v, r)
    ensures r < 4 ==> v >> 4 == 0
    ensures r >= 4 ==> v >> 4 != 0 && IsLog2(v >> 4, r - 4)
  {
  }

  lemma LogCounts(r: bv32)
    requires r < 32
    ensures (r / 4) as nat < 8
    ensures r < 4 ==> (r / 4) as nat == 0
    ensures r >= 4 ==> (r / 4) as nat == ((r - 4) / 4) as nat + 1
  {
  }

  /** The number of digits, read off the logarithm. */
  lemma {:induction false} DigitCountByLog(v: bv32, r: bv32)
    requires IsLog2(v, r)
    ensures DigitCount(v) == (r / 4) as nat + 1
    decreases v
  {
    LogOfShifted(v, r);
    LogCounts(r);
    if r >= 4 {
      Shorter(v);
      DigitCountByLog(v >> 4, r - 4);
    }
  }

  // ---------- Printing a number ----------

  function Zeros(n: nat): (s: string)
    ensures |s| == n && forall i :: 0 <= i < n ==> s[i] == '0'
  {
    seq(n, _ => '0')
  }

  predicate Negative(v: bv32) {
    v & 0x8000_0000 != 0
  }

  function Negate(v: bv32): bv32 {
    !v + 1
  }

  /** A number padded to `pad` digits; the sign, if there is one, comes before the padding. */
  function NumberText(v: bv32, signed: bool, pad: nat): string {
    if signed && Negative(v) then "-" + PaddedDigits(Negate(v), pad) else PaddedDigits(v, pad)
  }

  function PaddedDigits(v: bv32, pad: nat): (s: string)
    ensures |s| == if DigitCount(v) < pad then pad else DigitCount(v)
  {
    Zeros(if DigitCount(v) < pad then pad - DigitCount(v) else 0) + HexDigits(v, DigitCount(v))
  }

  /** Reading a number back, modulo 2^32. */
  function Read(s: string): bv32 {
    if s != "" && s[0] == '-' then 0 - Value(s[1..]) else Value(s)
  }

  lemma {:induction false} PaddingAddsNothing(n: nat, s: string)
    ensures Value(Zeros(n) + s) == Value(s)
    decreases |s|, n
  {
    if s == "" {
      if n > 0 {
        assert (Zeros(n) + s)[..n - 1] == Zeros(n - 1) + s;
        PaddingAddsNothing(n - 1, s);
        AppendNothing();
      } else {
        assert Zeros(n) + s == s;
      }
    } else {
      assert (Zeros(n) + s)[..n + |s| - 1] == Zeros(n) + s[..|s| - 1];
      PaddingAddsNothing(n, s[..|s| - 1]);
    }
  }

  lemma AppendNothing()
    ensures Append(0, HexValue('0')) == 0
  {
  }

  lemma NegateIsMinus(v: bv32)
    ensures 0 - Negate(v) == v
  {
  }

  lemma NegativeIsLarge(v: bv32)
    ensures Negative(v) <==> v >= 0x8000_0000
  {
  }

  lemma DigitsAreDigits(v: bv32, n: nat)
    ensures forall i :: 0 <= i < n ==> HexDigits(v, n)[i] != '-' && HexDigits(v, n)[i] != '\0'
  {
  }

  lemma DigitsReadBack(v: bv32, pad: nat)
    ensures Value(PaddedDigits(v, pad)) == v && PaddedDigits(v, pad) != "" && PaddedDigits(v, pad)[0] != '-'
  {
    PaddingAddsNothing(if DigitCount(v) < pad then pad - DigitCount(v) else 0, HexDigits(v, DigitCount(v)));
    DigitsSpell(v);
    DigitsAreDigits(v, DigitCount(v));
  }

  lemma MinusReadsBack(s: string, v: bv32)
    requires Value(s) == Negate(v)
    ensures Read("-" + s) == v
  {
    assert ("-" + s)[1..] == s;
    NegateIsMinus(v);
  }

  /** Whatever the padding and the signedness, the text of a number is that number. */
  lemma NumberReadsBack(v: bv32, signed: bool, pad: nat)
    ensures Read(NumberText(v, signed, pad)) == v
  {
    if signed && Negative(v) {
      DigitsReadBack(Negate(v), pad);
      MinusReadsBack(PaddedDigits(Negate(v), pad), v);
    } else {
      DigitsReadBack(v, pad);
    }
  }

  /** A sign is printed exactly for a signed number with its top bit set. */
  lemma SignPrinted(v: bv32, signed: bool, pad: nat)
    ensures NumberText(v, signed, pad) != ""
    ensures NumberText(v, signed, pad)[0] == '-' <==> signed && v >= 0x8000_0000
  {
    NegativeIsLarge(v);
    DigitsAreDigits(v, DigitCount(v));
  }

  /** The sign, then as many digits as the number or the padding asks for. */
  lemma NumberLength(v: bv32, signed: bool, pad: nat)
    ensures var minus := signed && v >= 0x8000_0000;
      var digits := DigitCount(if minus then 0 - v else v);
      |NumberText(v, signed, pad)| == (if minus then 1 else 0) + (if digits < pad then pad else digits)
  {
    NegativeIsLarge(v);
    MinusIsNegate(v);
  }

  lemma MinusIsNegate(v: bv32)
    ensures Negate(v) == 0 - v
  {
  }

  /** The sixteen digits. */
  lemma HexDigit(d: nat)
    requires d < 16
    ensures HexChar(d) == "0123456789ABCDEF"[d]
  {
  }

  const INT_BUFFER: nat := 20

  function Drop(v: bv32, n: nat): bv32
    decreases n, v
  {
    if n == 0 then v else Drop(v >> 4, n - 1)
  }

  lemma {:induction false} DropLast(v: bv32, n: nat)
    ensures Drop(v, n) >> 4 == Drop(v, n + 1)
    decreases n
  {
    if n > 0 {
      DropLast(v >> 4, n - 1);
    }
  }

  lemma ShiftMore(v: bv32, n: bv32)
    requires 0 < n < 8
    ensures (v >> (4 * (n - 1))) >> 4 == v >> (4 * n)
  {
  }

  lemma OneLess(n: bv32)
    requires 0 < n < 8
    ensures n as nat == (n - 1) as nat + 1
  {
  }

  lemma {:induction false} ShiftDrops(v: bv32, n: bv32)
    requires n < 8
    ensures v >> (4 * n) == Drop(v, n as nat)
    decreases n
  {
    if n > 0 {
      ShiftDrops(v, n - 1);
      ShiftMore(v, n);
      OneLess(n);
      DropLast(v, (n - 1) as nat);
    }
  }

  lemma SmallShift(i: nat)
    requires i < 8
    ensures i as bv32 < 8 && (i as bv32) as nat == i
  {
  }

  /** The digit that the source computes with shifts and masks. */
  lemma DigitAt(v: bv32, i: nat)
    requires i < 8
    ensures Nibble(v >> (4 * i as bv32)) == Nibble(Drop(v, i))
  {
    SmallShift(i);
    ShiftDrops(v, i as bv32);
  }

  /** One digit, as the source spells it. */
  method DigitChar(val: bv32, i: nat) returns (c: char)
    requires i < 8
    ensures c == HexChar(Nibble(Drop(val, i)))
  {
    var v := Nibble(val >> (4 * i as bv32));
    DigitAt(val, i);
    c := (v + 48) as char;
    if v >= 10 {
      c := c + 7 as char;
    }
  }

  /** The sign and the padding, at the head of the number buffer. */
  method WriteHead(intBuf: array<char>, neg: bool, zeros: nat) returns (n: nat)
    requires intBuf.Length == INT_BUFFER && zeros <= 8
    modifies intBuf
    ensures n <= 9 && intBuf[..n] == (if neg then "-" else "") + Zeros(zeros)
  {
    n := 0;
    if neg {
      intBuf[n] := '-';
      n := n + 1;
    }
    forall j | n <= j < n + zeros {
      intBuf[j] := '0';
    }
    n := n + zeros;
  }

  /** The digits, from the highest down, behind what is there already. */
  method WriteDigits(intBuf: array<char>, start: nat, val: bv32, count: nat) returns (n: nat)
    requires intBuf.Length == INT_BUFFER && start + count < INT_BUFFER && 0 < count <= 8
    modifies intBuf
    ensures n == start + count
    ensures intBuf[..n] == old(intBuf[..start]) + HexDigits(val, count)
  {
    n := start;
    ghost var written := "";
    var i: int := count - 1;
    while i >= 0
      invariant -1 <= i < count && n == start + count - 1 - i
      invariant |written| == count - 1 - i && written == HexDigits(Drop(val, i + 1), |written|)
      invariant intBuf[..n] == old(intBuf[..start]) + written
    {
      var c := DigitChar(val, i);
      NextDigit(val, i, |written|);
      intBuf[n] := c;
      written := written + [c];
      n := n + 1;
      i := i - 1;
    }
  }

  lemma NextDigit(v: bv32, i: nat, n: nat)
    ensures HexDigits(Drop(v, i), n + 1) == HexDigits(Drop(v, i + 1), n) + [HexChar(Nibble(Drop(v, i)))]
  {
    DropLast(v, i);
  }

  method CountDigits(val: bv32) returns (count: nat)
    ensures count == DigitCount(val) && 0 < count <= 8
  {
    count := 1;
    if val != 0 {
      var log := Log2(val);
      LogCounts(log);
      DigitCountByLog(val, log);
      count := (log / 4) as nat + 1;
    }
  }

  /** The number branch of util_vsnprintf: it never leaves the 20 bytes it has. */
  method WriteNumber(intBuf: array<char>, value: bv32, signed: bool, pad: nat) returns (n: nat)
    requires intBuf.Length == INT_BUFFER && pad <= 8
    modifies intBuf
    ensures n < INT_BUFFER && intBuf[..n] == NumberText(value, signed, pad) && intBuf[n] == '\0'
  {
    var neg := signed && Negative(value);
    var val := if neg then Negate(value) else value;
    var count := CountDigits(val);
    var zeros := if count < pad then pad - count else 0;
    n := WriteHead(intBuf, neg, zeros);
    n := WriteDigits(intBuf, n, val, count);
    NumberParts(value, signed, pad, neg, val, count, zeros);
    intBuf[n] := '\0';
  }

  lemma NumberParts(value: bv32, signed: bool, pad: nat, neg: bool, val: bv32, count: nat, zeros: nat)
    requires neg == (signed && Negative(value)) && val == (if neg then Negate(value) else value)
    requires count == DigitCount(val) && zeros == if count < pad then pad - count else 0
    ensures NumberText(value, signed, pad) == (if neg then "-" else "") + Zeros(zeros) + HexDigits(val, count)
  {
    var digits := HexDigits(val, count);
    assert (if neg then "-" else "") + (Zeros(zeros) + digits) == (if neg then "-" else "") + Zeros(zeros) + digits;
  }

  // ---------- Format strings ----------

  /** A variadic argument, as a word and as the string it may point to. */
  datatype Arg = Arg(word: bv32, text: string)

  /** The arguments from the first on. Reading beyond those supplied yields anything at all. */
  type Args = nat -> Arg

  datatype Directive = Literal(c: char) | Text | Number(signed: bool, pad: nat) | Unknown | Stop

  predicate IsDigit(c: char) {
    '0' <= c <= '9'
  }

  predicate IsNumeric(c: char) {
    c == 'd' || c == 'u' || c == 'x' || c == 'X' || c == 'p'
  }

  /** A format string ends where it ends or at its first NUL. */
  predicate AtEnd(fmt: string, i: nat)
    requires i <= |fmt|
  {
    i == |fmt| || fmt[i] == '\0'
  }

  /** The padding that the digits from `i` on spell after `acc`, and where they end. */
  function PadAfter(fmt: string, i: nat, acc: nat): (r: (nat, nat))
    requires i <= |fmt|
    ensures i <= r.1 <= |fmt|
    decreases |fmt| - i
  {
    if i < |fmt| && IsDigit(fmt[i]) then PadAfter(fmt, i + 1, 10 * acc + (fmt[i] as nat - 48)) else (acc, i)
  }

  function Clamp(pad: nat): (r: nat)
    ensures r <= 8
  {
    if pad > 8 then 8 else pad
  }

  /** The directive at `i`, and where the next one begins. A padding that ends the string ends the
      output, too. */
  function Scan(fmt: string, i: nat): (r: (Directive, nat))
    requires i <= |fmt| && !AtEnd(fmt, i)
    ensures i < r.1 <= |fmt|
    ensures r.0.Number? ==> r.0.pad <= 8
  {
    if fmt[i] != '%' then (Literal(fmt[i]), i + 1)
    else
      var zero := i + 1 < |fmt| && fmt[i + 1] == '0';
      var (pad, k) := if zero then PadAfter(fmt, i + 2, 0) else (0, i + 1);
      if AtEnd(fmt, k) then (if zero then Stop else Unknown, k)
      else if fmt[k] == 's' then (Text, k + 1)
      else if IsNumeric(fmt[k]) then (Number(fmt[k] == 'd', Clamp(pad)), k + 1)
      else (Unknown, k + 1)
  }

  /** A string up to its first NUL. */
  function Terminated(s: string): (r: string)
    ensures r <= s && '\0' !in r
    ensures |r| < |s| ==> s[|r|] == '\0'
  {
    if s == "" || s[0] == '\0' then "" else [s[0]] + Terminated(s[1..])
  }

  /** What a directive prints. */
  function Printed(directive: Directive, arg: Arg): string {
    match directive
    case Literal(c) => [c]
    case Text => Terminated(arg.text)
    case Number(signed, pad) => NumberText(arg.word, signed, pad)
    case _ => ""
  }

  /** How many arguments have been used after a directive. */
  function Used(directive: Directive, j: nat): nat {
    if directive.Literal? then j else j + 1
  }

  /** What is to be printed from `i` on, piece by piece, `j` arguments having been used. */
  function Pieces(fmt: string, args: Args, i: nat, j: nat): seq<string>
    requires i <= |fmt|
    decreases |fmt| - i, args
  {
    if AtEnd(fmt, i) then []
    else
      var (directive, k) := Scan(fmt, i);
      if directive.Stop? then []
      else if directive.Unknown? then Pieces(fmt, args, k, Used(directive, j))
      else [Printed(directive, args(j))] + Pieces(fmt, args, k, Used(directive, j))
  }

  /** The pieces that come before the first one that does not fit. */
  function Cut(pieces: seq<string>, room: nat): string {
    if pieces == [] || |pieces[0]| >= room then "" else pieces[0] + Cut(pieces[1..], room - |pieces[0]|)
  }

  function Flatten(pieces: seq<string>): string {
    if pieces == [] then "" else pieces[0] + Flatten(pieces[1..])
  }

  /** Output that is cut short is the beginning of the whole output, and it is cut exactly when the
      whole would not have fitted. */
  lemma {:induction false} CutIsPrefix(pieces: seq<string>, room: nat)
    ensures Cut(pieces, room) <= Flatten(pieces)
    ensures room > 0 ==> |Cut(pieces, room)| < room
    ensures room > 0 ==> (Cut(pieces, room) == Flatten(pieces) <==> |Flatten(pieces)| < room)
  {
    if pieces != [] && |pieces[0]| < room {
      CutIsPrefix(pieces[1..], room - |pieces[0]|);
    }
  }

  // ---------- What format strings mean ----------

  function Decimal(n: nat): (s: string)
    ensures s != "" && forall i :: 0 <= i < |s| ==> IsDigit(s[i])
    decreases n
  {
    if n < 10 then [(48 + n) as char] else Decimal(n / 10) + [(48 + n % 10) as char]
  }

  /** The number that a string of decimal digits spells, read on from `acc`. */
  function Horner(acc: nat, s: string): nat
    requires forall i :: 0 <= i < |s| ==> IsDigit(s[i])
    decreases |s|
  {
    if s == "" then acc else Horner(10 * acc + DigitOf(s[0]), s[1..])
  }

  function DigitOf(c: char): nat
    requires IsDigit(c)
  {
    c as nat - 48
  }

  lemma {:induction false} HornerSnoc(acc: nat, s: string, c: char)
    requires IsDigit(c) && forall i :: 0 <= i < |s| ==> IsDigit(s[i])
    ensures Horner(acc, s + [c]) == 10 * Horner(acc, s) + DigitOf(c)
    decreases |s|
  {
    if s == "" {
      assert Horner(acc, [c]) == Horner(10 * acc + DigitOf(c), [c][1..]);
      assert s + [c] == [c];
    } else {
      HornerSnoc(10 * acc + DigitOf(s[0]), s[1..], c);
      assert (s + [c])[1..] == s[1..] + [c];
    }
  }

  lemma {:induction false} DecimalSpells(n: nat)
    ensures Horner(0, Decimal(n)) == n
    decreases n
  {
    if n < 10 {
      assert Horner(0, Decimal(n)) == Horner(n, Decimal(n)[1..]);
    } else {
      DecimalSpells(n / 10);
      HornerSnoc(0, Decimal(n / 10), (48 + n % 10) as char);
    }
  }

  /** The padding is the decimal value of the whole run of digits. */
  lemma {:induction false} PadIsDecimal(fmt: string, i: nat, acc: nat, digits: string, rest: string)
    requires i <= |fmt| && fmt[i..] == digits + rest && forall k :: 0 <= k < |digits| ==> IsDigit(digits[k])
    requires rest != "" ==> !IsDigit(rest[0])
    ensures PadAfter(fmt, i, acc) == (Horner(acc, digits), i + |digits|)
    decreases |digits|
  {
    if digits == "" {
      assert fmt[i..] == rest;
      if rest != "" {
        assert fmt[i] == rest[0];
      }
    } else {
      assert fmt[i] == digits[0];
      assert fmt[i + 1..] == fmt[i..][1..] == digits[1..] + rest;
      PadIsDecimal(fmt, i + 1, 10 * acc + DigitOf(digits[0]), digits[1..], rest);
    }
  }

  /** A directive as it is written in a format string. */
  function Spell(d: Directive): string {
    match d
    case Literal(c) => [c]
    case Text => "%s"
    case Number(signed, pad) => (if pad == 0 then "%" else "%0" + Decimal(pad)) + [if signed then 'd' else 'X']
    case Unknown => "%%"
    case Stop => "%0"
  }

  /** A directive that can be written anywhere. */
  predicate Writable(d: Directive) {
    !d.Stop? && (d.Literal? ==> d.c != '%' && d.c != '\0')
  }

  /** What the formatter makes of it: no number is padded beyond eight digits. */
  function Understood(d: Directive): Directive {
    if d.Number? then Number(d.signed, Clamp(d.pad)) else d
  }

  /** Directives are read back as they are written, wherever they stand. */
  lemma ScanReadsSpelling(fmt: string, i: nat, d: Directive, rest: string)
    requires i <= |fmt| && fmt[i..] == Spell(d) + rest && Writable(d)
    ensures i < |fmt| && !AtEnd(fmt, i) && Scan(fmt, i) == (Understood(d), i + |Spell(d)|)
  {
    var s := Spell(d);
    assert fmt[i] == s[0];
    if d.Number? && d.pad > 0 {
      PaddedNumberScans(fmt, i, d.signed, d.pad, rest);
    } else if !d.Literal? {
      assert fmt[i + 1] == fmt[i..][1] == s[1];
    }
  }

  lemma PaddedNumberScans(fmt: string, i: nat, signed: bool, pad: nat, rest: string)
    requires i <= |fmt| && pad > 0 && fmt[i..] == Spell(Number(signed, pad)) + rest
    ensures i < |fmt| && !AtEnd(fmt, i) && Scan(fmt, i) == (Number(signed, Clamp(pad)), i + |Spell(Number(signed, pad))|)
  {
    var digits, conversion := Decimal(pad), if signed then 'd' else 'X';
    var tail := [conversion] + rest;
    DecimalSpells(pad);
    assert Spell(Number(signed, pad)) + rest == "%0" + digits + tail;
    PaddedParts(fmt, i, digits, tail);
    PadIsDecimal(fmt, i + 2, 0, digits, tail);
    NumberScans(fmt, i, pad, i + 2 + |digits|, conversion);
  }

  lemma PaddedParts(fmt: string, i: nat, digits: string, tail: string)
    requires i <= |fmt| && fmt[i..] == "%0" + digits + tail && tail != ""
    ensures i + 2 + |digits| < |fmt|
    ensures fmt[i] == '%' && fmt[i + 1] == '0' && fmt[i + 2..] == digits + tail && fmt[i + 2 + |digits|] == tail[0]
  {
    var s := fmt[i..];
    assert fmt[i] == s[0] && fmt[i + 1] == s[1];
    assert fmt[i + 2..] == s[2..] == digits + tail;
    assert fmt[i + 2 + |digits|] == s[2 + |digits|];
  }

  lemma NumberScans(fmt: string, i: nat, pad: nat, k: nat, conversion: char)
    requires i + 2 <= k < |fmt| && fmt[i] == '%' && fmt[i + 1] == '0' && PadAfter(fmt, i + 2, 0) == (pad, k)
    requires fmt[k] == conversion && (conversion == 'd' || conversion == 'X')
    ensures Scan(fmt, i) == (Number(conversion == 'd', Clamp(pad)), k + 1)
  {
  }

  predicate AllWritable(ds: seq<Directive>) {
    ds == [] || (Writable(ds[0]) && AllWritable(ds[1..]))
  }

  function SpellAll(ds: seq<Directive>): string {
    if ds == [] then "" else Spell(ds[0]) + SpellAll(ds[1..])
  }

  /** What a list of directives prints, taking its arguments from the `j`-th on. */
  function PrintAll(ds: seq<Directive>, args: Args, j: nat): seq<string>
    decreases |ds|, args
  {
    if ds == [] then []
    else if ds[0].Unknown? then PrintAll(ds[1..], args, j + 1)
    else [Printed(Understood(ds[0]), args(j))] + PrintAll(ds[1..], args, Used(ds[0], j))
  }

  /** The format string of a list of directives prints what the directives print, in order, each with
      its own argument. */
  lemma {:induction false} FormatMeansDirectives(fmt: string, i: nat, ds: seq<Directive>, args: Args, j: nat)
    requires i <= |fmt| && fmt[i..] == SpellAll(ds) && AllWritable(ds)
    ensures Pieces(fmt, args, i, j) == PrintAll(ds, args, j)
    decreases |ds|
  {
    if ds != [] {
      var k := FirstRead(fmt, i, ds);
      FormatMeansDirectives(fmt, k, ds[1..], args, Used(ds[0], j));
      FirstPrinted(fmt, i, ds, args, j, k);
    }
  }

  lemma FirstRead(fmt: string, i: nat, ds: seq<Directive>) returns (k: nat)
    requires i <= |fmt| && ds != [] && fmt[i..] == SpellAll(ds) && Writable(ds[0])
    ensures i < k <= |fmt| && !AtEnd(fmt, i) && Scan(fmt, i) == (Understood(ds[0]), k) && fmt[k..] == SpellAll(ds[1..])
  {
    ScanReadsSpelling(fmt, i, ds[0], SpellAll(ds[1..]));
    Behind(fmt, i, Spell(ds[0]), SpellAll(ds[1..]));
    k := i + |Spell(ds[0])|;
  }

  lemma Behind(fmt: string, i: nat, a: string, b: string)
    requires i <= |fmt| && fmt[i..] == a + b
    ensures i + |a| <= |fmt| && fmt[i + |a|..] == b
  {
    assert fmt[i + |a|..] == fmt[i..][|a|..];
  }

  lemma FirstPrinted(fmt: string, i: nat, ds: seq<Directive>, args: Args, j: nat, k: nat)
    requires i <= |fmt| && !AtEnd(fmt, i) && ds != [] && !ds[0].Stop? && Scan(fmt, i) == (Understood(ds[0]), k)
    requires Pieces(fmt, args, k, Used(ds[0], j)) == PrintAll(ds[1..], args, Used(ds[0], j))
    ensures Pieces(fmt, args, i, j) == PrintAll(ds, args, j)
  {
    NextPiece(fmt, args, i, j, Understood(ds[0]), k);
  }

  lemma NextPiece(fmt: string, args: Args, i: nat, j: nat, d: Directive, k: nat)
    requires i <= |fmt| && !AtEnd(fmt, i) && Scan(fmt, i) == (d, k) && !d.Stop?
    ensures Pieces(fmt, args, i, j) == (if d.Unknown? then [] else [Printed(d, args(j))]) + Pieces(fmt, args, k, Used(d, j))
  {
    var rest := Pieces(fmt, args, k, Used(d, j));
    assert [] + rest == rest;
  }

  // Without reference to what a directive is made to print: what comes out, and from which argument.

  /** The directives that take an argument. */
  function Taking(ds: seq<Directive>): nat {
    if ds == [] then 0 else (if ds[0].Literal? then 0 else 1) + Taking(ds[1..])
  }

  /** The directives that print something. */
  function Showing(ds: seq<Directive>): nat {
    if ds == [] then 0 else (if ds[0].Unknown? then 0 else 1) + Showing(ds[1..])
  }

  lemma {:induction false} PrintAllSplits(a: seq<Directive>, b: seq<Directive>, args: Args, j: nat)
    ensures PrintAll(a + b, args, j) == PrintAll(a, args, j) + PrintAll(b, args, j + Taking(a))
    ensures |PrintAll(a, args, j)| == Showing(a)
    decreases |a|
  {
    if a == [] {
      assert a + b == b;
      assert [] + PrintAll(b, args, j) == PrintAll(b, args, j);
    } else {
      assert (a + b)[1..] == a[1..] + b;
      PrintAllSplits(a[1..], b, args, Used(a[0], j));
    }
  }

  lemma {:induction false} WritableParts(a: seq<Directive>, b: seq<Directive>)
    requires AllWritable(a) && AllWritable(b)
    ensures AllWritable(a + b)
    decreases |a|
  {
    if a == [] {
      assert a + b == b;
    } else {
      assert (a + b)[1..] == a[1..] + b;
      WritableParts(a[1..], b);
    }
  }

  /** `piece` is what the directive is for, given its argument. */
  predicate Shows(piece: string, d: Directive, arg: Arg) {
    && (d.Literal? ==> piece == [d.c])
    && (d.Text? ==> IsTextOf(piece, arg.text))
    && (d.Number? ==> IsNumberOf(piece, arg.word, d.signed, d.pad))
  }

  lemma UnderstoodShows(d: Directive, arg: Arg)
    requires Writable(d) && !d.Unknown?
    ensures Shows(Printed(Understood(d), arg), d, arg)
  {
    if d.Number? {
      NumberIsOf(arg.word, d.signed, d.pad);
    }
  }

  lemma FirstPiece(d: Directive, b: seq<Directive>, args: Args, j: nat)
    requires Writable(d) && !d.Unknown?
    ensures PrintAll([d] + b, args, j) == [Printed(Understood(d), args(j))] + PrintAll(b, args, Used(d, j))
  {
    assert ([d] + b)[1..] == b;
  }

  lemma PieceBehind(a: seq<Directive>, d: Directive, b: seq<Directive>, args: Args)
    requires Writable(d) && !d.Unknown?
    ensures |PrintAll(a + ([d] + b), args, 0)| > Showing(a)
    ensures PrintAll(a + ([d] + b), args, 0)[Showing(a)] == Printed(Understood(d), args(Taking(a)))
  {
    PrintAllSplits(a, [d] + b, args, 0);
    FirstPiece(d, b, args, Taking(a));
  }

  lemma PrintedAll(ds: seq<Directive>, args: Args)
    requires AllWritable(ds)
    ensures Pieces(SpellAll(ds), args, 0, 0) == PrintAll(ds, args, 0)
  {
    assert SpellAll(ds)[0..] == SpellAll(ds);
    FormatMeansDirectives(SpellAll(ds), 0, ds, args, 0);
  }

  /** What the directive behind `a` prints: the piece numbered by those of `a` that print something,
      from the argument numbered by those of `a` that take one. */
  lemma PieceOf(a: seq<Directive>, d: Directive, b: seq<Directive>, args: Args)
    requires AllWritable(a) && AllWritable(b) && Writable(d) && !d.Unknown?
    ensures |Pieces(SpellAll(a + ([d] + b)), args, 0, 0)| > Showing(a)
    ensures Shows(Pieces(SpellAll(a + ([d] + b)), args, 0, 0)[Showing(a)], d, args(Taking(a)))
  {
    AllParts(a, d, b);
    PrintedAll(a + ([d] + b), args);
    PieceBehind(a, d, b, args);
    UnderstoodShows(d, args(Taking(a)));
  }

  lemma AllParts(a: seq<Directive>, d: Directive, b: seq<Directive>)
    requires AllWritable(a) && AllWritable(b) && Writable(d)
    ensures AllWritable(a + ([d] + b))
  {
    assert ([d] + b)[1..] == b;
    WritableParts(a, [d] + b);
  }

  /** The argument up to its first NUL. */
  predicate IsTextOf(out: string, text: string) {
    out <= text && '\0' !in out && (|out| < |text| ==> text[|out|] == '\0')
  }

  /** The argument, read back; the sign where there is one; and as many digits as it takes or the
      padding, up to eight, asks for. */
  predicate IsNumberOf(out: string, word: bv32, signed: bool, pad: nat) {
    var minus := signed && word >= 0x8000_0000;
    var digits, wanted := DigitCount(if minus then 0 - word else word), if pad < 8 then pad else 8;
    && Read(out) == word
    && out != "" && (out[0] == '-' <==> minus)
    && (forall i :: (if minus then 1 else 0) <= i < |out| ==> out[i] in "0123456789ABCDEF")
    && |out| == (if minus then 1 else 0) + (if digits < wanted then wanted else digits)
  }

  lemma NumberIsOf(word: bv32, signed: bool, pad: nat)
    ensures IsNumberOf(NumberText(word, signed, Clamp(pad)), word, signed, pad)
  {
    NumberReadsBack(word, signed, Clamp(pad));
    SignPrinted(word, signed, Clamp(pad));
    NumberLength(word, signed, Clamp(pad));
    DigitsOnly(word, signed, Clamp(pad));
  }

  lemma {:induction false} HexDigitsOnly(v: bv32, n: nat)
    ensures forall i :: 0 <= i < n ==> HexDigits(v, n)[i] in "0123456789ABCDEF"
    decreases n
  {
    if n > 0 {
      HexDigitsOnly(v >> 4, n - 1);
      HexDigit(Nibble(v));
    }
  }

  lemma PaddedDigitsOnly(v: bv32, pad: nat)
    ensures forall i :: 0 <= i < |PaddedDigits(v, pad)| ==> PaddedDigits(v, pad)[i] in "0123456789ABCDEF"
  {
    HexDigitsOnly(v, DigitCount(v));
    HexDigit(0);
  }

  /** Behind the sign there are hexadecimal digits and nothing else. */
  lemma DigitsOnly(v: bv32, signed: bool, pad: nat)
    ensures forall i :: (if signed && v >= 0x8000_0000 then 1 else 0) <= i < |NumberText(v, signed, pad)| ==>
      NumberText(v, signed, pad)[i] in "0123456789ABCDEF"
  {
    NegativeIsLarge(v);
    PaddedDigitsOnly(v, pad);
    PaddedDigitsOnly(Negate(v), pad);
  }

  /** A number alone. */
  lemma NumberPrinted(signed: bool, pad: nat, args: Args)
    ensures IsNumberOf(Flatten(Pieces(Spell(Number(signed, pad)), args, 0, 0)), args(0).word, signed, pad)
  {
    AlonePrinted(Number(signed, pad), args);
    UnderstoodShows(Number(signed, pad), args(0));
  }

  /** A string alone. */
  lemma TextPrinted(args: Args)
    ensures IsTextOf(Flatten(Pieces("%s", args, 0, 0)), args(0).text)
  {
    AlonePrinted(Text, args);
    UnderstoodShows(Text, args(0));
  }

  lemma AlonePrinted(d: Directive, args: Args)
    requires Writable(d) && !d.Unknown?
    ensures Flatten(Pieces(Spell(d), args, 0, 0)) == Printed(Understood(d), args(0))
  {
    SpellOne(d);
    PrintedAll([d], args);
    PrintOne(d, args);
    FlattenOne(Printed(Understood(d), args(0)));
  }

  lemma SpellOne(d: Directive)
    requires Writable(d)
    ensures SpellAll([d]) == Spell(d) && AllWritable([d])
  {
    assert [d][1..] == [];
  }

  lemma PrintOne(d: Directive, args: Args)
    requires Writable(d) && !d.Unknown?
    ensures PrintAll([d], args, 0) == [Printed(Understood(d), args(0))]
  {
    assert [d] + [] == [d];
    FirstPiece(d, [], args, 0);
  }

  lemma FlattenOne(s: string)
    ensures Flatten([s]) == s
  {
    assert [s][1..] == [];
  }

  /** The other conversions print without a sign. */
  lemma UnsignedConversions(fmt: string, i: nat)
    requires i + 1 < |fmt| && fmt[i] == '%'
    ensures fmt[i + 1] in {'u', 'x', 'X', 'p'} ==> Scan(fmt, i) == (Number(false, 0), i + 2)
    ensures fmt[i + 1] !in {'s', 'd', 'u', 'x', 'X', 'p', '0', '\0'} ==> Scan(fmt, i) == (Unknown, i + 2)
  {
  }

  /** A padding that ends the format string ends the output. */
  lemma PaddingAtEndStops(fmt: string, i: nat, digits: string, args: Args, j: nat)
    requires i <= |fmt| && fmt[i..] == "%0" + digits && forall k :: 0 <= k < |digits| ==> IsDigit(digits[k])
    ensures Pieces(fmt, args, i, j) == []
  {
    assert fmt[i] == '%' && fmt[i + 1] == fmt[i..][1] == '0';
    assert fmt[i + 2..] == fmt[i..][2..] == digits + "";
    PadIsDecimal(fmt, i + 2, 0, digits, "");
  }

  /** Text without directives prints itself. */
  lemma {:induction false} PlainTextPrintsItself(fmt: string, i: nat, args: Args, j: nat)
    requires i <= |fmt| && forall k :: i <= k < |fmt| ==> fmt[k] != '%' && fmt[k] != '\0'
    ensures Flatten(Pieces(fmt, args, i, j)) == fmt[i..]
    decreases |fmt| - i
  {
    if i < |fmt| {
      PlainTextPrintsItself(fmt, i + 1, args, j);
      assert Pieces(fmt, args, i, j)[1..] == Pieces(fmt, args, i + 1, j);
      assert fmt[i..] == [fmt[i]] + fmt[i + 1..];
    }
  }

  /** What follows a NUL in the format string is not looked at. */
  lemma {:induction false} NothingBehindNul(a: string, b: string, args: Args, i: nat, j: nat)
    requires i <= |a|
    ensures Pieces(a + "\0" + b, args, i, j) == Pieces(a, args, i, j)
    decreases |a| - i
  {
    var fmt := a + "\0" + b;
    if !AtEnd(a, i) {
      ScanBeforeNul(a, b, i);
      NothingBehindNul(a, b, args, Scan(a, i).1, Used(Scan(a, i).0, j));
    }
  }

  lemma ScanBeforeNul(a: string, b: string, i: nat)
    requires i <= |a| && !AtEnd(a, i)
    ensures !AtEnd(a + "\0" + b, i) && Scan(a + "\0" + b, i) == Scan(a, i)
  {
    if i + 1 < |a| && a[i + 1] == '0' {
      PadBeforeNul(a, b, i + 2, 0);
    }
  }

  lemma {:induction false} PadBeforeNul(a: string, b: string, i: nat, acc: nat)
    requires i <= |a|
    ensures PadAfter(a + "\0" + b, i, acc) == PadAfter(a, i, acc)
    decreases |a| - i
  {
    if i < |a| && IsDigit(a[i]) {
      PadBeforeNul(a, b, i + 1, 10 * acc + (a[i] as nat - 48));
    }
  }

  // ---------- The formatter ----------

  method ScanPad(fmt: string, start: nat) returns (pad: nat, i: nat)
    requires start <= |fmt|
    ensures (pad, i) == PadAfter(fmt, start, 0)
  {
    pad, i := 0, start;
    while i < |fmt| && IsDigit(fmt[i])
      invariant start <= i <= |fmt|
      invariant PadAfter(fmt, i, pad) == PadAfter(fmt, start, 0)
    {
      pad := 10 * pad;
      pad := pad + (fmt[i] as nat - 48);
      i := i + 1;
    }
  }

  method ScanDirective(fmt: string, i: nat) returns (directive: Directive, k: nat)
    requires i <= |fmt| && !AtEnd(fmt, i)
    ensures (directive, k) == Scan(fmt, i)
  {
    if fmt[i] != '%' {
      return Literal(fmt[i]), i + 1;
    }
    k := i + 1;
    var pad := 0;
    if k < |fmt| && fmt[k] == '0' {
      pad, k := ScanPad(fmt, k + 1);
      if AtEnd(fmt, k) {
        return Stop, k;
      }
      if pad > 8 {
        pad := 8;
      }
    }
    if AtEnd(fmt, k) {
      return Unknown, k;
    }
    if fmt[k] == 's' {
      directive := Text;
    } else if IsNumeric(fmt[k]) {
      directive := Number(fmt[k] == 'd', pad);
    } else {
      directive := Unknown;
    }
    k := k + 1;
  }

  /** Copies a piece behind what is there, if there is room for it and the terminator. */
  method Put(buf: array<char>, len: nat, size: nat, text: string) returns (fits: bool)
    requires size < len <= buf.Length
    modifies buf
    ensures fits == (|text| < len - 1 - size)
    ensures if fits then buf[..size + |text|] == old(buf[..size]) + text else buf[..size] == old(buf[..size])
    ensures !fits ==> forall n :: 0 <= n < buf.Length ==> buf[n] == old(buf[n])
    ensures fits ==> forall n :: size + |text| <= n < buf.Length ==> buf[n] == old(buf[n])
  {
    fits := size + |text| < len - 1;
    if fits {
      forall j | 0 <= j < |text| {
        buf[size + j] := text[j];
      }
    }
  }

  /** util_strlen. */
  method StrLen(s: string) returns (n: nat)
    ensures n <= |s| && s[..n] == Terminated(s)
  {
    n := 0;
    while n < |s| && s[n] != '\0'
      invariant n <= |s| && '\0' !in s[..n]
    {
      n := n + 1;
    }
    TerminatedUnique(s, n);
  }

  lemma TerminatedUnique(s: string, n: nat)
    requires n <= |s| && '\0' !in s[..n] && (n < |s| ==> s[n] == '\0')
    ensures s[..n] == Terminated(s)
  {
  }

  method Piece(directive: Directive, arg: Arg, intBuf: array<char>) returns (text: string)
    requires intBuf.Length == INT_BUFFER && (directive.Number? ==> directive.pad <= 8)
    modifies intBuf
    ensures text == Printed(directive, arg)
  {
    match directive {
      case Literal(c) => text := [c];
      case Text =>
        var n := StrLen(arg.text);
        text := arg.text[..n];
      case Number(signed, pad) =>
        var n := WriteNumber(intBuf, arg.word, signed, pad);
        text := intBuf[..n];
      case _ => text := "";
    }
  }

  /** One turn of the loop, on the text to come. */
  lemma CutStep(fmt: string, args: Args, i: nat, j: nat, directive: Directive, k: nat, text: string, room: nat)
    requires i <= |fmt| && !AtEnd(fmt, i) && Scan(fmt, i) == (directive, k) && text == Printed(directive, args(j))
    ensures var now, rest := Cut(Pieces(fmt, args, i, j), room), Pieces(fmt, args, k, Used(directive, j));
      && (directive.Stop? ==> now == "")
      && (directive.Unknown? ==> now == Cut(rest, room))
      && (!directive.Stop? && !directive.Unknown? ==> now == if |text| >= room then "" else text + Cut(rest, room - |text|))
  {
    var rest := Pieces(fmt, args, k, Used(directive, j));
    if !directive.Stop? && !directive.Unknown? {
      assert Pieces(fmt, args, i, j) == [text] + rest;
      assert ([text] + rest)[1..] == rest;
    }
  }

  /** The turn itself; `going` is false once something did not fit. */
  method Turn(buf: array<char>, len: nat, size: nat, text: string, directive: Directive, ghost now: string, ghost rest: seq<string>)
    returns (newSize: nat, going: bool)
    requires size < len <= buf.Length
    requires directive.Stop? ==> now == ""
    requires directive.Unknown? ==> now == Cut(rest, len - 1 - size)
    requires !directive.Stop? && !directive.Unknown? ==>
      now == if |text| >= len - 1 - size then "" else text + Cut(rest, len - 1 - size - |text|)
    modifies buf
    ensures size <= newSize < len
    ensures forall n :: newSize <= n < buf.Length ==> buf[n] == old(buf[n])
    ensures old(buf[..size]) + now == buf[..newSize] + (if going then Cut(rest, len - 1 - newSize) else "")
  {
    newSize, going := size, !directive.Stop?;
    if !directive.Stop? && !directive.Unknown? {
      going := Put(buf, len, size, text);
      newSize := if going then size + |text| else size;
      JoinText(old(buf[..size]), text, now, rest, len - 1 - size, going);
    }
  }

  lemma JoinText(before: string, text: string, now: string, rest: seq<string>, room: nat, fits: bool)
    requires fits == (|text| < room)
    requires now == if |text| >= room then "" else text + Cut(rest, room - |text|)
    ensures before + now == if fits then before + text + Cut(rest, room - |text|) else before
  {
    if fits {
      assert before + (text + Cut(rest, room - |text|)) == before + text + Cut(rest, room - |text|);
    }
  }

  /** One turn of the loop. */
  method Advance(buf: array<char>, len: nat, size: nat, fmt: string, args: Args, i: nat, j: nat, intBuf: array<char>)
    returns (newSize: nat, k: nat, used: nat, going: bool)
    requires size < len <= buf.Length && i <= |fmt| && !AtEnd(fmt, i) && intBuf.Length == INT_BUFFER && intBuf != buf
    modifies buf, intBuf
    ensures i < k <= |fmt| && size <= newSize < len
    ensures forall n :: newSize <= n < buf.Length ==> buf[n] == old(buf[n])
    ensures old(buf[..size]) + Cut(Pieces(fmt, args, i, j), len - 1 - size)
         == buf[..newSize] + (if going then Cut(Pieces(fmt, args, k, used), len - 1 - newSize) else "")
  {
    var directive, next := ScanDirective(fmt, i);
    var text := Piece(directive, args(j), intBuf);
    k, used := next, Used(directive, j);
    ghost var now, rest := Cut(Pieces(fmt, args, i, j), len - 1 - size), Pieces(fmt, args, k, used);
    CutStep(fmt, args, i, j, directive, k, text, len - 1 - size);
    newSize, going := Turn(buf, len, size, text, directive, now, rest);
  }

  /** The loop. */
  method Fill(buf: array<char>, len: nat, fmt: string, args: Args) returns (size: nat)
    requires 0 < len <= buf.Length
    modifies buf
    ensures size < len && buf[..size] == Cut(Pieces(fmt, args, 0, 0), len - 1)
    ensures forall n :: size <= n < buf.Length ==> buf[n] == old(buf[n])
  {
    var i, j, going := 0, 0, true;
    var intBuf := new char[INT_BUFFER];
    size := 0;
    while going && !AtEnd(fmt, i)
      invariant i <= |fmt| && size < len
      invariant buf[..size] + (if going then Cut(Pieces(fmt, args, i, j), len - 1 - size) else "")
             == Cut(Pieces(fmt, args, 0, 0), len - 1)
      invariant forall n :: size <= n < buf.Length ==> buf[n] == old(buf[n])
      decreases |fmt| - i
    {
      size, i, j, going := Advance(buf, len, size, fmt, args, i, j, intBuf);
    }
  }

  /** util_vsnprintf: the output is terminated, stays below `len` and is the cut text; what lies behind
      the terminator is untouched. */
  method Format(buf: array<char>, len: nat, fmt: string, args: Args) returns (size: nat)
    requires 0 < len <= buf.Length
    modifies buf
    ensures size < len && buf[size] == '\0'
    ensures buf[..size] == Cut(Pieces(fmt, args, 0, 0), len - 1)
    ensures forall n :: size < n < buf.Length ==> buf[n] == old(buf[n])
  {
    size := Fill(buf, len, fmt, args);
    buf[size] := '\0';
  }
}
