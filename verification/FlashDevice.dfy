/** The flash as an object: vendor primitives that act out the script, and the driver's loops over
    them, proved against FlashControl. */
module FlashDevice {
  import opened Layout
  import opened Bytes
  import opened FlashControl

  class Flash {
    var mem: seq<byte>
    var script: seq<Primitive>
    ghost var snaps: seq<seq<byte>>
    ghost var calls: seq<Call>

    ghost function View(): FlashState
      reads this
    {
      FlashState(mem, script, snaps, calls)
    }

    ghost predicate Valid()
      reads this
    {
      Sized(View())
    }

    constructor (mem: seq<byte>, script: seq<Primitive>)
      requires |mem| == FLASH_END
      ensures Valid() && View() == FlashState(mem, script, [], [])
    {
      this.mem, this.script, snaps, calls := mem, script, [], [];
    }

    /** MXC_FLC_PageErase. */
    method VendorPageErase(page: nat) returns (failed: bool)
      requires Valid()
      modifies this
      ensures Valid() && (View(), failed) == VendorErase(old(View()), page)
    {
      if !InFlash(page, PAGE_SIZE) {
        return true;
      }
      var p := Head(script);
      var left: seq<byte>;
      match p.effect {
        case Nominal => left := Blank(PAGE_SIZE);
        case Interrupted(done) => left := Partly(mem[page..page + PAGE_SIZE], Blank(PAGE_SIZE), done);
        case ScribbleBlock(b) => left := Fit(b, BLOCK_SIZE);
        case ScribblePage(b) => left := Fit(b, PAGE_SIZE);
      }
      mem, script := Splice(mem, page, left), Tail(script);
      snaps := snaps + [mem];
      failed := p.fails;
    }

    /** MXC_FLC_Write128. */
    method VendorWrite128(page: nat, i: nat, data: seq<byte>, ghost n: nat) returns (failed: bool)
      requires Valid() && |data| == BLOCK_SIZE && n < BLOCKS && i == BLOCK_SIZE * n
      modifies this
      ensures Valid() && (View(), failed) == VendorWrite(old(View()), page, n, data)
      ensures !failed ==> InFlash(page, PAGE_SIZE)
    {
      if !InFlash(page, PAGE_SIZE) {
        return true;
      }
      var p := Head(script);
      var at := page + i;
      var left := data;
      match p.effect {
        case Nominal => left := ClearBits(mem[at..at + BLOCK_SIZE], data);
        case Interrupted(done) =>
          left := Partly(mem[at..at + BLOCK_SIZE], ClearBits(mem[at..at + BLOCK_SIZE], data), done);
        case ScribbleBlock(b) => left := Fit(b, BLOCK_SIZE);
        case ScribblePage(b) => at, left := page, Fit(b, PAGE_SIZE);
      }
      mem, script := Splice(mem, at, left), Tail(script);
      snaps := snaps + [mem];
      failed := p.fails;
    }

    /** flash_control_erase_page. */
    method ErasePage(address: nat) returns (status: Status)
      requires Valid()
      modifies this
      ensures Valid() && (View(), status) == Erase(old(View()), address)
    {
      var page := PageOf(address);
      calls := calls + [EraseCall(page)];
      var failed := VendorPageErase(page);
      if failed {
        return ErrorErase;
      }
      var blank := CheckErased(page);
      status := if blank then OK else ErrorCheckErased;
    }

    /** The comparison loop of flash_control_erase_page. */
    method CheckErased(page: nat) returns (blank: bool)
      requires Valid() && InFlash(page, PAGE_SIZE)
      ensures blank <==> BlankPage(mem, page)
    {
      var i := 0;
      while i < PAGE_SIZE
        invariant 0 <= i <= PAGE_SIZE && i % 4 == 0
        invariant forall j :: page <= j < page + i ==> mem[j] == ERASED
      {
        ErasedWord(mem, page + i);
        if Word(mem, page + i) != 0xFFFF_FFFF {
          return false;
        }
        i := i + 4;
      }
      blank := true;
    }

    /** flash_control_program_page. */
    method ProgramPage(address: nat, page: array<byte>) returns (status: Status)
      requires Valid() && page.Length == PAGE_SIZE
      modifies this
      ensures Valid() && (View(), status) == Program(old(View()), address, page[..])
    {
      var target := PageOf(address);
      calls := calls + [ProgramCall(target, Held(mem, target))];
      var failed := WriteAll(target, page);
      if failed {
        return ErrorProgram;
      }
      var same := ReadBack(target, page);
      status := if same then OK else ErrorVerify;
    }

    /** The write loop of flash_control_program_page. */
    method WriteAll(target: nat, page: array<byte>) returns (failed: bool)
      requires Valid() && page.Length == PAGE_SIZE
      modifies this
      ensures Valid() && (View(), failed) == Remaining(target, page[..], old(View()), 0)
      ensures !failed ==> InFlash(target, PAGE_SIZE)
    {
      ghost var data, start := page[..], View();
      ghost var n := 0;
      var i := 0;
      while i < PAGE_SIZE
        invariant i == BLOCK_SIZE * n && n <= BLOCKS
        invariant Valid() && page[..] == data
        invariant Remaining(target, data, View(), n) == Remaining(target, data, start, 0)
        invariant n > 0 ==> InFlash(target, PAGE_SIZE)
      {
        failed := WriteBlock(target, page, i, n);
        if failed {
          return;
        }
        i, n := i + BLOCK_SIZE, n + 1;
      }
      RemainingNone(target, data, View());
      failed := false;
    }

    /** One turn of the write loop. */
    method WriteBlock(target: nat, page: array<byte>, i: nat, ghost n: nat) returns (failed: bool)
      requires Valid() && page.Length == PAGE_SIZE && n < BLOCKS && i == BLOCK_SIZE * n
      modifies this
      ensures Valid()
      ensures Remaining(target, page[..], old(View()), n)
           == if failed then (View(), true) else Remaining(target, page[..], View(), n + 1)
      ensures !failed ==> InFlash(target, PAGE_SIZE)
    {
      failed := VendorWrite128(target, i, page[i..i + BLOCK_SIZE], n);
      assert page[i..i + BLOCK_SIZE] == Block(page[..], n);
      WriteLoopUnfold(target, page[..], old(View()), n, View(), failed);
    }

    /** The comparison loop of flash_control_program_page. */
    method ReadBack(target: nat, page: array<byte>) returns (same: bool)
      requires Valid() && page.Length == PAGE_SIZE && InFlash(target, PAGE_SIZE)
      ensures same <==> mem[target..target + PAGE_SIZE] == page[..]
    {
      var i := 0;
      while i < PAGE_SIZE
        invariant 0 <= i <= PAGE_SIZE && i % 4 == 0
        invariant mem[target..target + i] == page[..i]
      {
        same := CompareWord(target, page, i);
        if !same {
          return;
        }
        i := i + 4;
      }
      same := true;
    }

    method CompareWord(target: nat, page: array<byte>, i: nat) returns (same: bool)
      requires Valid() && page.Length == PAGE_SIZE && InFlash(target, PAGE_SIZE) && i + 4 <= PAGE_SIZE
      requires mem[target..target + i] == page[..i]
      ensures same <==> mem[target..target + i + 4] == page[..i + 4]
      ensures !same ==> mem[target..target + PAGE_SIZE] != page[..]
    {
      assert page[..][..i] == page[..i] && page[..][..i + 4] == page[..i + 4];
      ComparedWord(mem, target, page[..], i);
      same := Word(page[..], i) == Word(mem, target + i);
    }
  }

  lemma ErasedWord(s: seq<byte>, at: nat)
    requires at + 4 <= |s|
    ensures Word(s, at) == 0xFFFF_FFFF <==> forall i :: at <= i < at + 4 ==> s[i] == ERASED
  {
    FourBytes(Blank(4));
    if Word(s, at) == 0xFFFF_FFFF {
      LittleEndianInjective(s[at..at + 4], Blank(4));
      assert forall i :: at <= i < at + 4 ==> s[i] == s[at..at + 4][i - at];
    }
    if forall i :: at <= i < at + 4 ==> s[i] == ERASED {
      assert s[at..at + 4] == Blank(4);
    }
  }

  /** The rest of a write loop. The turn counted by `n` is spelt out in lemmas only. */
  ghost function Remaining(target: nat, data: seq<byte>, f: FlashState, n: nat): (FlashState, bool)
    requires |data| == PAGE_SIZE
  {
    WriteLoop(BlockWriter(target, data), f, n)
  }

  lemma RemainingNone(target: nat, data: seq<byte>, f: FlashState)
    requires |data| == PAGE_SIZE
    ensures Remaining(target, data, f, BLOCKS) == (f, false)
  {
  }

  lemma WriteLoopUnfold(target: nat, data: seq<byte>, f: FlashState, n: nat, g: FlashState, failed: bool)
    requires Sized(f) && |data| == PAGE_SIZE && n < BLOCKS
    requires VendorWrite(f, target, n, Block(data, n)) == (g, failed)
    ensures WriteLoop(BlockWriter(target, data), f, n)
         == if failed then (g, true) else WriteLoop(BlockWriter(target, data), g, n + 1)
  {
  }

  /** One more word of the read-back. */
  lemma ComparedWord(mem: seq<byte>, target: nat, data: seq<byte>, i: nat)
    requires |data| == PAGE_SIZE && target + PAGE_SIZE <= |mem| && i + 4 <= PAGE_SIZE
    requires mem[target..target + i] == data[..i]
    ensures Word(data, i) == Word(mem, target + i) <==> mem[target..target + i + 4] == data[..i + 4]
    ensures mem[target..target + PAGE_SIZE] == data ==> Word(data, i) == Word(mem, target + i)
  {
    ComparedSlice(mem, target, data, i);
    WordsEqual(data, i, mem, target + i);
  }

  lemma ComparedSlice(mem: seq<byte>, target: nat, data: seq<byte>, i: nat)
    requires |data| == PAGE_SIZE && target + PAGE_SIZE <= |mem| && i + 4 <= PAGE_SIZE
    requires mem[target..target + i] == data[..i]
    ensures data[i..i + 4] == mem[target + i..target + i + 4] <==> mem[target..target + i + 4] == data[..i + 4]
    ensures mem[target..target + PAGE_SIZE] == data ==> data[i..i + 4] == mem[target + i..target + i + 4]
  {
    assert mem[target..target + i + 4] == mem[target..target + i] + mem[target + i..target + i + 4];
    assert data[..i + 4] == data[..i] + data[i..i + 4];
    SliceOfSlice(mem, target, target + PAGE_SIZE, i, i + 4);
  }
}
