/** The flash controller and the driver of device/max32650/src/flash_control.c.

    The controller is an arbitrary environment: a script says, primitive by primitive, whether the
    vendor call reports an error and what it really does to the addressed page. A statement about
    every script is a statement about every behaviour of the hardware. */
module FlashControl {
  import opened Layout
  import opened Bytes

  datatype Status =
    | OK
    | ErrorTarget
    | ErrorFile
    | ErrorErase
    | ErrorCheckErased
    | ErrorProgram
    | ErrorVerify
    | ErrorNotDone
    | ErrorFirmware
    | ErrorUnknown
    | ErrorStalledPacket

  // ---------- The controller ----------

  datatype Effect =
    | Nominal                           // erase sets every bit, program clears bits
    | Interrupted(done: seq<bool>)       // does so for some bytes and leaves the others as they were
    | ScribbleBlock(block: seq<byte>)    // leaves these bytes in the addressed 16-byte block
    | ScribblePage(page: seq<byte>)      // leaves these bytes in the whole addressed page

  datatype Primitive = Primitive(fails: bool, effect: Effect)

  /** A driver call, with what the page held when programming was asked for. */
  datatype Call = EraseCall(page: nat) | ProgramCall(page: nat, found: seq<byte>)

  /** Memory is indexed by address. `snaps` collects the memory after every primitive: the contents
      a power loss would leave behind. */
  datatype FlashState = FlashState(mem: seq<byte>, script: seq<Primitive>, snaps: seq<seq<byte>>, calls: seq<Call>)

  function Head(script: seq<Primitive>): Primitive {
    if script == [] then Primitive(false, Nominal) else script[0]
  }

  function Tail(script: seq<Primitive>): seq<Primitive> {
    if script == [] then [] else script[1..]
  }

  ghost predicate AllNominal(script: seq<Primitive>) {
    forall p :: p in script ==> p == Primitive(false, Nominal)
  }

  /** No primitive reaches beyond the 16-byte block it addresses. */
  ghost predicate Confined(script: seq<Primitive>) {
    forall p :: p in script ==> !p.effect.ScribblePage?
  }

  /** Every primitive does what it should, to all the bytes it was given or to some of them. */
  ghost predicate Orderly(script: seq<Primitive>) {
    forall p :: p in script ==> p.effect.Nominal? || p.effect.Interrupted?
  }

  /** Memory reaches exactly to the end of the flash. */
  predicate Sized(f: FlashState) {
    |f.mem| == FLASH_END
  }

  predicate InFlash(address: nat, n: nat) {
    BOOTLOADER_START <= address && address + n <= FLASH_END
  }

  predicate BlankPage(mem: seq<byte>, page: nat) {
    page + PAGE_SIZE <= |mem| && forall i :: page <= i < page + PAGE_SIZE ==> mem[i] == ERASED
  }

  function And(x: byte, y: byte): byte {
    (x as bv8 & y as bv8) as byte
  }

  /** Programming clears bits and sets none. */
  function ClearBits(held: seq<byte>, data: seq<byte>): (r: seq<byte>)
    requires |held| == |data|
    ensures |r| == |data|
    ensures forall i {:trigger r[i]} :: 0 <= i < |r| ==> r[i] == And(held[i], data[i])
  {
    seq(|data|, i requires 0 <= i < |data| => And(held[i], data[i]))
  }

  /** `held` on its way to `target`: the bytes that are done have changed. */
  function Partly(held: seq<byte>, target: seq<byte>, done: seq<bool>): (r: seq<byte>)
    requires |held| == |target|
    ensures |r| == |held|
    ensures forall i {:trigger r[i]} :: 0 <= i < |r| ==> r[i] == held[i] || r[i] == target[i]
  {
    seq(|held|, i requires 0 <= i < |held| => if i < |done| && done[i] then target[i] else held[i])
  }

  /** One more primitive has run and left `mem`. */
  function After(f: FlashState, mem: seq<byte>): FlashState {
    FlashState(mem, Tail(f.script), f.snaps + [mem], f.calls)
  }

  /** MXC_FLC_PageErase. */
  function VendorErase(f: FlashState, page: nat): (r: (FlashState, bool))
    requires Sized(f)
    ensures Sized(r.0)
  {
    if !InFlash(page, PAGE_SIZE) then (f, true)
    else
      var p := Head(f.script);
      var left := match p.effect
        case Nominal => Blank(PAGE_SIZE)
        case Interrupted(done) => Partly(f.mem[page..page + PAGE_SIZE], Blank(PAGE_SIZE), done)
        case ScribbleBlock(b) => Fit(b, BLOCK_SIZE)
        case ScribblePage(b) => Fit(b, PAGE_SIZE);
      (After(f, Splice(f.mem, page, left)), p.fails)
  }

  /** What a write of the `n`-th block of a page leaves. */
  function WriteEffect(mem: seq<byte>, page: nat, n: nat, data: seq<byte>, effect: Effect): (r: seq<byte>)
    requires |data| == BLOCK_SIZE && n < BLOCKS && page + PAGE_SIZE <= |mem|
    ensures |r| == |mem|
  {
    var at := page + BLOCK_SIZE * n;
    var held := mem[at..at + BLOCK_SIZE];
    match effect
    case Nominal => Splice(mem, at, ClearBits(held, data))
    case Interrupted(done) => Splice(mem, at, Partly(held, ClearBits(held, data), done))
    case ScribbleBlock(b) => Splice(mem, at, Fit(b, BLOCK_SIZE))
    case ScribblePage(b) => Splice(mem, page, Fit(b, PAGE_SIZE))
  }

  /** MXC_FLC_Write128, for the `n`-th block of a page. */
  function VendorWrite(f: FlashState, page: nat, n: nat, data: seq<byte>): (r: (FlashState, bool))
    requires Sized(f) && |data| == BLOCK_SIZE && n < BLOCKS
    ensures Sized(r.0)
  {
    if !InFlash(page, PAGE_SIZE) then (f, true)
    else (After(f, WriteEffect(f.mem, page, n, data, Head(f.script).effect)), Head(f.script).fails)
  }

  // ---------- The driver ----------

  function Logged(f: FlashState, call: Call): FlashState {
    f.(calls := f.calls + [call])
  }

  /** flash_control_erase_page: erase, then read back. */
  function Erase(f: FlashState, address: nat): (r: (FlashState, Status))
    requires Sized(f)
    ensures Sized(r.0)
  {
    var page := PageOf(address);
    var (g, failed) := VendorErase(Logged(f, EraseCall(page)), page);
    if failed then (g, ErrorErase)
    else if !BlankPage(g.mem, page) then (g, ErrorCheckErased)
    else (g, OK)
  }

  function Block(data: seq<byte>, n: nat): (b: seq<byte>)
    requires |data| == PAGE_SIZE && n < BLOCKS
    ensures |b| == BLOCK_SIZE
  {
    data[BLOCK_SIZE * n..BLOCK_SIZE * n + BLOCK_SIZE]
  }

  /** What one turn of a write loop does with block `n`: the new state, and whether it failed. */
  type Writer = (FlashState, nat) -> (FlashState, bool)

  /** The write loop from block `n` on; true when a write failed. */
  function WriteLoop(w: Writer, f: FlashState, n: nat): (FlashState, bool)
    decreases BLOCKS - n, f  // naming `f` keeps the solver from running the loop from a literal start
  {
    if n >= BLOCKS then (f, false)
    else
      var (g, failed) := w(f, n);
      if failed then (g, true) else WriteLoop(w, g, n + 1)
  }

  function BlockWriter(page: nat, data: seq<byte>): Writer
    requires |data| == PAGE_SIZE
  {
    (f: FlashState, n: nat) => if Sized(f) && n < BLOCKS then VendorWrite(f, page, n, Block(data, n)) else (f, true)
  }

  lemma {:induction false} WriteLoopSized(w: Writer, f: FlashState, n: nat)
    requires forall h, k :: Sized(h) ==> Sized(w(h, k).0)
    requires Sized(f)
    ensures Sized(WriteLoop(w, f, n).0)
    decreases BLOCKS - n
  {
    if n < BLOCKS {
      WriteLoopSized(w, w(f, n).0, n + 1);
    }
  }

  function Held(mem: seq<byte>, page: nat): seq<byte> {
    if page + PAGE_SIZE <= |mem| then mem[page..page + PAGE_SIZE] else []
  }

  /** flash_control_program_page: write block by block, then read back. */
  function Program(f: FlashState, address: nat, data: seq<byte>): (r: (FlashState, Status))
    requires Sized(f) && |data| == PAGE_SIZE
    ensures Sized(r.0)
  {
    var page := PageOf(address);
    var f1 := Logged(f, ProgramCall(page, Held(f.mem, page)));
    WriteLoopSized(BlockWriter(page, data), f1, 0);
    Verified(WriteLoop(BlockWriter(page, data), f1, 0), page, data)
  }

  /** The verdict after the write loop. */
  function Verified(written: (FlashState, bool), page: nat, data: seq<byte>): (FlashState, Status) {
    var (g, failed) := written;
    if failed then (g, ErrorProgram)
    else if Held(g.mem, page) != data then (g, ErrorVerify)
    else (g, OK)
  }

  // ---------- What the driver guarantees ----------

  /** `g` is reached from `f` by primitives that only touched bytes from `lo` to `hi`. */
  ghost predicate Touched(f: FlashState, g: FlashState, lo: nat, hi: nat) {
    && SameOutside(f.mem, g.mem, lo, hi)
    && f.snaps <= g.snaps
    && (forall k :: |f.snaps| <= k < |g.snaps| ==> SameOutside(f.mem, g.snaps[k], lo, hi))
    && g.mem == (if |g.snaps| > |f.snaps| then g.snaps[|g.snaps| - 1] else f.mem)
    && Inherits(f.script, g.script)
  }

  ghost predicate Inherits(script: seq<Primitive>, rest: seq<Primitive>) {
    && (AllNominal(script) ==> AllNominal(rest))
    && (Confined(script) ==> Confined(rest))
    && (Orderly(script) ==> Orderly(rest))
  }

  lemma TailKeeps(script: seq<Primitive>)
    ensures AllNominal(script) ==> AllNominal(Tail(script)) && Head(script) == Primitive(false, Nominal)
    ensures Confined(script) ==> Confined(Tail(script)) && !Head(script).effect.ScribblePage?
    ensures Orderly(script) ==> Orderly(Tail(script)) && (Head(script).effect.Nominal? || Head(script).effect.Interrupted?)
  {
    if script != [] {
      assert script[0] in script;
      assert forall p :: p in script[1..] ==> p in script;
    }
  }

  /** Memory in the course of an erase: each byte of the page is as it was, or erased. */
  ghost predicate Fading(mem: seq<byte>, snap: seq<byte>, page: nat) {
    |snap| == |mem| && forall i :: page <= i < page + PAGE_SIZE && i < |mem| ==> snap[i] == mem[i] || snap[i] == ERASED
  }

  ghost predicate AllFading(f: FlashState, g: FlashState, page: nat) {
    forall k :: |f.snaps| <= k < |g.snaps| ==> Fading(f.mem, g.snaps[k], page)
  }

  /** An erase that returns success has left the whole page blank, whatever the controller did; it
      touches no other page; and a healthy controller always succeeds inside the flash. */
  lemma EraseContract(f: FlashState, address: nat, g: FlashState, status: Status)
    requires Sized(f) && Erase(f, address) == (g, status)
    ensures var page := PageOf(address);
      && Touched(f, g, page, page + PAGE_SIZE)
      && |g.snaps| <= |f.snaps| + 1
      && g.calls == f.calls + [EraseCall(page)]
      && (status == OK ==> InFlash(page, PAGE_SIZE) && g.mem == Splice(f.mem, page, Blank(PAGE_SIZE)))
      && status in {OK, ErrorErase, ErrorCheckErased}
      && (AllNominal(f.script) && InFlash(page, PAGE_SIZE) ==> status == OK)
  {
    TailKeeps(f.script);
    if status == OK {
      assert g.mem == Splice(f.mem, PageOf(address), Blank(PAGE_SIZE));
    }
  }

  /** Power lost in an orderly erase leaves nothing that was not there before. */
  lemma EraseFades(f: FlashState, address: nat)
    requires Sized(f) && Orderly(f.script)
    ensures AllFading(f, Erase(f, address).0, PageOf(address))
  {
    TailKeeps(f.script);
  }

  /** Healthy hardware erases in one go. */
  lemma EraseNominal(f: FlashState, address: nat)
    requires Sized(f) && AllNominal(f.script) && InFlash(PageOf(address), PAGE_SIZE)
    ensures var g := Erase(f, address).0; g.snaps == f.snaps + [Splice(f.mem, PageOf(address), Blank(PAGE_SIZE))]
  {
    TailKeeps(f.script);
  }

  lemma AndErased(x: byte)
    ensures And(ERASED, x) == x
  {
  }

  lemma TouchedTransitive(f: FlashState, g: FlashState, h: FlashState, lo: nat, hi: nat)
    requires Touched(f, g, lo, hi) && Touched(g, h, lo, hi)
    ensures Touched(f, h, lo, hi)
  {
  }

  lemma TouchedWider(f: FlashState, g: FlashState, lo: nat, hi: nat, newLo: nat, newHi: nat)
    requires Touched(f, g, lo, hi) && newLo <= lo && hi <= newHi
    ensures Touched(f, g, newLo, newHi)
  {
  }

  /** What one write does, whatever the controller does. */
  ghost predicate WriteStep(f: FlashState, page: nat, n: nat, g: FlashState, failed: bool) {
    && Sized(g)
    && Touched(f, g, page, page + PAGE_SIZE)
    && g.calls == f.calls
    && |g.snaps| <= |f.snaps| + 1
    && (!failed ==> InFlash(page, PAGE_SIZE) && |g.snaps| == |f.snaps| + 1)
    && (Confined(f.script) ==> Touched(f, g, page + BLOCK_SIZE * n, page + BLOCK_SIZE * n + BLOCK_SIZE))
  }

  ghost predicate WritesPage(w: Writer, page: nat) {
    forall f, n: nat :: Sized(f) && n < BLOCKS ==> WriteStep(f, page, n, w(f, n).0, w(f, n).1)
  }

  lemma VendorWriteStep(f: FlashState, page: nat, n: nat, data: seq<byte>)
    requires Sized(f) && |data| == BLOCK_SIZE && n < BLOCKS
    ensures var (g, failed) := VendorWrite(f, page, n, data); WriteStep(f, page, n, g, failed)
  {
    TailKeeps(f.script);
  }

  lemma BlockWriterWritesPage(page: nat, data: seq<byte>)
    requires |data| == PAGE_SIZE
    ensures WritesPage(BlockWriter(page, data), page)
  {
    var w := BlockWriter(page, data);
    forall f, n: nat | Sized(f) && n < BLOCKS ensures WriteStep(f, page, n, w(f, n).0, w(f, n).1) {
      VendorWriteStep(f, page, n, Block(data, n));
    }
  }

  /** As long as no primitive leaves its block, the snapshot after the k-th write differs from the
      memory before the loop only in the first k + 1 blocks. */
  ghost predicate InBlockOrder(f: FlashState, g: FlashState, start: nat) {
    forall k :: |f.snaps| <= k < |g.snaps| ==> SameOutside(f.mem, g.snaps[k], start, start + BLOCK_SIZE * (k - |f.snaps| + 1))
  }

  lemma {:induction false} WriteLoopContract(w: Writer, page: nat, f: FlashState, n: nat, g: FlashState, failed: bool)
    requires WritesPage(w, page) && Sized(f) && WriteLoop(w, f, n) == (g, failed)
    ensures Sized(g) && Touched(f, g, page, page + PAGE_SIZE)
    ensures g.calls == f.calls
    ensures !failed && n < BLOCKS ==> InFlash(page, PAGE_SIZE)
    ensures !failed && n <= BLOCKS ==> |g.snaps| == |f.snaps| + (BLOCKS - n)
    decreases BLOCKS - n
  {
    if n < BLOCKS {
      var (h, stopped) := w(f, n);
      assert WriteStep(f, page, n, h, stopped);
      if !stopped {
        WriteLoopContract(w, page, h, n + 1, g, failed);
        TouchedTransitive(f, h, g, page, page + PAGE_SIZE);
      }
    }
  }

  /** The same, for a loop that begins with block `n` of the page. */
  ghost predicate OrderFrom(f: FlashState, g: FlashState, page: nat, n: nat) {
    InBlockOrder(f, g, page + BLOCK_SIZE * n)
  }

  lemma {:induction false} WriteLoopInOrder(w: Writer, page: nat, f: FlashState, n: nat, g: FlashState, failed: bool)
    requires WritesPage(w, page) && Sized(f) && WriteLoop(w, f, n) == (g, failed) && Confined(f.script)
    ensures OrderFrom(f, g, page, n)
    decreases BLOCKS - n
  {
    if n < BLOCKS {
      var (h, stopped) := w(f, n);
      assert WriteStep(f, page, n, h, stopped);
      if !stopped {
        LoopBegins(f, page, n, h);
        WriteLoopInOrder(w, page, h, n + 1, g, failed);
        WriteLoopContract(w, page, h, n + 1, g, failed);
        BlockEarlier(f, h, g, page, n);
      } else {
        StoppedInOrder(f, page, n, h);
      }
    }
  }

  lemma StoppedInOrder(f: FlashState, page: nat, n: nat, h: FlashState)
    requires WriteStep(f, page, n, h, true) && Confined(f.script)
    ensures OrderFrom(f, h, page, n)
  {
  }

  lemma BlockEarlier(f: FlashState, h: FlashState, g: FlashState, page: nat, n: nat)
    requires Touched(f, h, page + BLOCK_SIZE * n, page + BLOCK_SIZE * n + BLOCK_SIZE)
    requires |h.snaps| == |f.snaps| + 1 && h.snaps <= g.snaps
    requires OrderFrom(h, g, page, n + 1)
    ensures OrderFrom(f, g, page, n)
  {
    OneBlockEarlier(f, h, g, page + BLOCK_SIZE * n);
  }

  lemma LoopBegins(f: FlashState, page: nat, n: nat, h: FlashState)
    requires WriteStep(f, page, n, h, false) && Confined(f.script)
    ensures Confined(h.script) && |h.snaps| == |f.snaps| + 1
    ensures Touched(f, h, page + BLOCK_SIZE * n, page + BLOCK_SIZE * n + BLOCK_SIZE)
  {
  }

  lemma OneBlockEarlier(f: FlashState, h: FlashState, g: FlashState, start: nat)
    requires Touched(f, h, start, start + BLOCK_SIZE) && |h.snaps| == |f.snaps| + 1 && h.snaps <= g.snaps
    requires InBlockOrder(h, g, start + BLOCK_SIZE)
    ensures InBlockOrder(f, g, start)
  {
    forall k | |f.snaps| <= k < |g.snaps|
      ensures SameOutside(f.mem, g.snaps[k], start, start + BLOCK_SIZE * (k - |f.snaps| + 1))
    {
      if k == |f.snaps| {
        assert g.snaps[k] == h.snaps[k];
      } else {
        assert SameOutside(h.mem, g.snaps[k], start + BLOCK_SIZE, start + BLOCK_SIZE + BLOCK_SIZE * (k - |h.snaps| + 1));
      }
    }
  }

  /** A healthy write: exactly the data, in one go. */
  ghost predicate WroteBlock(f: FlashState, at: nat, data: seq<byte>, g: FlashState) {
    && at + |data| <= |f.mem|
    && AllNominal(g.script) && g.mem == Splice(f.mem, at, data) && g.snaps == f.snaps + [g.mem]
  }

  lemma WriteNominal(f: FlashState, page: nat, n: nat, data: seq<byte>)
    requires Sized(f) && |data| == BLOCK_SIZE && n < BLOCKS
    requires AllNominal(f.script) && InFlash(page, PAGE_SIZE)
    requires forall j :: page + BLOCK_SIZE * n <= j < page + BLOCK_SIZE * n + BLOCK_SIZE ==> f.mem[j] == ERASED
    ensures var (g, failed) := VendorWrite(f, page, n, data); !failed && WroteBlock(f, page + BLOCK_SIZE * n, data, g)
  {
    TailKeeps(f.script);
    var at := page + BLOCK_SIZE * n;
    var held := f.mem[at..at + BLOCK_SIZE];
    forall j | 0 <= j < BLOCK_SIZE ensures ClearBits(held, data)[j] == data[j] {
      AndErased(data[j]);
    }
    assert ClearBits(held, data) == data;
  }

  /** On a blank page a healthy controller writes exactly the data. */
  ghost predicate WritesData(w: Writer, page: nat, data: seq<byte>)
    requires |data| == PAGE_SIZE
  {
    forall f, n: nat {:trigger w(f, n)} :: Sized(f) && n < BLOCKS && AllNominal(f.script) && BlankFrom(f.mem, page, n) ==>
      w(f, n).1 == false && WroteBlock(f, page + BLOCK_SIZE * n, Block(data, n), w(f, n).0)
  }

  /** The page is in the flash and blank from block `n` on. */
  ghost predicate BlankFrom(mem: seq<byte>, page: nat, n: nat) {
    && InFlash(page, PAGE_SIZE) && |mem| == FLASH_END
    && forall j :: page + BLOCK_SIZE * n <= j < page + PAGE_SIZE ==> mem[j] == ERASED
  }

  lemma BlockWriterWritesData(page: nat, data: seq<byte>)
    requires |data| == PAGE_SIZE
    ensures WritesData(BlockWriter(page, data), page, data)
  {
    var w := BlockWriter(page, data);
    forall f, n: nat {:trigger w(f, n)} | Sized(f) && n < BLOCKS && AllNominal(f.script) && BlankFrom(f.mem, page, n)
      ensures w(f, n).1 == false && WroteBlock(f, page + BLOCK_SIZE * n, Block(data, n), w(f, n).0)
    {
      WriteNominal(f, page, n, Block(data, n));
    }
  }

  lemma BlankBehind(f: FlashState, page: nat, n: nat, block: seq<byte>, h: FlashState)
    requires |block| == BLOCK_SIZE && BlankFrom(f.mem, page, n) && n < BLOCKS
    requires WroteBlock(f, page + BLOCK_SIZE * n, block, h)
    ensures BlankFrom(h.mem, page, n + 1)
  {
  }

  lemma {:induction false} WriteLoopNominal(w: Writer, page: nat, data: seq<byte>, f: FlashState, n: nat)
    requires |data| == PAGE_SIZE && n <= BLOCKS && WritesData(w, page, data)
    requires Sized(f) && AllNominal(f.script) && BlankFrom(f.mem, page, n)
    ensures var (g, failed) := WriteLoop(w, f, n);
      !failed && g.mem == Splice(f.mem, page + BLOCK_SIZE * n, data[BLOCK_SIZE * n..])
    decreases BLOCKS - n
  {
    var i := BLOCK_SIZE * n;
    if n == BLOCKS {
      assert f.mem == Splice(f.mem, page + i, data[i..]);
    } else {
      var h := w(f, n).0;
      assert w(f, n).1 == false && WroteBlock(f, page + i, Block(data, n), h);
      BlankBehind(f, page, n, Block(data, n), h);
      WriteLoopNominal(w, page, data, h, n + 1);
      SpliceTwo(f.mem, page + i, Block(data, n), data[i + BLOCK_SIZE..]);
      assert Block(data, n) + data[i + BLOCK_SIZE..] == data[i..];
    }
  }

  /** Memory after `n` blocks have been written. */
  function Written(mem: seq<byte>, page: nat, data: seq<byte>, n: nat): (r: seq<byte>)
    requires |data| == PAGE_SIZE && n <= BLOCKS && page + PAGE_SIZE <= |mem|
    ensures |r| == |mem|
  {
    Splice(mem, page, data[..BLOCK_SIZE * n])
  }

  /** The snapshots from the `from`-th on are those of a write loop that begins with block `n`. */
  ghost predicate BlockByBlock(snaps: seq<seq<byte>>, from: nat, mem: seq<byte>, page: nat, data: seq<byte>, n: nat)
    requires |data| == PAGE_SIZE && n <= BLOCKS && page + PAGE_SIZE <= |mem|
  {
    && |snaps| == from + (BLOCKS - n)
    && forall k :: from <= k < |snaps| ==> snaps[k] == Written(mem, page, data, n + (k - from) + 1)
  }

  /** What every crash point of a healthy write loop looks like, exactly. */
  lemma {:induction false} WriteLoopSnaps(w: Writer, page: nat, data: seq<byte>, mem: seq<byte>, f: FlashState, n: nat)
    requires |data| == PAGE_SIZE && n <= BLOCKS && WritesData(w, page, data)
    requires Sized(f) && AllNominal(f.script) && BlankFrom(f.mem, page, n)
    requires |mem| == FLASH_END && f.mem == Written(mem, page, data, n)
    ensures f.snaps <= WriteLoop(w, f, n).0.snaps
    ensures BlockByBlock(WriteLoop(w, f, n).0.snaps, |f.snaps|, mem, page, data, n)
    decreases BLOCKS - n
  {
    if n < BLOCKS {
      var h := w(f, n).0;
      NextBlock(mem, page, data, n);
      WriteLoopSnaps(w, page, data, mem, h, n + 1);
    }
  }

  lemma NextBlock(mem: seq<byte>, page: nat, data: seq<byte>, n: nat)
    requires |data| == PAGE_SIZE && n < BLOCKS && page + PAGE_SIZE <= |mem|
    ensures Splice(Written(mem, page, data, n), page + BLOCK_SIZE * n, Block(data, n)) == Written(mem, page, data, n + 1)
  {
    SpliceTwo(mem, page, data[..BLOCK_SIZE * n], Block(data, n));
    assert data[..BLOCK_SIZE * n] + Block(data, n) == data[..BLOCK_SIZE * (n + 1)];
  }

  /** The crash points of a healthy program call on a blank page. */
  lemma ProgramSnaps(f: FlashState, address: nat, data: seq<byte>)
    requires Sized(f) && |data| == PAGE_SIZE && AllNominal(f.script)
    requires InFlash(PageOf(address), PAGE_SIZE) && BlankPage(f.mem, PageOf(address))
    ensures var g := Program(f, address, data).0;
      f.snaps <= g.snaps && BlockByBlock(g.snaps, |f.snaps|, f.mem, PageOf(address), data, 0)
  {
    var page := PageOf(address);
    var f1 := Logged(f, ProgramCall(page, Held(f.mem, page)));
    BlockWriterWritesData(page, data);
    assert f.mem == Written(f.mem, page, data, 0);
    WriteLoopSnaps(BlockWriter(page, data), page, data, f.mem, f1, 0);
  }

  /** A program that returns success has left exactly the data in the page, whatever the controller
      did; no program touches another page; and blocks are written in order. */
  lemma ProgramContract(f: FlashState, address: nat, data: seq<byte>, g: FlashState, status: Status)
    requires Sized(f) && |data| == PAGE_SIZE && Program(f, address, data) == (g, status)
    ensures var page := PageOf(address);
      && Touched(f, g, page, page + PAGE_SIZE)
      && g.calls == f.calls + [ProgramCall(page, Held(f.mem, page))]
      && (status == OK ==> InFlash(page, PAGE_SIZE) && g.mem == Splice(f.mem, page, data))
      && (status == OK ==> |g.snaps| == |f.snaps| + BLOCKS)
      && status in {OK, ErrorProgram, ErrorVerify}
      && (Confined(f.script) ==> InBlockOrder(f, g, page))
  {
    var page := PageOf(address);
    BlockWriterWritesPage(page, data);
    ProgramWith(BlockWriter(page, data), f, Logged(f, ProgramCall(page, Held(f.mem, page))), page, data, g, status);
  }

  lemma ProgramWith(w: Writer, f: FlashState, f1: FlashState, page: nat, data: seq<byte>, g: FlashState, status: Status)
    requires Sized(f) && |data| == PAGE_SIZE && WritesPage(w, page)
    requires f1 == Logged(f, ProgramCall(page, Held(f.mem, page)))
    requires Verified(WriteLoop(w, f1, 0), page, data) == (g, status)
    ensures Touched(f, g, page, page + PAGE_SIZE)
    ensures g.calls == f1.calls
    ensures status == OK ==> InFlash(page, PAGE_SIZE) && g.mem == Splice(f.mem, page, data)
    ensures status == OK ==> |g.snaps| == |f.snaps| + BLOCKS
    ensures status in {OK, ErrorProgram, ErrorVerify}
    ensures Confined(f.script) ==> InBlockOrder(f, g, page)
  {
    var failed := WriteLoop(w, f1, 0).1;
    WriteLoopContract(w, page, f1, 0, g, failed);
    if status == OK {
      FromReadBack(f.mem, g.mem, page, data);
    }
    if Confined(f.script) {
      WriteLoopInOrder(w, page, f1, 0, g, failed);
      assert InBlockOrder(f1, g, page);
    }
  }

  lemma FromReadBack(before: seq<byte>, after: seq<byte>, page: nat, data: seq<byte>)
    requires |data| == PAGE_SIZE && page + PAGE_SIZE <= |before|
    requires SameOutside(before, after, page, page + PAGE_SIZE) && after[page..page + PAGE_SIZE] == data
    ensures after == Splice(before, page, data)
  {
    assert forall j :: page <= j < page + PAGE_SIZE ==> after[j] == after[page..page + PAGE_SIZE][j - page];
  }

  /** Programming a blank page fails only when the hardware does. */
  lemma ProgramBlankSucceeds(f: FlashState, address: nat, data: seq<byte>)
    requires Sized(f) && |data| == PAGE_SIZE
    requires AllNominal(f.script) && InFlash(PageOf(address), PAGE_SIZE) && BlankPage(f.mem, PageOf(address))
    ensures Program(f, address, data).1 == OK
  {
    var page := PageOf(address);
    BlockWriterWritesData(page, data);
    WriteLoopNominal(BlockWriter(page, data), page, data, Logged(f, ProgramCall(page, Held(f.mem, page))), 0);
    assert data[0..] == data;
    assert Splice(f.mem, page, data)[page..page + PAGE_SIZE] == data;
  }

  // ---------- Which error ----------

  /** Programming a byte leaves the bits that were set and are set in the data. */
  lemma AndAsBits(x: byte, y: byte)
    ensures And(x, y) as bv8 == x as bv8 & y as bv8
  {
    AndRoundTrip(x as bv8 & y as bv8);
  }

  lemma AndRoundTrip(b: bv8)
    ensures (b as byte) as bv8 == b
  {
  }

  /** An erase reports which half of it went wrong: the controller, or the read-back. */
  lemma EraseStatus(f: FlashState, address: nat)
    requires Sized(f)
    ensures var (g, status), page := Erase(f, address), PageOf(address);
      && (status == ErrorErase <==> !InFlash(page, PAGE_SIZE) || Head(f.script).fails)
      && (status == ErrorCheckErased <==> InFlash(page, PAGE_SIZE) && !Head(f.script).fails && !BlankPage(g.mem, page))
  {
  }

  /** One of the next `n` primitives fails. */
  predicate FailsWithin(script: seq<Primitive>, n: nat) {
    exists i :: 0 <= i < n && i < |script| && script[i].fails
  }

  ghost predicate FollowsScript(w: Writer) {
    forall f, n: nat {:trigger w(f, n)} :: Sized(f) && n < BLOCKS ==>
      && Sized(w(f, n).0) && w(f, n).0.script == Tail(f.script) && w(f, n).1 == Head(f.script).fails
      && |w(f, n).0.snaps| == |f.snaps| + 1
  }

  /** How many of the next `n` primitives are run when the first failure stops the rest. */
  function RunBefore(script: seq<Primitive>, n: nat): nat
    decreases n, script
  {
    if n == 0 then 0 else if Head(script).fails then 1 else 1 + RunBefore(Tail(script), n - 1)
  }

  lemma TailFails(script: seq<Primitive>, n: nat)
    ensures FailsWithin(script, n + 1) <==> Head(script).fails || FailsWithin(Tail(script), n)
  {
    if FailsWithin(Tail(script), n) {
      var i :| 0 <= i < n && i < |Tail(script)| && Tail(script)[i].fails;
      assert script[i + 1].fails;
    }
    if FailsWithin(script, n + 1) {
      var i :| 0 <= i < n + 1 && i < |script| && script[i].fails;
      if i > 0 {
        assert Tail(script)[i - 1].fails;
      }
    }
    if script != [] && script[0].fails {
      assert 0 < n + 1;
    }
  }

  lemma {:induction false} WriteLoopFails(w: Writer, f: FlashState, n: nat)
    requires FollowsScript(w) && Sized(f) && n <= BLOCKS
    ensures WriteLoop(w, f, n).1 <==> FailsWithin(f.script, BLOCKS - n)
    ensures |WriteLoop(w, f, n).0.snaps| == |f.snaps| + RunBefore(f.script, BLOCKS - n)
    decreases BLOCKS - n
  {
    if n < BLOCKS {
      TailFails(f.script, BLOCKS - n - 1);
      if !w(f, n).1 {
        WriteLoopFails(w, w(f, n).0, n + 1);
      }
    }
  }

  lemma BlockWriterFollows(page: nat, data: seq<byte>)
    requires |data| == PAGE_SIZE && InFlash(page, PAGE_SIZE)
    ensures FollowsScript(BlockWriter(page, data))
  {
  }

  lemma OutsideFails(w: Writer, f: FlashState)
    requires w(f, 0).1
    ensures WriteLoop(w, f, 0).1
  {
  }

  /** A program, too: a failed write, which ends it, or a read-back that differs. */
  lemma ProgramStatus(f: FlashState, address: nat, data: seq<byte>)
    requires Sized(f) && |data| == PAGE_SIZE
    ensures var (g, status), page := Program(f, address, data), PageOf(address);
      && (status == ErrorProgram <==> !InFlash(page, PAGE_SIZE) || FailsWithin(f.script, BLOCKS))
      && (status == ErrorVerify <==> InFlash(page, PAGE_SIZE) && !FailsWithin(f.script, BLOCKS) && Held(g.mem, page) != data)
      && (InFlash(page, PAGE_SIZE) ==> |g.snaps| == |f.snaps| + RunBefore(f.script, BLOCKS))
  {
    var page := PageOf(address);
    var w, f1 := BlockWriter(page, data), Logged(f, ProgramCall(page, Held(f.mem, page)));
    if InFlash(page, PAGE_SIZE) {
      BlockWriterFollows(page, data);
      WriteLoopFails(w, f1, 0);
    } else {
      OutsideFails(w, f1);
    }
  }

  // ---------- The driver as seen by the engine ----------

  /** The two driver entry points. The engine is stated over any driver, and proved for every driver
      that meets the contracts below; the driver above does. */
  datatype Driver = Driver(
    erase: (FlashState, nat) -> (FlashState, Status),
    program: (FlashState, nat, seq<byte>) -> (FlashState, Status))
  {
    ghost predicate Sane() {
      && (forall f, at: nat {:trigger erase(f, at)} :: Sized(f) ==> Sized(erase(f, at).0))
      && (forall f, at: nat, data {:trigger program(f, at, data)} ::
            Sized(f) && |data| == PAGE_SIZE ==> Sized(program(f, at, data).0))
    }

    /** Success is proof: an erase that reports success left the page blank, a program that reports
        success left the data, and both left every other page alone. */
    ghost predicate Honest() {
      && Sane()
      && (forall f, at: nat {:trigger erase(f, at)} ::
            Sized(f) && Aligned(at) ==> Erased(f, at, erase(f, at).0, erase(f, at).1))
      && (forall f, at: nat, data {:trigger program(f, at, data)} ::
            Sized(f) && Aligned(at) && |data| == PAGE_SIZE && BlankPage(f.mem, at)
            ==> Programmed(f, at, data, program(f, at, data).0, program(f, at, data).1))
    }
  }

  ghost predicate Erased(before: FlashState, at: nat, f: FlashState, status: Status) {
    && Sized(f)
    && f.calls == before.calls + [EraseCall(at)]
    && (status == OK ==>
          InFlash(at, PAGE_SIZE) && |before.mem| == FLASH_END && f.mem == Splice(before.mem, at, Blank(PAGE_SIZE)))
  }

  ghost predicate Programmed(before: FlashState, at: nat, data: seq<byte>, g: FlashState, status: Status) {
    && Sized(g) && |data| == PAGE_SIZE
    && g.calls == before.calls + [ProgramCall(at, Blank(PAGE_SIZE))]
    && (status == OK ==>
          InFlash(at, PAGE_SIZE) && |before.mem| == FLASH_END && g.mem == Splice(before.mem, at, data))
  }

  const FLASH: Driver := Driver(
    (f: FlashState, at: nat) => if Sized(f) then Erase(f, at) else (f, ErrorErase),
    (f: FlashState, at: nat, data: seq<byte>) => if Sized(f) && |data| == PAGE_SIZE then Program(f, at, data) else (f, ErrorProgram))

  lemma FlashIsSane()
    ensures FLASH.Sane()
  {
  }

  lemma FlashErases(f: FlashState, at: nat)
    requires Sized(f) && Aligned(at)
    ensures Erased(f, at, Erase(f, at).0, Erase(f, at).1)
  {
    var (g, status) := Erase(f, at);
    PageOfAligned(at);
    EraseContract(f, at, g, status);
  }

  lemma FlashPrograms(f: FlashState, at: nat, data: seq<byte>)
    requires Sized(f) && Aligned(at) && |data| == PAGE_SIZE && BlankPage(f.mem, at)
    ensures Programmed(f, at, data, Program(f, at, data).0, Program(f, at, data).1)
  {
    var (g, status) := Program(f, at, data);
    PageOfAligned(at);
    ProgramContract(f, at, data, g, status);
    assert Held(f.mem, at) == Blank(PAGE_SIZE);
  }

  lemma FlashIsHonest()
    ensures FLASH.Honest()
  {
    FlashIsSane();
    forall f, at: nat {:trigger FLASH.erase(f, at)} | Sized(f) && Aligned(at)
      ensures Erased(f, at, FLASH.erase(f, at).0, FLASH.erase(f, at).1)
    {
      FlashErases(f, at);
    }
    forall f, at: nat, data {:trigger FLASH.program(f, at, data)}
      | Sized(f) && Aligned(at) && |data| == PAGE_SIZE && BlankPage(f.mem, at)
      ensures Programmed(f, at, data, FLASH.program(f, at, data).0, FLASH.program(f, at, data).1)
    {
      FlashPrograms(f, at, data);
    }
  }
}
