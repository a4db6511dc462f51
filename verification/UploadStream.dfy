/** An upload hands out the flash from the start of the bootloader, in order, once. */
module UploadStream {
  import opened Layout
  import opened DfuMachine

  function Min(a: nat, b: nat): nat {
    if a < b then a else b
  }

  function Sum(sizes: seq<uint16>): nat {
    if sizes == [] then 0 else sizes[0] + Sum(sizes[1..])
  }

  /** What the endpoint is given to send. */
  function Answer(m: Machine): seq<byte> {
    if m.transfer.Sending? && m.transfer.reply.FlashReply? then m.transfer.reply.bytes else []
  }

  /** One upload request and the completion of its transfer: the bytes sent, and the engine after. */
  type Exchange = (Machine, uint16) -> (seq<byte>, Machine)

  ghost const UPLOAD: Exchange :=
    (m: Machine, n: uint16) =>
      if Fitting(m) then
        var r := OnSetup(m, RequestUpload, n, true);
        (Answer(r), OnSendDone(r, true))
      else ([], m)

  /** What a host collects with requests of the given sizes. */
  ghost function Collected(x: Exchange, m: Machine, sizes: seq<uint16>): seq<byte>
    decreases |sizes|, m
  {
    if sizes == [] then [] else x(m, sizes[0]).0 + Collected(x, x(m, sizes[0]).1, sizes[1..])
  }

  ghost function AfterUploads(x: Exchange, m: Machine, sizes: seq<uint16>): Machine
    decreases |sizes|, m
  {
    if sizes == [] then m else AfterUploads(x, x(m, sizes[0]).1, sizes[1..])
  }

  /** Ready to send the flash `mem`, from `at` bytes in, up to `total`. */
  ghost predicate Midway(m: Machine, mem: seq<byte>, total: nat, at: nat) {
    && Fitting(m) && m.state == UploadIdle && m.flash.mem == mem
    && m.upload.totalLen == total && m.upload.transmitCount == at
  }

  /** What an upload of `total` bytes covers. */
  function Covered(mem: seq<byte>, total: nat): (r: seq<byte>)
    ensures |r| == total
    ensures BOOTLOADER_START + total <= |mem| ==> r == mem[BOOTLOADER_START..BOOTLOADER_START + total]
  {
    ReadBytes(mem, BOOTLOADER_START, total)
  }

  /** No request can carry the 32-bit counter of the source past its end. */
  predicate Countable(total: nat) {
    total + 0xFFFF < TWO_TO_THE_32
  }

  /** None of these requests does. */
  predicate Counted(total: nat, at: nat, sizes: seq<uint16>) {
    Countable(total) || at + Sum(sizes) < TWO_TO_THE_32
  }

  /** Each request that the counter has room for yields the next piece, cut at the end. */
  ghost predicate Streams(x: Exchange, mem: seq<byte>, total: nat) {
    forall m, n: uint16, at: nat {:trigger x(m, n), Midway(m, mem, total, at)} ::
      Midway(m, mem, total, at) && at <= total && at + n < TWO_TO_THE_32 ==>
      var to := Min(total, at + n);
      x(m, n).0 == Covered(mem, total)[at..to] && Midway(x(m, n).1, mem, total, to)
  }

  lemma ChunkIsPiece(m: Machine, n: uint16, mem: seq<byte>, total: nat, at: nat)
    requires Midway(m, mem, total, at) && at <= total && at + n < TWO_TO_THE_32
    ensures var to, r := Min(total, at + n), UploadChunk(m, n, true);
      Midway(r, mem, total, to) && r.transfer == Transfer.Sending(FlashReply(Covered(mem, total)[at..to]))
  {
    var to := Min(total, at + n);
    assert ReadBytes(mem, BOOTLOADER_START + at, to - at) == Covered(mem, total)[at..to];
  }

  lemma UploadRequest(m: Machine, n: uint16)
    requires Fitting(m) && m.state == UploadIdle
    ensures var q := m.(transfer := NoTransfer);
      OnSetup(m, RequestUpload, n, true) == if n > 0 then UploadChunk(q, n, true) else q
  {
  }

  lemma OneChunk(m: Machine, n: uint16, mem: seq<byte>, total: nat, at: nat)
    requires Midway(m, mem, total, at) && at <= total && at + n < TWO_TO_THE_32
    ensures var to, r := Min(total, at + n), OnSetup(m, RequestUpload, n, true);
      Answer(r) == Covered(mem, total)[at..to] && Midway(OnSendDone(r, true), mem, total, to)
  {
    UploadRequest(m, n);
    ChunkIsPiece(m.(transfer := NoTransfer), n, mem, total, at);
  }

  lemma UploadStreams(mem: seq<byte>, total: nat)
    ensures Streams(UPLOAD, mem, total)
  {
    forall m, n: uint16, at: nat {:trigger UPLOAD(m, n), Midway(m, mem, total, at)}
      | Midway(m, mem, total, at) && at <= total && at + n < TWO_TO_THE_32
      ensures var to := Min(total, at + n);
        UPLOAD(m, n).0 == Covered(mem, total)[at..to] && Midway(UPLOAD(m, n).1, mem, total, to)
    {
      OneChunk(m, n, mem, total, at);
    }
  }

  /** Whatever sizes are asked for, the pieces are the flash from where the upload stood, as far as
      asked, never past the end. */
  lemma {:induction false} ChunksAreFlash(x: Exchange, m: Machine, sizes: seq<uint16>, mem: seq<byte>, total: nat, at: nat)
    requires Streams(x, mem, total)
    requires Midway(m, mem, total, at) && at <= total && Counted(total, at, sizes)
    ensures var to := Min(total, at + Sum(sizes));
      && Collected(x, m, sizes) == Covered(mem, total)[at..to]
      && Midway(AfterUploads(x, m, sizes), mem, total, to)
    decreases |sizes|
  {
    if sizes != [] {
      var next, to := Min(total, at + sizes[0]), Min(total, at + Sum(sizes));
      assert x(m, sizes[0]).0 == Covered(mem, total)[at..next] && Midway(x(m, sizes[0]).1, mem, total, next);
      ChunksAreFlash(x, x(m, sizes[0]).1, sizes[1..], mem, total, next);
      JoinPieces(Covered(mem, total), at, next, to);
    }
  }

  lemma JoinPieces(s: seq<byte>, from: nat, middle: nat, to: nat)
    requires from <= middle <= to <= |s|
    ensures s[from..middle] + s[middle..to] == s[from..to]
  {
  }

  /** At the end of an upload a further request yields nothing, whatever its size, if and only if the
      32-bit counter has room for it; otherwise the source sends again. */
  lemma NothingAfterTheEnd(m: Machine, mem: seq<byte>, total: nat)
    requires Midway(m, mem, total, total)
    ensures (forall n: uint16 :: UPLOAD(m, n).0 == []) <==> Countable(total)
  {
    if Countable(total) {
      UploadStreams(mem, total);
    } else {
      var q := m.(transfer := NoTransfer);
      UploadRequest(m, 0xFFFF);
      assert Answer(UploadChunk(q, 0xFFFF, true)) == ReadBytes(mem, BOOTLOADER_START + total, 0xFFFF);
      assert |UPLOAD(m, 0xFFFF).0| == 0xFFFF;
    }
  }

  // ---------- A whole upload ----------

  lemma UploadBegins(m: Machine, n: uint16)
    requires Fitting(m) && m.state == Idle && n > 0
    ensures var total := UploadLength(m.flash.mem);
      OnSetup(m, RequestUpload, n, true)
      == UploadChunk(m.(transfer := NoTransfer, upload := Upload(0, total, 0), log := m.log.(uploaded := [])), n, true)
  {
  }

  /** An idle engine asked to upload behaves as one that has already announced its length. */
  lemma FirstChunk(m: Machine, n: uint16) returns (started: Machine)
    requires Fitting(m) && m.state == Idle && n > 0
    ensures Midway(started, m.flash.mem, UploadLength(m.flash.mem), 0) && UPLOAD(m, n) == UPLOAD(started, n)
  {
    UploadBegins(m, n);
    var announced := Upload(0, UploadLength(m.flash.mem), 0);
    var asked := m.(transfer := NoTransfer, upload := announced, log := m.log.(uploaded := []));
    started := Enter(asked, UploadIdle);
    UploadRequest(started, n);
    SameChunk(asked, n);
  }

  lemma SameChunk(m: Machine, n: uint16)
    requires Fitting(m)
    ensures UploadChunk(Enter(m, UploadIdle), n, true) == UploadChunk(m, n, true)
  {
  }

  /** A whole upload hands out the flash from the start of the bootloader up to the announced length,
      as far as the requests reach; asking again yields nothing. */
  lemma UploadIsFlash(m: Machine, sizes: seq<uint16>, more: uint16)
    requires Fitting(m) && m.state == Idle && sizes != [] && sizes[0] > 0
    requires Counted(UploadLength(m.flash.mem), 0, sizes)
    ensures var total := UploadLength(m.flash.mem);
      && Collected(UPLOAD, m, sizes) == Covered(m.flash.mem, total)[..Min(total, Sum(sizes))]
      && (Sum(sizes) >= total ==>
            && Collected(UPLOAD, m, sizes) == Covered(m.flash.mem, total)
            && (total + more < TWO_TO_THE_32 ==> UPLOAD(AfterUploads(UPLOAD, m, sizes), more).0 == []))
  {
    var started := FirstChunk(m, sizes[0]);
    UploadStreams(m.flash.mem, UploadLength(m.flash.mem));
    WholeUpload(UPLOAD, m, started, sizes, more, m.flash.mem, UploadLength(m.flash.mem));
  }

  lemma WholeUpload(x: Exchange, m: Machine, started: Machine, sizes: seq<uint16>, more: uint16, mem: seq<byte>, total: nat)
    requires Streams(x, mem, total) && Counted(total, 0, sizes)
    requires Midway(started, mem, total, 0) && sizes != [] && x(m, sizes[0]) == x(started, sizes[0])
    ensures Collected(x, m, sizes) == Covered(mem, total)[..Min(total, Sum(sizes))]
    ensures Sum(sizes) >= total ==>
      && Collected(x, m, sizes) == Covered(mem, total)
      && (total + more < TWO_TO_THE_32 ==> x(AfterUploads(x, m, sizes), more).0 == [])
  {
    ChunksAreFlash(x, started, sizes, mem, total, 0);
    SameStart(x, m, started, sizes);
  }

  lemma SameStart(x: Exchange, m: Machine, started: Machine, sizes: seq<uint16>)
    requires sizes != [] && x(m, sizes[0]) == x(started, sizes[0])
    ensures Collected(x, m, sizes) == Collected(x, started, sizes)
    ensures AfterUploads(x, m, sizes) == AfterUploads(x, started, sizes)
  {
  }
}
