/** The two engines side by side: what the download engine makes of the DATA stream the upload
    engine sends, the two places where the upload departs from RFC 1350, and a corrected upload
    (RFC 1350 sections 2 and 6) with the properties the as-written one lacks. */
module Transfer {
  import opened Wrappers
  import opened Bytes
  import opened Protocol
  import opened Packets
  import opened Upload
  import opened Download

  /** The DATA datagrams of a lossless exchange from block `first` on: block first + k carries
      chunk k. */
  function DataFrom(chunks: seq<seq<byte>>, first: int): (ds: seq<seq<byte>>)
    requires 1 <= first && first - 1 + |chunks| <= 32767
    ensures |ds| == |chunks|
  {
    seq(|chunks|, k requires 0 <= k < |chunks| => EncodeData(first + k, chunks[k]).value)
  }

  /** The DATA datagrams of a lossless exchange: block k + 1 carries chunk k. */
  function DataStream(chunks: seq<seq<byte>>): (ds: seq<seq<byte>>)
    requires |chunks| <= 32767
    ensures |ds| == |chunks|
    ensures forall k :: 0 <= k < |chunks| ==> ds[k] == EncodeData(k + 1, chunks[k]).value
  {
    DataFrom(chunks, 1)
  }

  /** The replies of a peer that acknowledges every DATA it is sent, in lock-step from block
      `first` on. */
  function AcksFrom(first: int, n: nat): (rs: seq<Reply>)
    requires 1 <= first && first - 1 + n <= 32767
    ensures |rs| == n
  {
    seq(n, k requires 0 <= k < n => Datagram(EncodeAck(first + k).value))
  }

  /** The replies of a peer that acknowledges every DATA it is sent, in lock-step from block 1. */
  function LockStepAcks(n: nat): (rs: seq<Reply>)
    requires n <= 32767
    ensures |rs| == n
    ensures forall k :: 0 <= k < n ==> rs[k] == Datagram(EncodeAck(k + 1).value)
  {
    AcksFrom(1, n)
  }

  /** Both lock-step streams are their first element followed by the streams from the next block. */
  lemma LockStepCons(chunks: seq<seq<byte>>, first: int)
    requires 1 <= first && first - 1 + |chunks| <= 32767 && 0 < |chunks|
    ensures DataFrom(chunks, first) == [EncodeData(first, chunks[0]).value] + DataFrom(chunks[1..], first + 1)
    ensures AcksFrom(first, |chunks|) == [Datagram(EncodeAck(first).value)] + AcksFrom(first + 1, |chunks| - 1)
  {
    var ds := DataFrom(chunks, first);
    var ds' := [EncodeData(first, chunks[0]).value] + DataFrom(chunks[1..], first + 1);
    forall k | 0 <= k < |chunks|
      ensures ds[k] == ds'[k]
    {
      if k > 0 {
        assert chunks[1..][k - 1] == chunks[k];
      }
    }
    var rs := AcksFrom(first, |chunks|);
    var rs' := [Datagram(EncodeAck(first).value)] + AcksFrom(first + 1, |chunks| - 1);
    forall k | 0 <= k < |chunks|
      ensures rs[k] == rs'[k]
    {
    }
  }

  /** RFC 1350 section 6 chunking: 512-byte blocks and then one block shorter than 512 bytes,
      empty when the size is a multiple of 512, which tells the receiver the transfer is over. */
  function RfcChunks(file: seq<byte>): (cs: seq<seq<byte>>)
    ensures |cs| == |file| / BLOCK_SIZE + 1
    ensures forall i :: 0 <= i < |cs| - 1 ==> |cs[i]| == BLOCK_SIZE
    ensures |cs[|cs| - 1]| < BLOCK_SIZE
    ensures Concat(cs) == file
    decreases |file|
  {
    if |file| < BLOCK_SIZE then
      assert Concat([file]) == file + Concat([]);
      [file]
    else
      var rest := RfcChunks(file[BLOCK_SIZE..]);
      var cs := [file[..BLOCK_SIZE]] + rest;
      assert cs[1..] == rest;
      assert file == file[..BLOCK_SIZE] + file[BLOCK_SIZE..];
      cs
  }

  /** The as-written chunking agrees with RFC 1350 except that it never sends the final short
      block when the size is a multiple of 512: then that block is the missing empty one. */
  lemma {:induction false} ChunksMissFinalEmptyBlock(file: seq<byte>)
    ensures |file| % BLOCK_SIZE != 0 ==> Chunks(file) == RfcChunks(file)
    ensures |file| % BLOCK_SIZE == 0 ==> Chunks(file) + [[]] == RfcChunks(file)
    decreases |file|
  {
    if |file| > BLOCK_SIZE {
      var rest := file[BLOCK_SIZE..];
      ChunksMissFinalEmptyBlock(rest);
      BlockRemainder(|file|);
      ChunkingCons(file);
    } else if |file| == BLOCK_SIZE {
      assert file[BLOCK_SIZE..] == [];
      assert RfcChunks(file) == [file[..BLOCK_SIZE]] + RfcChunks([]);
      assert file[..BLOCK_SIZE] == file;
    }
  }

  /** Removing one block leaves the size's remainder modulo 512 unchanged. */
  lemma BlockRemainder(n: int)
    requires n >= BLOCK_SIZE
    ensures n % BLOCK_SIZE == (n - BLOCK_SIZE) % BLOCK_SIZE
  {
  }

  /** Past the first block both chunkings peel off the same first block. */
  lemma ChunkingCons(file: seq<byte>)
    requires |file| > BLOCK_SIZE
    ensures Chunks(file) == [file[..BLOCK_SIZE]] + Chunks(file[BLOCK_SIZE..])
    ensures RfcChunks(file) == [file[..BLOCK_SIZE]] + RfcChunks(file[BLOCK_SIZE..])
  {
  }

  /** The download state after blocks 1..j of a lossless stream have been accepted. */
  function AfterBlocks(cs: seq<seq<byte>>, j: nat): GetState
    requires j <= |cs|
  {
    GetState(j + 1, Concat(cs[..j]), if j == 0 then None else Some(cs[j - 1]))
  }

  /** The download engine accepts a lossless DATA stream block by block: given full blocks up to
      a last one, it writes every payload once, in order, and ACKs each block. If the last block
      is short the download completes after consuming the whole stream; if it is full the loop is
      left waiting for more. */
  lemma {:induction false} DownloadOfStream(cs: seq<seq<byte>>, j: nat)
    requires 0 < |cs| <= 32767 && j < |cs|
    requires forall i :: 0 <= i < |cs| - 1 ==> |cs[i]| == BLOCK_SIZE
    requires |cs[|cs| - 1]| <= BLOCK_SIZE
    ensures var r := GetLoop(AfterBlocks(cs, j), DataStream(cs), j);
      && r.state.written == Concat(cs)
      && r.consumed == |cs|
      && (r.outcome == Downloaded <==> |cs[|cs| - 1]| < BLOCK_SIZE)
      && (r.outcome == Downloaded || r.outcome == AwaitingDatagram)
    decreases |cs| - j
  {
    StreamStep(cs, j);
    if j + 1 < |cs| {
      DownloadOfStream(cs, j + 1);
    } else {
      assert cs[..j + 1] == cs;
    }
  }

  /** One DATA of a lossless stream: the download engine accepts it, moves to the next block and
      stops, with the download complete, exactly when the block is short. */
  lemma StreamStep(cs: seq<seq<byte>>, j: nat)
    requires 0 < |cs| <= 32767 && j < |cs| && |cs[j]| <= BLOCK_SIZE
    ensures var step := Step(AfterBlocks(cs, j), Classify(DataStream(cs)[j]));
      && step.state == AfterBlocks(cs, j + 1)
      && (step.stop.None? <==> |cs[j]| == BLOCK_SIZE)
      && (step.stop.Some? ==> step.stop.value == Downloaded)
  {
    var ds := DataStream(cs);
    var s := AfterBlocks(cs, j);
    DataRoundTrip(j + 1, cs[j]);
    assert Received(ds[j]) == ds[j];
    assert Classify(ds[j]) == DataIn(j + 1, cs[j]);
    StepRules(s, Classify(ds[j]));
    assert cs[..j + 1] == cs[..j] + [cs[j]];
    ConcatSnoc(cs[..j], cs[j]);
  }

  /** The corrected upload loop: block k + 1 carries chunk k, and every reply other than the
      matching ACK (a timeout, a stray ACK) makes the same DATA go out again. One DATA goes out
      per reply awaited. */
  function RetransmitLoop(chunks: seq<seq<byte>>, replies: seq<Reply>, i: nat, k: nat): (r: PutRun)
    requires k <= |chunks| && i <= |replies|
    ensures |r.sent| <= |replies| - i + 1
    decreases |replies| - i
  {
    if k == |chunks| then PutRun([], Uploaded, k + 1)
    else match EncodeData(k + 1, chunks[k])
      case Failure(_) => PutRun([], BlockPackFailed(k + 1), k + 1)
      case Success(packet) =>
        if i == |replies| then PutRun([packet], RepliesExhausted, k + 1)
        else
          var rest := RetransmitLoop(chunks, replies, i + 1, NextBlock(k + 1, replies[i]) - 1);
          PutRun([packet] + rest.sent, rest.outcome, rest.block)
  }

  /** One round of the corrected loop: the DATA of block k + 1 goes out and the reply to it decides,
      by the same counter rule as the source, whether the next round moves on or repeats. */
  lemma RetransmitRound(chunks: seq<seq<byte>>, replies: seq<Reply>, i: nat, k: nat)
    requires k < |chunks| && k + 1 <= 32767 && i < |replies|
    ensures var rest := RetransmitLoop(chunks, replies, i + 1, NextBlock(k + 1, replies[i]) - 1);
      RetransmitLoop(chunks, replies, i, k)
        == PutRun([EncodeData(k + 1, chunks[k]).value] + rest.sent, rest.outcome, rest.block)
  {
  }

  /** The header and payload a DATA of an in-range block decodes to. */
  lemma DataFields(n: int, p: seq<byte>)
    requires 1 <= n <= 32767
    ensures EncodeData(n, p).Success?
    ensures OpcodeField(EncodeData(n, p).value) == Code(DATA)
    ensures NumberField(EncodeData(n, p).value) == n
    ensures PayloadField(EncodeData(n, p).value) == p
  {
    DataRoundTrip(n, p);
  }

  /** The corrected upload of a whole file: RFC 1350 chunking, retransmission on timeout. */
  function PutCorrected(file: seq<byte>, replies: seq<Reply>): PutRun {
    RetransmitLoop(RfcChunks(file), replies, 0, 0)
  }

  /** Every DATA in `sent` carries the chunk its block number names. */
  predicate BlockNamesPayload(sent: seq<seq<byte>>, chunks: seq<seq<byte>>) {
    forall j :: 0 <= j < |sent| ==>
      && 1 <= NumberField(sent[j]) <= |chunks|
      && OpcodeField(sent[j]) == Code(DATA)
      && PayloadField(sent[j]) == chunks[NumberField(sent[j]) - 1]
  }

  /** After every reply other than the ACK of the DATA just sent, the same DATA is sent again. */
  predicate ResendsUnlessAcked(sent: seq<seq<byte>>, replies: seq<Reply>) {
    forall j :: 0 <= j < |replies| && j + 1 < |sent| ==>
      !IsMatchingAck(replies[j], NumberField(sent[j])) ==> sent[j + 1] == sent[j]
  }

  /** In the corrected upload a block number always names the same payload: every DATA sent
      under block b carries chunk b - 1. */
  lemma {:induction false} RetransmitBlockNamesPayload(chunks: seq<seq<byte>>, replies: seq<Reply>, i: nat, k: nat)
    requires k <= |chunks| && i <= |replies|
    ensures BlockNamesPayload(RetransmitLoop(chunks, replies, i, k).sent, chunks)
    decreases |replies| - i
  {
    if k < |chunks| && k + 1 <= 32767 && i < |replies| {
      RetransmitBlockNamesPayload(chunks, replies, i + 1, NextBlock(k + 1, replies[i]) - 1);
      NamesPayloadStep(chunks, replies, i, k);
    } else if k < |chunks| && k + 1 <= 32767 {
      DataFields(k + 1, chunks[k]);
      NamesPayloadCons(EncodeData(k + 1, chunks[k]).value, [], chunks);
      assert [EncodeData(k + 1, chunks[k]).value] + [] == RetransmitLoop(chunks, replies, i, k).sent;
    }
  }

  /** The inductive step of `RetransmitBlockNamesPayload`. */
  lemma NamesPayloadStep(chunks: seq<seq<byte>>, replies: seq<Reply>, i: nat, k: nat)
    requires k < |chunks| && k + 1 <= 32767 && i < |replies|
    requires BlockNamesPayload(RetransmitLoop(chunks, replies, i + 1, NextBlock(k + 1, replies[i]) - 1).sent, chunks)
    ensures BlockNamesPayload(RetransmitLoop(chunks, replies, i, k).sent, chunks)
  {
    DataFields(k + 1, chunks[k]);
    RetransmitRound(chunks, replies, i, k);
    var k' := NextBlock(k + 1, replies[i]) - 1;
    NamesPayloadCons(EncodeData(k + 1, chunks[k]).value, RetransmitLoop(chunks, replies, i + 1, k').sent, chunks);
  }

  /** Prepending a DATA that carries the chunk its block names keeps `BlockNamesPayload`. */
  lemma NamesPayloadCons(packet: seq<byte>, rest: seq<seq<byte>>, chunks: seq<seq<byte>>)
    requires 1 <= NumberField(packet) <= |chunks| && OpcodeField(packet) == Code(DATA)
    requires PayloadField(packet) == chunks[NumberField(packet) - 1]
    requires BlockNamesPayload(rest, chunks)
    ensures BlockNamesPayload([packet] + rest, chunks)
  {
    var sent := [packet] + rest;
    forall j | 0 <= j < |sent|
      ensures 1 <= NumberField(sent[j]) <= |chunks|
      ensures PayloadField(sent[j]) == chunks[NumberField(sent[j]) - 1]
      ensures OpcodeField(sent[j]) == Code(DATA)
    {
      if j > 0 {
        assert sent[j] == rest[j - 1];
      }
    }
  }

  /** The first DATA a corrected loop sends, when it sends one, is that of block k + 1. */
  lemma RetransmitFirst(chunks: seq<seq<byte>>, replies: seq<Reply>, i: nat, k: nat)
    requires k <= |chunks| && i <= |replies|
    ensures var r := RetransmitLoop(chunks, replies, i, k);
      |r.sent| > 0 ==> k < |chunks| && r.sent[0] == EncodeData(k + 1, chunks[k]).value
  {
  }

  /** In the corrected upload a reply other than the matching ACK (a timeout, a stray or old ACK)
      is followed by the very same DATA again, as section 2 of RFC 1350 asks. */
  lemma {:induction false} RetransmitResends(chunks: seq<seq<byte>>, replies: seq<Reply>, i: nat, k: nat)
    requires k <= |chunks| && i <= |replies|
    ensures ResendsUnlessAcked(RetransmitLoop(chunks, replies, i, k).sent, replies[i..])
    decreases |replies| - i
  {
    if k < |chunks| && k + 1 <= 32767 && i < |replies| {
      RetransmitResends(chunks, replies, i + 1, NextBlock(k + 1, replies[i]) - 1);
      ResendsStep(chunks, replies, i, k);
    } else if k < |chunks| && k + 1 <= 32767 {
      assert |RetransmitLoop(chunks, replies, i, k).sent| <= 1;
    }
  }

  /** The inductive step of `RetransmitResends`. */
  lemma ResendsStep(chunks: seq<seq<byte>>, replies: seq<Reply>, i: nat, k: nat)
    requires k < |chunks| && k + 1 <= 32767 && i < |replies|
    requires ResendsUnlessAcked(RetransmitLoop(chunks, replies, i + 1, NextBlock(k + 1, replies[i]) - 1).sent, replies[i + 1..])
    ensures ResendsUnlessAcked(RetransmitLoop(chunks, replies, i, k).sent, replies[i..])
  {
    var packet := EncodeData(k + 1, chunks[k]).value;
    DataFields(k + 1, chunks[k]);
    var k' := NextBlock(k + 1, replies[i]) - 1;
    RetransmitRound(chunks, replies, i, k);
    RetransmitFirst(chunks, replies, i + 1, k');
    assert replies[i..] == [replies[i]] + replies[i + 1..];
    ResendsCons(packet, RetransmitLoop(chunks, replies, i + 1, k').sent, replies[i], replies[i + 1..]);
  }

  /** Prepending a DATA and the reply to it keeps `ResendsUnlessAcked` when, unless that reply
      is the matching ACK, the next DATA is the same one. */
  lemma ResendsCons(packet: seq<byte>, rest: seq<seq<byte>>, reply: Reply, replies: seq<Reply>)
    requires ResendsUnlessAcked(rest, replies)
    requires !IsMatchingAck(reply, NumberField(packet)) && 0 < |rest| ==> rest[0] == packet
    ensures ResendsUnlessAcked([packet] + rest, [reply] + replies)
  {
    var sent := [packet] + rest;
    var rs := [reply] + replies;
    forall j | 0 <= j < |rs| && j + 1 < |sent|
      ensures !IsMatchingAck(rs[j], NumberField(sent[j])) ==> sent[j + 1] == sent[j]
    {
      if j > 0 {
        assert sent[j] == rest[j - 1] && sent[j + 1] == rest[j] && rs[j] == replies[j - 1];
      }
    }
  }

  /** With a peer that acknowledges every DATA, the corrected upload sends exactly the lossless
      stream of its chunks and completes. */
  lemma {:induction false} RetransmitLockStep(chunks: seq<seq<byte>>, replies: seq<Reply>, k: nat)
    requires k <= |chunks| <= 32767
    requires |replies| == |chunks|
    requires forall j :: 0 <= j < |replies| ==> replies[j] == Datagram(EncodeAck(j + 1).value)
    ensures RetransmitLoop(chunks, replies, k, k).outcome == Uploaded
    ensures RetransmitLoop(chunks, replies, k, k).sent == DataStream(chunks)[k..]
    decreases |chunks| - k
  {
    if k < |chunks| {
      AckAdvancesCounter(k + 1, k + 1);
      RetransmitRound(chunks, replies, k, k);
      RetransmitLockStep(chunks, replies, k + 1);
      StreamSuffixCons(chunks, k);
    }
  }

  /** The lossless stream from block k + 1 on is the DATA of block k + 1 followed by the rest. */
  lemma StreamSuffixCons(chunks: seq<seq<byte>>, k: nat)
    requires k < |chunks| <= 32767
    ensures DataStream(chunks)[k..] == [EncodeData(k + 1, chunks[k]).value] + DataStream(chunks)[k + 1..]
  {
  }

  /** With a peer that acknowledges every DATA, the as-written upload sends the DATA of blocks
      first, first + 1, ... carrying the chunks in order, and completes. */
  lemma {:induction false} PutLoopLockStep(chunks: seq<seq<byte>>, first: int)
    requires 1 <= first && first - 1 + |chunks| <= 32767
    ensures PutLoop(chunks, AcksFrom(first, |chunks|), first)
      == PutRun(DataFrom(chunks, first), Uploaded, first + |chunks|)
    decreases |chunks|
  {
    if 0 < |chunks| {
      var tail := chunks[1..];
      LockStepRound(chunks, first);
      LockStepCons(chunks, first);
      PutLoopLockStep(tail, first + 1);
      var rest := PutLoop(tail, AcksFrom(first + 1, |tail|), first + 1);
      assert rest == PutRun(DataFrom(tail, first + 1), Uploaded, first + 1 + |tail|);
    } else {
      assert DataFrom(chunks, first) == [];
    }
  }

  /** One lock-step round of the as-written upload: the DATA of block `first` goes out and its
      ACK moves the counter on to the next block. */
  lemma LockStepRound(chunks: seq<seq<byte>>, first: int)
    requires 1 <= first && first - 1 + |chunks| <= 32767 && 0 < |chunks|
    ensures var rest := PutLoop(chunks[1..], AcksFrom(first + 1, |chunks| - 1), first + 1);
      PutLoop(chunks, AcksFrom(first, |chunks|), first)
        == PutRun([EncodeData(first, chunks[0]).value] + rest.sent, rest.outcome, rest.block)
  {
    var acks := AcksFrom(first, |chunks|);
    LockStepCons(chunks, first);
    AckAdvancesCounter(first, first);
    assert NextBlock(first, acks[0]) == first + 1;
    assert acks[1..] == AcksFrom(first + 1, |chunks| - 1);
  }

  /** The as-written upload loop, answered in lock-step from block 1, sends the lossless stream. */
  lemma PutLockStep(cs: seq<seq<byte>>)
    requires |cs| <= 32767
    ensures PutLoop(cs, LockStepAcks(|cs|), 1).outcome == Uploaded
    ensures PutLoop(cs, LockStepAcks(|cs|), 1).sent == DataStream(cs)
  {
    PutLoopLockStep(cs, 1);
  }

  /** The download engine's verdict on a lossless stream of the as-written chunks: it completes
      exactly when the file size is not a multiple of 512. */
  lemma DownloadOfChunks(file: seq<byte>)
    requires 0 < |file| && |Chunks(file)| <= 32767
    ensures var r := GetLoop(Start, DataStream(Chunks(file)), 0);
      (r.outcome == Downloaded <==> |file| % BLOCK_SIZE != 0) && r.state.written == file
  {
    var cs := Chunks(file);
    ChunksMissFinalEmptyBlock(file);
    var rfc := RfcChunks(file);
    if |file| % BLOCK_SIZE == 0 {
      assert cs == rfc[..|rfc| - 1];
      assert |cs[|cs| - 1]| == BLOCK_SIZE;
    } else {
      assert |cs[|cs| - 1]| < BLOCK_SIZE;
    }
    DownloadOfStream(cs, 0);
    assert cs[..0] == [];
    assert AfterBlocks(cs, 0) == Start;
  }

  /** Finding, as written: even with a peer that acknowledges every DATA, what the upload sends
      lets a receiver following RFC 1350 (this client's own download engine) complete exactly
      when the file size is not a multiple of 512; for a 0-byte file nothing is sent at all, and
      for 512, 1024, ... bytes the last DATA is full and the receiver waits for a block that never
      comes. */
  lemma AsWrittenUploadCompletesOnlyOffBoundary(file: seq<byte>)
    requires |Chunks(file)| <= 32767
    ensures var cs := Chunks(file);
      var r := PutLoop(cs, LockStepAcks(|cs|), 1);
      && r.outcome == Uploaded
      && r.sent == DataStream(cs)
      && (GetLoop(Start, r.sent, 0).outcome == Downloaded <==> |file| % BLOCK_SIZE != 0)
  {
    PutLockStep(Chunks(file));
    if |file| > 0 {
      DownloadOfChunks(file);
    }
  }

  /** The chunks of the 513-byte file of 512 zero bytes followed by one byte 1. */
  lemma ChunksOfOddFile(zeros: seq<byte>)
    requires zeros == seq(BLOCK_SIZE, _ => 0)
    ensures Chunks(zeros + [1]) == [zeros, [1]]
  {
    var file := zeros + [1];
    assert file[..BLOCK_SIZE] == zeros && file[BLOCK_SIZE..] == [1];
    assert Chunks(file) == [file[..BLOCK_SIZE]] + Chunks(file[BLOCK_SIZE..]);
  }

  /** What the as-written upload sends for that file when the ACK of block 1 is lost. */
  lemma LostAckSends(zeros: seq<byte>)
    requires zeros == seq(BLOCK_SIZE, _ => 0)
    ensures PutLoop([zeros, [1]], [TimedOut, Datagram([0, 4, 0, 1])], 1).sent
      == [EncodeData(1, zeros).value, EncodeData(1, [1]).value]
    ensures PutLoop([zeros, [1]], [TimedOut, Datagram([0, 4, 0, 1])], 1).outcome == Uploaded
  {
    var cs := [zeros, [1]];
    var replies := [TimedOut, Datagram([0, 4, 0, 1])];
    assert cs[1..] == [[1]] && replies[1..] == [Datagram([0, 4, 0, 1])];
    assert NextBlock(1, TimedOut) == 1;
  }

  /** Finding, as written: a lost ACK makes the next chunk go out under the old block number.
      For the 513-byte file of 512 zero bytes and one byte 1, with the first ACK timing out, both
      DATA datagrams carry block 1 and the upload still reports success; a receiver following
      RFC 1350 (this client's download engine) keeps only the first and waits on with the last
      byte lost. */
  lemma AsWrittenLostAckSkipsChunk()
    ensures var file := seq(BLOCK_SIZE, _ => 0) + [1];
      var run := Put("f", file, [Datagram([0, 4, 0, 0]), TimedOut, Datagram([0, 4, 0, 1])]).run;
      var sent := run.sent;
      && run.outcome == Uploaded
      && |sent| == 2
      && NumberField(sent[0]) == 1 && NumberField(sent[1]) == 1
      && PayloadField(sent[0]) != PayloadField(sent[1])
      && GetLoop(Start, sent, 0).outcome == AwaitingDatagram
      && GetLoop(Start, sent, 0).state.written == seq(BLOCK_SIZE, _ => 0)
  {
    var zeros: seq<byte> := seq(BLOCK_SIZE, _ => 0);
    var replies := [Datagram([0, 4, 0, 0]), TimedOut, Datagram([0, 4, 0, 1])];
    ChunksOfOddFile(zeros);
    assert replies[1..] == [TimedOut, Datagram([0, 4, 0, 1])];
    LostAckSends(zeros);
    var sent := [EncodeData(1, zeros).value, EncodeData(1, [1]).value];
    assert Put("f", zeros + [1], replies).run.sent == sent;
    assert Put("f", zeros + [1], replies).run.outcome == Uploaded;
    DataRoundTrip(1, zeros);
    DataRoundTrip(1, [1]);
    assert zeros[0] == 0;
    LostAckDownload(zeros, sent);
  }

  /** How the download engine handles those two datagrams. */
  lemma LostAckDownload(zeros: seq<byte>, sent: seq<seq<byte>>)
    requires zeros == seq(BLOCK_SIZE, _ => 0)
    requires sent == [EncodeData(1, zeros).value, EncodeData(1, [1]).value]
    ensures GetLoop(Start, sent, 0).outcome == AwaitingDatagram
    ensures GetLoop(Start, sent, 0).state.written == zeros
  {
    DataRoundTrip(1, zeros);
    DataRoundTrip(1, [1]);
    assert Received(sent[0]) == sent[0] && Received(sent[1]) == sent[1];
    assert Classify(sent[0]) == DataIn(1, zeros);
    assert Classify(sent[1]) == DataIn(1, [1]);
    StepRules(Start, DataIn(1, zeros));
    var s1 := GetState(2, zeros, Some(zeros));
    assert Step(Start, DataIn(1, zeros)).state == s1;
    assert Step(Start, DataIn(1, zeros)).stop.None?;
    StepRules(s1, DataIn(1, [1]));
    assert Step(s1, DataIn(1, [1])) == GetStep(s1, Some(EncodeAck(1).value), false, None);
    assert GetLoop(s1, sent, 2).state == s1;
    assert GetLoop(s1, sent, 1).state == s1;
    assert GetLoop(Start, sent, 0).state == s1;
  }

  /** The corrected transfer delivers every file: the corrected upload, answered in lock-step,
      sends a DATA stream that this client's download engine completes, writing exactly the
      file, whatever its size, multiples of 512 and the empty file included. */
  lemma CorrectedTransferDeliversFile(file: seq<byte>)
    requires |file| < 32767 * BLOCK_SIZE
    ensures var n := |RfcChunks(file)|;
      var r := PutCorrected(file, LockStepAcks(n));
      && r.outcome == Uploaded
      && GetLoop(Start, r.sent, 0).outcome == Downloaded
      && GetLoop(Start, r.sent, 0).state.written == file
  {
    var cs := RfcChunks(file);
    RetransmitLockStep(cs, LockStepAcks(|cs|), 0);
    assert DataStream(cs)[0..] == DataStream(cs);
    DownloadOfStream(cs, 0);
    assert cs[..0] == [];
    assert AfterBlocks(cs, 0) == Start;
  }
}
