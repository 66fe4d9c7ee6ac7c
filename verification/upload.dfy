/** The upload engine `tftp_put` (tftppp.py lines 42-82) as a pure fold: the file is cut into
    512-byte chunks, one DATA datagram goes out per chunk, and the reply to each DATA (an ACK
    datagram or a timeout) decides whether the block counter advances. */
module Upload {
  import opened Wrappers
  import opened Bytes
  import opened Struct
  import opened Protocol
  import opened Packets

  /** What one `sock.recvfrom(4)` under the 5-second socket timeout yields. */
  datatype Reply = Datagram(bytes: seq<byte>) | TimedOut

  /** The upload reads replies into a 4-byte buffer; longer datagrams are cut. */
  const ACK_BUFFER: nat := 4

  /** `int.from_bytes(ack[:2], 'big')` of the received (cut) reply. */
  function ReplyOpcode(d: seq<byte>): nat {
    FromBytesBE(Prefix(Prefix(d, ACK_BUFFER), 2))
  }

  /** `int.from_bytes(ack[2:], 'big')` of the received (cut) reply. */
  function ReplyBlock(d: seq<byte>): nat {
    FromBytesBE(Suffix(Prefix(d, ACK_BUFFER), 2))
  }

  /** The condition of line 73: an ACK opcode carrying the block number just sent. */
  predicate IsMatchingAck(reply: Reply, block: int) {
    reply.Datagram? && ReplyOpcode(reply.bytes) == Code(ACK) && ReplyBlock(reply.bytes) == block
  }

  /** The upload's readers agree with the codec's on every datagram, whatever its length: the
      4-byte cut changes neither the opcode field nor the number field. */
  lemma ReplyReadersAgree(d: seq<byte>)
    ensures ReplyOpcode(d) == OpcodeField(d)
    ensures ReplyBlock(d) == NumberField(d)
  {
    assert Prefix(Prefix(d, ACK_BUFFER), 2) == Prefix(d, 2);
    assert Suffix(Prefix(d, ACK_BUFFER), 2) == Slice(d, 2, 4);
  }

  /** The block counter after one reply: it rises only on the matching ACK. */
  function NextBlock(block: int, reply: Reply): int {
    if IsMatchingAck(reply, block) then block + 1 else block
  }

  /** The counter rule of lines 73-79 read through the codec's field readers: the counter rises
      by one exactly when the reply is a datagram whose opcode field is ACK and whose number
      field is the current block; a timeout or any other datagram leaves it where it is. */
  lemma NextBlockRule(block: int, reply: Reply)
    ensures NextBlock(block, reply) == if reply.Datagram? && OpcodeField(reply.bytes) == Code(ACK)
                                          && NumberField(reply.bytes) == block
                                       then block + 1 else block
  {
    if reply.Datagram? {
      ReplyReadersAgree(reply.bytes);
    }
  }

  /** The counter after a run of replies, starting from `block`. */
  function CounterAfter(replies: seq<Reply>, block: int): (r: int)
    ensures block <= r <= block + |replies|
    decreases |replies|
  {
    if |replies| == 0 then block else CounterAfter(replies[1..], NextBlock(block, replies[0]))
  }

  /** The counter after the first k replies is the counter after the first reply, carried on
      through the next k - 1. */
  lemma CounterAfterCons(replies: seq<Reply>, k: nat, block: int)
    requires 1 <= k <= |replies|
    ensures CounterAfter(replies[..k], block) == CounterAfter(replies[1..][..k - 1], NextBlock(block, replies[0]))
  {
    assert replies[..k][1..] == replies[1..][..k - 1];
    assert replies[..k][0] == replies[0];
  }

  /** `file.read(BLOCK_SIZE)` repeated until it returns nothing: every chunk is non-empty and at
      most 512 bytes, all but the last are full, there are ceil(|file| / 512) of them, and they
      concatenate back to the file. An empty file has no chunks at all. */
  function Chunks(file: seq<byte>): (cs: seq<seq<byte>>)
    ensures |cs| == (|file| + BLOCK_SIZE - 1) / BLOCK_SIZE
    ensures forall i :: 0 <= i < |cs| ==> 0 < |cs[i]| <= BLOCK_SIZE
    ensures forall i :: 0 <= i < |cs| - 1 ==> |cs[i]| == BLOCK_SIZE
    ensures Concat(cs) == file
    decreases |file|
  {
    if |file| == 0 then []
    else if |file| <= BLOCK_SIZE then
      assert Concat([file]) == file + Concat([]);
      [file]
    else
      var rest := Chunks(file[BLOCK_SIZE..]);
      var cs := [file[..BLOCK_SIZE]] + rest;
      assert cs[1..] == rest;
      assert file == file[..BLOCK_SIZE] + file[BLOCK_SIZE..];
      cs
  }

  /** How the upload ends. `NoWrqReply` is the uncaught timeout on the WRQ reply (line 47),
      `BlockPackFailed` the `struct.error` the DATA builder raises past block 32767 (line 62);
      `RepliesExhausted` means the modelled reply sequence ran out while a reply was awaited. */
  datatype PutOutcome = Uploaded | NoWrqReply | BlockPackFailed(block: int) | RepliesExhausted

  /** The DATA datagrams sent, in order, how the loop ended, and the final block counter. */
  datatype PutRun = PutRun(sent: seq<seq<byte>>, outcome: PutOutcome, block: int)

  /** The `while True` loop of `tftp_put` (lines 53-79): for each chunk, pack and send a DATA
      under the current counter, then consume one reply. A timeout or a mismatched ACK leaves
      the counter alone and the loop moves on to the next chunk anyway. */
  function PutLoop(chunks: seq<seq<byte>>, replies: seq<Reply>, block: int): (r: PutRun)
    ensures |r.sent| <= |chunks|
    ensures block <= r.block <= block + |r.sent|
    ensures r.outcome.Uploaded? ==> |r.sent| == |chunks| <= |replies|
    ensures r.outcome.RepliesExhausted? ==> |r.sent| == |replies| + 1 <= |chunks|
    ensures r.outcome.BlockPackFailed? ==> !InShortRange(r.outcome.block) && r.outcome.block == r.block
    ensures !r.outcome.NoWrqReply?
    decreases |chunks|
  {
    if |chunks| == 0 then PutRun([], Uploaded, block)
    else match EncodeData(block, chunks[0])
      case Failure(_) => PutRun([], BlockPackFailed(block), block)
      case Success(packet) =>
        if |replies| == 0 then PutRun([packet], RepliesExhausted, block)
        else
          var rest := PutLoop(chunks[1..], replies[1..], NextBlock(block, replies[0]));
          PutRun([packet] + rest.sent, rest.outcome, rest.block)
  }

  /** One upload session: the WRQ, the reply to it (whose contents are ignored; only its arrival
      matters), then the chunk loop from block 1. */
  datatype PutSession = PutSession(request: seq<byte>, run: PutRun)

  function Put(filename: string, file: seq<byte>, replies: seq<Reply>): (s: PutSession)
    ensures s.request == EncodeRequest(Write, filename, DEFAULT_TRANSFER_MODE)
    ensures |replies| == 0 ==> s.run.outcome.RepliesExhausted? && s.run.sent == []
    ensures |replies| > 0 && replies[0].TimedOut? ==> s.run.outcome.NoWrqReply? && s.run.sent == []
    ensures |s.run.sent| <= (|file| + BLOCK_SIZE - 1) / BLOCK_SIZE
    ensures |file| == 0 ==> s.run.sent == []
  {
    var request := EncodeRequest(Write, filename, DEFAULT_TRANSFER_MODE);
    if |replies| == 0 then PutSession(request, PutRun([], RepliesExhausted, 1))
    else if replies[0].TimedOut? then PutSession(request, PutRun([], NoWrqReply, 1))
    else PutSession(request, PutLoop(Chunks(file), replies[1..], 1))
  }

  /** The payloads `d[4:]` of a sequence of DATA datagrams. */
  function Payloads(sent: seq<seq<byte>>): (ps: seq<seq<byte>>)
    ensures |ps| == |sent|
    ensures forall k :: 0 <= k < |sent| ==> ps[k] == PayloadField(sent[k])
  {
    seq(|sent|, k requires 0 <= k < |sent| => PayloadField(sent[k]))
  }

  /** The k-th DATA datagram carries opcode 3, the k-th chunk, and the counter as it stood after
      the first k replies, that is 1 plus the matching ACKs among them. */
  lemma {:induction false} PutLoopPackets(chunks: seq<seq<byte>>, replies: seq<Reply>, block: int)
    requires 0 <= block
    ensures var r := PutLoop(chunks, replies, block);
      forall k :: 0 <= k < |r.sent| ==>
        && k <= |replies|
        && |r.sent[k]| == 4 + |chunks[k]|
        && OpcodeField(r.sent[k]) == Code(DATA)
        && NumberField(r.sent[k]) == CounterAfter(replies[..k], block)
        && PayloadField(r.sent[k]) == chunks[k]
    decreases |chunks|
  {
    var r := PutLoop(chunks, replies, block);
    if |chunks| > 0 && EncodeData(block, chunks[0]).Success? {
      DataRoundTrip(block, chunks[0]);
      assert replies[..0] == [];
      if |replies| > 0 {
        var next := NextBlock(block, replies[0]);
        var rest := PutLoop(chunks[1..], replies[1..], next);
        PutLoopPackets(chunks[1..], replies[1..], next);
        assert r.sent == [EncodeData(block, chunks[0]).value] + rest.sent;
        SentChunksCons(EncodeData(block, chunks[0]).value, rest.sent, chunks, replies, block);
      }
    }
  }

  /** One more DATA in front: if `packet` is the DATA of the first chunk under `block` and the
      rest were sent as the later chunks under the counters after the later replies, then together
      they carry every chunk under the counter after the replies before it. */
  lemma SentChunksCons(packet: seq<byte>, sent: seq<seq<byte>>, chunks: seq<seq<byte>>,
                       replies: seq<Reply>, block: int)
    requires |chunks| > 0 && |replies| > 0 && |sent| < |chunks|
    requires |packet| == 4 + |chunks[0]| && OpcodeField(packet) == Code(DATA)
    requires NumberField(packet) == block && PayloadField(packet) == chunks[0]
    requires forall k :: 0 <= k < |sent| ==>
        && k <= |replies[1..]|
        && |sent[k]| == 4 + |chunks[1..][k]|
        && OpcodeField(sent[k]) == Code(DATA)
        && NumberField(sent[k]) == CounterAfter(replies[1..][..k], NextBlock(block, replies[0]))
        && PayloadField(sent[k]) == chunks[1..][k]
    ensures |sent| <= |replies|
    ensures forall k :: 0 <= k < |[packet] + sent| ==>
        && k <= |replies|
        && |([packet] + sent)[k]| == 4 + |chunks[k]|
        && OpcodeField(([packet] + sent)[k]) == Code(DATA)
        && NumberField(([packet] + sent)[k]) == CounterAfter(replies[..k], block)
        && PayloadField(([packet] + sent)[k]) == chunks[k]
  {
    assert replies[..0] == [];
    if |sent| > 0 {
      assert PayloadField(sent[|sent| - 1]) == chunks[1..][|sent| - 1];
    }
    assert |sent| <= |replies|;
    forall k | 0 <= k < |[packet] + sent|
      ensures && k <= |replies|
              && |([packet] + sent)[k]| == 4 + |chunks[k]|
              && OpcodeField(([packet] + sent)[k]) == Code(DATA)
              && NumberField(([packet] + sent)[k]) == CounterAfter(replies[..k], block)
              && PayloadField(([packet] + sent)[k]) == chunks[k]
    {
      if k == 0 {
        assert ([packet] + sent)[0] == packet;
        assert CounterAfter(replies[..0], block) == block;
      } else {
        assert ([packet] + sent)[k] == sent[k - 1];
        assert chunks[1..][k - 1] == chunks[k];
        CounterAfterCons(replies, k, block);
      }
    }
  }


  /** With at least one reply per chunk and every counter value within the signed 16-bit range,
      the loop sends exactly one DATA per chunk and completes. */
  lemma {:induction false} PutLoopSendsEveryChunk(chunks: seq<seq<byte>>, replies: seq<Reply>, block: int)
    requires 1 <= block && block + |chunks| <= 32768
    requires |replies| >= |chunks|
    ensures PutLoop(chunks, replies, block).outcome == Uploaded
    ensures |PutLoop(chunks, replies, block).sent| == |chunks|
    decreases |chunks|
  {
    if |chunks| > 0 {
      PutLoopSendsEveryChunk(chunks[1..], replies[1..], NextBlock(block, replies[0]));
    }
  }

  /** Upload chunking: for a file of S bytes (below 32768 blocks) whose WRQ is answered and whose
      every DATA gets some reply, the upload sends exactly ceil(S / 512) DATA datagrams whatever
      the replies say; their payloads are non-empty, at most 512 bytes, and concatenate in order
      to the file. */
  lemma PutSendsWholeFile(filename: string, file: seq<byte>, replies: seq<Reply>)
    requires |file| <= 32767 * BLOCK_SIZE
    requires |replies| > (|file| + BLOCK_SIZE - 1) / BLOCK_SIZE
    requires replies[0].Datagram?
    ensures var r := Put(filename, file, replies).run;
      && r.outcome == Uploaded
      && |r.sent| == (|file| + BLOCK_SIZE - 1) / BLOCK_SIZE
      && (forall k :: 0 <= k < |r.sent| ==> 0 < |PayloadField(r.sent[k])| <= BLOCK_SIZE)
      && Concat(Payloads(r.sent)) == file
  {
    var cs := Chunks(file);
    PutLoopSendsEveryChunk(cs, replies[1..], 1);
    PutLoopPackets(cs, replies[1..], 1);
    var r := Put(filename, file, replies).run;
    assert Payloads(r.sent) == cs;
  }

  /** A well-formed ACK datagram advances the counter exactly when it acknowledges the block
      just sent; a timeout never does. */
  lemma AckAdvancesCounter(block: int, n: int)
    requires 0 <= n <= 32767
    ensures NextBlock(block, Datagram(EncodeAck(n).value)) == if n == block then block + 1 else block
    ensures NextBlock(block, TimedOut) == block
  {
    AckRoundTrip(n);
    var d := EncodeAck(n).value;
    assert Prefix(d, ACK_BUFFER) == d;
    assert Prefix(d, 2) == d[..2];
    assert Suffix(d, 2) == Slice(d, 2, 4);
  }

  /** Upload block counter in lock-step: when every DATA is answered by the ACK of the block it
      carried, the k-th DATA carries block k + 1. */
  lemma {:induction false} CounterLockStep(replies: seq<Reply>, block: int)
    requires 0 <= block && block + |replies| <= 32768
    requires forall k :: 0 <= k < |replies| ==> replies[k] == Datagram(EncodeAck(block + k).value)
    ensures CounterAfter(replies, block) == block + |replies|
    decreases |replies|
  {
    if |replies| > 0 {
      AckAdvancesCounter(block, block);
      CounterLockStep(replies[1..], block + 1);
    }
  }

  /** Without retransmission, a peer that never answers sees every DATA under the same block. */
  lemma {:induction false} CounterAllTimeouts(replies: seq<Reply>, block: int)
    requires forall k :: 0 <= k < |replies| ==> replies[k] == TimedOut
    ensures CounterAfter(replies, block) == block
    decreases |replies|
  {
    if |replies| > 0 {
      CounterAllTimeouts(replies[1..], block);
    }
  }
}
