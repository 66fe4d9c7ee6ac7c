/** The download engine, the top-level `get` branch of tftppp.py (lines 103-139), as a step
    function on the receiver state folded over the datagrams the server sends. */
module Download {
  import opened Wrappers
  import opened Bytes
  import opened Protocol
  import opened Packets

  /** The download reads datagrams into a 516-byte buffer (4 header bytes plus one block). */
  const DATA_BUFFER: nat := 516

  /** `sock.recvfrom(516)`: what is left of a datagram after the receive buffer cuts it. */
  function Received(datagram: seq<byte>): (d: seq<byte>)
    ensures |d| <= DATA_BUFFER
  {
    Prefix(datagram, DATA_BUFFER)
  }

  /** The receiver's variables: `expected_block_number`, the bytes written to the local file,
      and `file_block`, the payload most recently accepted (unbound until the first one). */
  datatype GetState = GetState(expected: int, written: seq<byte>, lastAccepted: Option<seq<byte>>)

  /** The state right after the RRQ is sent and the local file is opened for writing. */
  const Start: GetState := GetState(1, [], None)

  /** How the download ends. `ServerError` prints the table message; `UnknownErrorCode` is the
      `KeyError` of a code outside 0..7; `UnknownOpcode` is the silent `break`; `NoBlockAccepted`
      is the `NameError` of testing the length of a `file_block` never bound; `AckPackFailed` is
      the `struct.error` of acknowledging a block above 32767; `AwaitingDatagram` means the
      modelled datagram sequence ran out while the loop still waited. */
  datatype GetOutcome =
    | Downloaded
    | ServerError(code: nat, message: string)
    | UnknownErrorCode(code: nat)
    | UnknownOpcode(opcode: nat)
    | NoBlockAccepted
    | AckPackFailed(block: nat)
    | AwaitingDatagram

  /** A received datagram as the loop reads it: the opcode decides the branch, and the DATA
      branch reads the block number and payload, the ERROR branch the error code. */
  datatype Incoming = DataIn(block: nat, payload: seq<byte>) | ErrorIn(code: nat) | OtherIn(opcode: nat)

  /** Lines 113-118 and 129: the fields of the datagram after the receive buffer has cut it. */
  function Classify(datagram: seq<byte>): (m: Incoming)
    ensures m.DataIn? <==> OpcodeField(Received(datagram)) == Code(DATA)
    ensures m.ErrorIn? <==> OpcodeField(Received(datagram)) == Code(ERROR)
    ensures m.DataIn? ==>
      m.block == NumberField(Received(datagram)) && m.payload == PayloadField(Received(datagram))
    ensures m.DataIn? ==> |m.payload| <= BLOCK_SIZE
    ensures m.ErrorIn? ==> m.code == NumberField(Received(datagram))
    ensures m.OtherIn? ==> m.opcode == OpcodeField(Received(datagram))
  {
    var d := Received(datagram);
    var opcode := OpcodeField(d);
    if opcode == Code(DATA) then DataIn(NumberField(d), PayloadField(d))
    else if opcode == Code(ERROR) then ErrorIn(NumberField(d))
    else OtherIn(opcode)
  }
  /** The dispatch of lines 117, 128 and 133 read through the reverse `OPCODE` lookup: a datagram
      is taken as DATA or ERROR exactly when its opcode names that kind, and every other value,
      a code of RRQ, WRQ or ACK as much as one outside 1..5, falls to the final `break`. */
  lemma ClassifyByOpcode(datagram: seq<byte>)
    ensures var kind := OpcodeOf(OpcodeField(Received(datagram)));
      && (Classify(datagram).DataIn? <==> kind == Some(DATA))
      && (Classify(datagram).ErrorIn? <==> kind == Some(ERROR))
      && (Classify(datagram).OtherIn? <==> kind != Some(DATA) && kind != Some(ERROR))
  {
    var c := OpcodeField(Received(datagram));
    if OpcodeOf(c).Some? {
      CodeRoundTrip(OpcodeOf(c).value, c);
    }
  }


  /** The effect of one loop iteration: the new state, the ACK sent (if any), whether the
      payload was accepted and written, and the outcome when the loop ends here. */
  datatype GetStep = GetStep(state: GetState, ack: Option<seq<byte>>, accepted: bool, stop: Option<GetOutcome>)

  /** The test of line 136, read from `file_block` whatever the iteration did with it: the loop
      ends once the last accepted payload is shorter than a block. Before any block has been
      accepted `file_block` is unbound and the test raises `NameError`, which also ends it. */
  function EndCheck(last: Option<seq<byte>>): (r: Option<GetOutcome>)
    ensures r.Some? <==> last.None? || |last.value| < BLOCK_SIZE
    ensures r == Some(Downloaded) <==> last.Some? && |last.value| < BLOCK_SIZE
  {
    match last
    case None => Some(NoBlockAccepted)
    case Some(p) => if |p| < BLOCK_SIZE then Some(Downloaded) else None
  }

  /** One iteration of the receive loop (lines 117-139) on a classified datagram. */
  function Step(s: GetState, m: Incoming): (r: GetStep)
    ensures r.accepted ==>
      m.DataIn? && m.block == s.expected
      && r.state == GetState(s.expected + 1, s.written + m.payload, Some(m.payload))
    ensures !r.accepted ==> r.state == s
  {
    match m
    case DataIn(block, payload) =>
      (match EncodeAck(block)
       case Failure(_) => GetStep(s, None, false, Some(AckPackFailed(block)))
       case Success(ack) =>
         if block == s.expected then
           var s' := GetState(s.expected + 1, s.written + payload, Some(payload));
           GetStep(s', Some(ack), true, EndCheck(s'.lastAccepted))
         else
           GetStep(s, Some(ack), false, EndCheck(s.lastAccepted)))
    case ErrorIn(code) =>
      (match ErrorMessage(code)
       case Some(message) => GetStep(s, None, false, Some(ServerError(code, message)))
       case None => GetStep(s, None, false, Some(UnknownErrorCode(code))))
    case OtherIn(opcode) =>
      GetStep(s, None, false, Some(UnknownOpcode(opcode)))
  }

  /** The rules of one receive-loop iteration, by datagram kind.
      DATA numbered within the signed 16-bit range: exactly one ACK, carrying the DATA's own
      number; the payload is written and the expected number advanced exactly when the block is
      the expected one; the loop then ends exactly when `file_block` is unbound or shorter than
      512 bytes. DATA numbered above 32767: the ACK builder raises before anything is written.
      ERROR: the table message of the code (or the `KeyError` outside 0..7), with nothing written
      or acknowledged. Any other opcode: a silent stop with nothing written or acknowledged. */
  lemma StepRules(s: GetState, m: Incoming)
    ensures var r := Step(s, m);
      m.DataIn? && m.block <= 32767 ==>
        && r.ack == Some(EncodeAck(m.block).value)
        && OpcodeField(r.ack.value) == Code(ACK)
        && NumberField(r.ack.value) == m.block
        && (r.accepted <==> m.block == s.expected)
        && (r.accepted ==>
              r.state == GetState(s.expected + 1, s.written + m.payload, Some(m.payload)))
        && (!r.accepted ==> r.state == s)
        && (r.stop.Some? <==>
              r.state.lastAccepted.None? || |r.state.lastAccepted.value| < BLOCK_SIZE)
        && (r.stop.Some? ==> r.stop == EndCheck(r.state.lastAccepted))
    ensures var r := Step(s, m);
      m.DataIn? && m.block > 32767 ==>
        r == GetStep(s, None, false, Some(AckPackFailed(m.block)))
    ensures var r := Step(s, m);
      m.ErrorIn? ==>
        && r.state == s && r.ack.None? && !r.accepted
        && (m.code <= 7 ==> r.stop == Some(ServerError(m.code, ErrorMessage(m.code).value)))
        && (m.code > 7 ==> r.stop == Some(UnknownErrorCode(m.code)))
    ensures var r := Step(s, m);
      m.OtherIn? ==> r == GetStep(s, None, false, Some(UnknownOpcode(m.opcode)))
  {
    if m.DataIn? && m.block <= 32767 {
      AckRoundTrip(m.block);
    }
  }

  /** The ACKs sent, the positions (in the datagram sequence) of the DATA whose payloads were
      written, how many datagrams were consumed, and how the loop ended. */
  datatype GetRun = GetRun(state: GetState, acks: seq<seq<byte>>, accepted: seq<nat>, consumed: nat, outcome: GetOutcome)

  /** The `while True` loop, from datagram `i` on. */
  function GetLoop(s: GetState, ds: seq<seq<byte>>, i: nat): (r: GetRun)
    requires i <= |ds|
    ensures i <= r.consumed <= |ds|
    ensures r.outcome.AwaitingDatagram? ==> r.consumed == |ds|
    ensures |r.acks| <= r.consumed - i
    ensures |r.accepted| == r.state.expected - s.expected
    decreases |ds| - i
  {
    if i == |ds| then GetRun(s, [], [], i, AwaitingDatagram)
    else
      var step := Step(s, Classify(ds[i]));
      var acks := if step.ack.Some? then [step.ack.value] else [];
      var took := if step.accepted then [i] else [];
      if step.stop.Some? then
        GetRun(step.state, acks, took, i + 1, step.stop.value)
      else
        var rest := GetLoop(step.state, ds, i + 1);
        GetRun(rest.state, acks + rest.acks, took + rest.accepted, rest.consumed, rest.outcome)
  }

  /** One download session: the RRQ, then the receive loop from the start state. */
  datatype GetSession = GetSession(request: seq<byte>, run: GetRun)

  function Get(filename: string, datagrams: seq<seq<byte>>): (g: GetSession)
    ensures g.request == EncodeRequest(Read, filename, DEFAULT_TRANSFER_MODE)
    ensures |datagrams| == 0 ==> g.run.outcome == AwaitingDatagram && g.run.state.written == []
    ensures g.run.state.expected == 1 + |g.run.accepted|
  {
    GetSession(EncodeRequest(Read, filename, DEFAULT_TRANSFER_MODE), GetLoop(Start, datagrams, 0))
  }

  /** The payloads (as the download reads them) of the datagrams at the given positions. */
  function PayloadsAt(ds: seq<seq<byte>>, positions: seq<nat>): (ps: seq<seq<byte>>)
    requires forall k :: 0 <= k < |positions| ==> positions[k] < |ds|
    ensures |ps| == |positions|
  {
    seq(|positions|, k requires 0 <= k < |positions| => PayloadField(Received(ds[positions[k]])))
  }

  lemma ConcatPayloadsCons(ds: seq<seq<byte>>, i: nat, positions: seq<nat>)
    requires i < |ds|
    requires forall k :: 0 <= k < |positions| ==> positions[k] < |ds|
    ensures Concat(PayloadsAt(ds, [i] + positions))
            == PayloadField(Received(ds[i])) + Concat(PayloadsAt(ds, positions))
  {
    assert PayloadsAt(ds, [i] + positions)[1..] == PayloadsAt(ds, positions);
  }

  /** The accepted positions of a run lie in the consumed range, strictly increasing. */
  predicate PositionsWithin(positions: seq<nat>, lo: nat, hi: nat) {
    && (forall k :: 0 <= k < |positions| ==> lo <= positions[k] < hi)
    && (forall k, l :: 0 <= k < l < |positions| ==> positions[k] < positions[l])
  }

  /** The datagrams at the accepted positions are DATA numbered first, first + 1, ... */
  predicate NumberedFrom(ds: seq<seq<byte>>, positions: seq<nat>, first: int)
    requires forall k :: 0 <= k < |positions| ==> positions[k] < |ds|
  {
    forall k :: 0 <= k < |positions| ==>
      Classify(ds[positions[k]]).DataIn? && Classify(ds[positions[k]]).block == first + k
  }

  lemma PositionsCons(i: nat, rest: seq<nat>, hi: nat)
    requires i < hi
    requires PositionsWithin(rest, i + 1, hi)
    ensures PositionsWithin([i] + rest, i, hi)
  {
    var ps := [i] + rest;
    forall k, l | 0 <= k < l < |ps|
      ensures ps[k] < ps[l]
    {
      assert ps[l] == rest[l - 1];
      if k > 0 {
        assert ps[k] == rest[k - 1];
      }
    }
  }

  /** Where a run accepted datagrams: at increasing positions within the consumed range. */
  lemma {:induction false} GetLoopAcceptedPositions(s: GetState, ds: seq<seq<byte>>, i: nat)
    requires i <= |ds|
    ensures PositionsWithin(GetLoop(s, ds, i).accepted, i, GetLoop(s, ds, i).consumed)
    decreases |ds| - i
  {
    if i < |ds| {
      var step := Step(s, Classify(ds[i]));
      var r := GetLoop(s, ds, i);
      if step.stop.None? {
        GetLoopAcceptedPositions(step.state, ds, i + 1);
        var rest := GetLoop(step.state, ds, i + 1);
        if step.accepted {
          assert r.accepted == [i] + rest.accepted;
          PositionsCons(i, rest.accepted, r.consumed);
        } else {
          assert r.accepted == rest.accepted;
        }
      } else {
        assert r.accepted == if step.accepted then [i] else [];
      }
    }
  }

  lemma NumberedCons(ds: seq<seq<byte>>, i: nat, rest: seq<nat>, first: int)
    requires i < |ds|
    requires forall k :: 0 <= k < |rest| ==> rest[k] < |ds|
    requires Classify(ds[i]).DataIn? && Classify(ds[i]).block == first
    requires NumberedFrom(ds, rest, first + 1)
    ensures NumberedFrom(ds, [i] + rest, first)
  {
    var ps := [i] + rest;
    forall k | 1 <= k < |ps|
      ensures Classify(ds[ps[k]]).DataIn? && Classify(ds[ps[k]]).block == first + k
    {
      assert ps[k] == rest[k - 1];
    }
  }

  /** What a run accepted: DATA datagrams numbered expected, expected + 1, ... */
  lemma {:induction false} GetLoopAcceptedNumbers(s: GetState, ds: seq<seq<byte>>, i: nat)
    requires i <= |ds|
    ensures PositionsWithin(GetLoop(s, ds, i).accepted, i, GetLoop(s, ds, i).consumed)
    ensures NumberedFrom(ds, GetLoop(s, ds, i).accepted, s.expected)
    decreases |ds| - i
  {
    GetLoopAcceptedPositions(s, ds, i);
    if i < |ds| {
      var step := Step(s, Classify(ds[i]));
      var r := GetLoop(s, ds, i);
      if step.stop.None? {
        GetLoopAcceptedNumbers(step.state, ds, i + 1);
        var rest := GetLoop(step.state, ds, i + 1);
        if step.accepted {
          assert r.accepted == [i] + rest.accepted;
          NumberedCons(ds, i, rest.accepted, s.expected);
        } else {
          assert r.accepted == rest.accepted;
        }
      } else {
        assert r.accepted == if step.accepted then [i] else [];
      }
    }
  }

  /** What a run wrote: the payloads of the accepted datagrams, in order. */
  lemma {:induction false} GetLoopWrites(s: GetState, ds: seq<seq<byte>>, i: nat)
    requires i <= |ds|
    ensures PositionsWithin(GetLoop(s, ds, i).accepted, i, GetLoop(s, ds, i).consumed)
    ensures GetLoop(s, ds, i).state.written == s.written + Concat(PayloadsAt(ds, GetLoop(s, ds, i).accepted))
    decreases |ds| - i
  {
    GetLoopAcceptedPositions(s, ds, i);
    var r := GetLoop(s, ds, i);
    if i == |ds| {
      assert PayloadsAt(ds, r.accepted) == [];
    } else {
      var step := Step(s, Classify(ds[i]));
      var p := PayloadField(Received(ds[i]));
      if step.stop.None? {
        var rest := GetLoop(step.state, ds, i + 1);
        GetLoopWrites(step.state, ds, i + 1);
        if step.accepted {
          assert r.accepted == [i] + rest.accepted;
          ConcatPayloadsCons(ds, i, rest.accepted);
          var c := Concat(PayloadsAt(ds, rest.accepted));
          assert r.state.written == (s.written + p) + c;
        } else {
          assert r.accepted == rest.accepted;
        }
      } else if step.accepted {
        assert r.accepted == [i];
        assert PayloadsAt(ds, r.accepted) == [p];
        assert Concat([p]) == p + Concat([]);
      } else {
        assert r.accepted == [];
        assert PayloadsAt(ds, r.accepted) == [];
      }
    }
  }

  /** Download accept rule over a whole run: the written bytes grow by the in-order
      concatenation of the payloads of the accepted datagrams; those are DATA datagrams at
      increasing positions, numbered expected, expected + 1, ..., so no block number is written
      twice and nothing else is written. */
  lemma GetLoopWritesAcceptedInOrder(s: GetState, ds: seq<seq<byte>>, i: nat)
    requires i <= |ds|
    ensures PositionsWithin(GetLoop(s, ds, i).accepted, i, GetLoop(s, ds, i).consumed)
    ensures NumberedFrom(ds, GetLoop(s, ds, i).accepted, s.expected)
    ensures GetLoop(s, ds, i).state.written == s.written + Concat(PayloadsAt(ds, GetLoop(s, ds, i).accepted))
  {
    GetLoopAcceptedNumbers(s, ds, i);
    GetLoopWrites(s, ds, i);
  }

  /** The block numbers of the DATA datagrams (as read by the download) in a sequence. */
  function DataBlocks(ds: seq<seq<byte>>): (bs: seq<nat>)
    ensures |bs| <= |ds|
    decreases |ds|
  {
    if |ds| == 0 then []
    else (if Classify(ds[0]).DataIn? then [Classify(ds[0]).block] else []) + DataBlocks(ds[1..])
  }

  /** The ACKs of a run decode, in order, to the given block numbers. */
  predicate AcksCarry(acks: seq<seq<byte>>, blocks: seq<nat>) {
    && |acks| == |blocks|
    && forall k :: 0 <= k < |acks| ==>
         OpcodeField(acks[k]) == Code(ACK) && NumberField(acks[k]) == blocks[k]
  }

  /** Download ACK rule over a whole run: unless a block number overflowed the ACK builder, one
      ACK goes out per DATA datagram consumed, matching or not, carrying that DATA's own block
      number; ERROR and other datagrams are never acknowledged. */
  lemma {:induction false} GetLoopAcksEveryData(s: GetState, ds: seq<seq<byte>>, i: nat)
    requires i <= |ds|
    ensures !GetLoop(s, ds, i).outcome.AckPackFailed? ==>
      AcksCarry(GetLoop(s, ds, i).acks, DataBlocks(ds[i..GetLoop(s, ds, i).consumed]))
    decreases |ds| - i
  {
    var r := GetLoop(s, ds, i);
    if i < |ds| && !r.outcome.AckPackFailed? {
      var m := Classify(ds[i]);
      var step := Step(s, m);
      StepRules(s, m);
      var window := ds[i..r.consumed];
      var acks: seq<seq<byte>> := if step.ack.Some? then [step.ack.value] else [];
      var head: seq<nat> := if m.DataIn? then [m.block] else [];
      assert window[0] == ds[i];
      assert DataBlocks(window) == head + DataBlocks(window[1..]);
      if step.stop.Some? {
        assert window[1..] == [];
        AcksCarryAppend(acks, head, [], []);
      } else {
        var rest := GetLoop(step.state, ds, i + 1);
        GetLoopAcksEveryData(step.state, ds, i + 1);
        assert window[1..] == ds[i + 1..rest.consumed];
        AcksCarryAppend(acks, head, rest.acks, DataBlocks(window[1..]));
      }
    }
  }

  /** Two runs of ACKs, each carrying its blocks, carry the joined blocks when joined. */
  lemma AcksCarryAppend(a: seq<seq<byte>>, ba: seq<nat>, b: seq<seq<byte>>, bb: seq<nat>)
    requires AcksCarry(a, ba) && AcksCarry(b, bb)
    ensures AcksCarry(a + b, ba + bb)
  {
    forall k | 0 <= k < |a + b|
      ensures OpcodeField((a + b)[k]) == Code(ACK) && NumberField((a + b)[k]) == (ba + bb)[k]
    {
      if k < |a| {
        assert (a + b)[k] == a[k] && (ba + bb)[k] == ba[k];
      } else {
        assert (a + b)[k] == b[k - |a|] && (ba + bb)[k] == bb[k - |a|];
      }
    }
  }


  /** The receiver state a continuing loop can be in: one full 512-byte block written per
      accepted block, and `file_block` bound exactly when a block has been accepted, in which
      case it is a full block. */
  predicate Continuing(s: GetState) {
    && s.expected >= 1
    && |s.written| == BLOCK_SIZE * (s.expected - 1)
    && (s.lastAccepted.None? <==> s.expected == 1)
    && (s.lastAccepted.Some? ==> |s.lastAccepted.value| == BLOCK_SIZE)
  }

  /** Download termination: from a continuing state the loop either keeps waiting in a
      continuing state or ends; it ends with `Downloaded` exactly when the last accepted payload
      is shorter than 512 bytes, and the file then holds one full block per earlier block plus
      that short one. So a stale short `file_block` never ends the loop after a mismatched DATA
      (it would have ended the loop already), and the unbound `file_block` can only be met
      before the first block is accepted. */
  lemma {:induction false} GetLoopKeepsContinuing(s: GetState, ds: seq<seq<byte>>, i: nat)
    requires i <= |ds|
    requires Continuing(s)
    ensures GetLoop(s, ds, i).outcome.AwaitingDatagram? ==> Continuing(GetLoop(s, ds, i).state)
    ensures GetLoop(s, ds, i).outcome.Downloaded? ==>
      var st := GetLoop(s, ds, i).state;
      && st.lastAccepted.Some?
      && |st.lastAccepted.value| < BLOCK_SIZE
      && |st.written| == BLOCK_SIZE * (st.expected - 2) + |st.lastAccepted.value|
    ensures GetLoop(s, ds, i).outcome.NoBlockAccepted? ==> GetLoop(s, ds, i).state == Start
    decreases |ds| - i
  {
    if i < |ds| {
      var m := Classify(ds[i]);
      var step := Step(s, m);
      StepRules(s, m);
      if step.stop.None? {
        GetLoopKeepsContinuing(step.state, ds, i + 1);
      }
    }
  }

  /** Once a full block has been accepted, a DATA datagram carrying any other block number
      changes nothing: for a number up to 32767 it is acknowledged and the loop continues; for
      32768 to 65535 the signed conversion in `send_ack` raises and the download stops there. */
  lemma DuplicateDataIsHarmless(s: GetState, block: nat, payload: seq<byte>)
    requires Continuing(s) && s.expected > 1
    requires block < 65536 && block != s.expected
    ensures var r := Step(s, Classify([0, 3, block / 256, block % 256] + payload));
      && r.state == s && !r.accepted
      && (block <= 32767 ==> r == GetStep(s, Some(EncodeAck(block).value), false, None))
      && (block > 32767 ==> r == GetStep(s, None, false, Some(AckPackFailed(block))))
  {
    var d := [0, 3, block / 256, block % 256] + payload;
    assert Received(d)[..4] == d[..4];
    HeaderFields(Received(d), Code(DATA), block);
    StepRules(s, Classify(d));
  }


  /** Download ERROR handling: a first reply of ERROR with a tabled code ends the download with
      that code's message, nothing written and nothing acknowledged. */
  lemma ErrorReplyEndsDownload(filename: string, code: nat, message: seq<byte>, rest: seq<seq<byte>>)
    requires code <= 7
    ensures Get(filename, [[0, 5, 0, code] + message] + rest).run
            == GetRun(Start, [], [], 1, ServerError(code, ErrorMessage(code).value))
  {
    var d := [0, 5, 0, code] + message;
    assert Received(d)[..4] == [0, 5, 0, code];
    HeaderFields(Received(d), Code(ERROR), code);
    StepRules(Start, Classify(d));
  }

  /** The scenario of a missing file: ERROR code 1 reports "File not found." and writes nothing. */
  lemma FileNotFoundScenario(filename: string)
    ensures var g := Get(filename, [[0, 5, 0, 1, 0]]);
      g.run.outcome == ServerError(1, "File not found.") && g.run.state.written == []
  {
    assert [0, 5, 0, 1] + [0] == [0, 5, 0, 1, 0];
    assert [[0, 5, 0, 1, 0]] + [] == [[0, 5, 0, 1, 0]];
    ErrorReplyEndsDownload(filename, 1, [0], []);
  }
}
