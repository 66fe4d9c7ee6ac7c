/** The datagram codec of the client: the RRQ/WRQ, ACK and DATA builders (tftppp.py lines 23-38
    and 62) and the big-endian field readers the download loop applies to received datagrams
    (lines 114-121); the upload's readers (lines 69-71) agree with them on every datagram. */
module Packets {
  import opened Wrappers
  import opened Bytes
  import opened Struct
  import opened Protocol

  /** Which request opens the transfer: RRQ for `get`, WRQ for `put`. */
  datatype RequestKind = Read | Write

  function RequestOpcode(kind: RequestKind): Opcode {
    match kind
    case Read => RRQ
    case Write => WRQ
  }

  /** `send_rrq` / `send_wrq`: the format `>h{len(filename)}sB{len(mode)}sB` applied to the
      opcode, `bytes(filename, 'utf-8')`, a NUL, `bytes(mode, 'utf-8')` and a NUL. The widths count
      characters rather than encoded bytes, so each string field holds the first `|s|` bytes of
      the string's UTF-8 encoding: all of it for ASCII text, a cut-off prefix otherwise. */
  function EncodeRequest(kind: RequestKind, filename: string, mode: string): (r: seq<byte>)
    ensures |r| == |filename| + |mode| + 4
    ensures r == [0, Code(RequestOpcode(kind))] + Utf8(filename)[..|filename|] + [0]
                 + Utf8(mode)[..|mode|] + [0]
  {
    var op := Code(RequestOpcode(kind));
    var f := Utf8(filename);
    var m := Utf8(mode);
    RequestLayout(op, |filename|, f, |mode|, m);
    Pack([Short(op), Chars(|filename|, f), UnsignedByte(0), Chars(|mode|, m), UnsignedByte(0)]).value
  }

  /** The full-width request: each string field as wide as its encoded bytes, so the whole of
      `bytes(filename, 'utf-8')` and `bytes(mode, 'utf-8')` goes out, each ended by a NUL. */
  function EncodeRequestUtf8(kind: RequestKind, filename: string, mode: string): (r: seq<byte>)
    ensures |r| == |Utf8(filename)| + |Utf8(mode)| + 4
    ensures r == [0, Code(RequestOpcode(kind))] + Utf8(filename) + [0] + Utf8(mode) + [0]
  {
    var op := Code(RequestOpcode(kind));
    var f := Utf8(filename);
    var m := Utf8(mode);
    RequestLayout(op, |f|, f, |m|, m);
    assert f[..|f|] == f && m[..|m|] == m;
    Pack([Short(op), Chars(|f|, f), UnsignedByte(0), Chars(|m|, m), UnsignedByte(0)]).value
  }

  /** The packed request equals the explicit byte layout, each string field cut to its width. */
  lemma RequestLayout(op: nat, nf: nat, f: seq<byte>, nm: nat, m: seq<byte>)
    requires 0 < op < 256
    requires nf <= |f| && nm <= |m|
    ensures Pack([Short(op), Chars(nf, f), UnsignedByte(0), Chars(nm, m), UnsignedByte(0)]).Success?
    ensures Pack([Short(op), Chars(nf, f), UnsignedByte(0), Chars(nm, m), UnsignedByte(0)]).value
            == [0, op] + f[..nf] + [0] + m[..nm] + [0]
  {
    var l5 := [UnsignedByte(0)];
    var l4 := [Chars(nm, m)] + l5;
    var l3 := [UnsignedByte(0)] + l4;
    var l2 := [Chars(nf, f)] + l3;
    var l1 := [Short(op)] + l2;
    assert l1 == [Short(op), Chars(nf, f), UnsignedByte(0), Chars(nm, m), UnsignedByte(0)];
    PackCons(UnsignedByte(0), []);
    assert [UnsignedByte(0)] + [] == l5;
    assert Pack(l5).value == [0];
    PackCons(Chars(nm, m), l5);
    assert PackField(Chars(nm, m)).value == m[..nm];
    assert Pack(l4).value == m[..nm] + [0];
    PackCons(UnsignedByte(0), l4);
    assert Pack(l3).value == [0] + m[..nm] + [0];
    PackCons(Chars(nf, f), l3);
    assert PackField(Chars(nf, f)).value == f[..nf];
    assert Pack(l2).value == f[..nf] + [0] + m[..nm] + [0];
    PackCons(Short(op), l2);
    assert PackField(Short(op)).value == [0, op] by {
      assert op % 65536 == op;
    }
    assert Pack(l1).value == [0, op] + f[..nf] + [0] + m[..nm] + [0];
  }

  /** For ASCII text the two encoders coincide and give one byte per character; as soon as the
      filename or the mode holds any other character they differ, the client's request being
      shorter than the encoded strings need. */
  lemma RequestEncodersAgreeIffAscii(kind: RequestKind, filename: string, mode: string)
    ensures EncodeRequest(kind, filename, mode) == EncodeRequestUtf8(kind, filename, mode)
            <==> IsAscii(filename) && IsAscii(mode)
    ensures IsAscii(filename) && IsAscii(mode) ==>
      EncodeRequest(kind, filename, mode)
      == [0, Code(RequestOpcode(kind))] + AsciiBytes(filename) + [0] + AsciiBytes(mode) + [0]
  {
    Utf8LengthIffAscii(filename);
    Utf8LengthIffAscii(mode);
    if IsAscii(filename) && IsAscii(mode) {
      Utf8OfAscii(filename);
      Utf8OfAscii(mode);
      assert Utf8(filename)[..|filename|] == Utf8(filename);
      assert Utf8(mode)[..|mode|] == Utf8(mode);
    }
  }

  /** `send_ack`: the format `>hh` applied to opcode 4 and the block number. The signed
      conversion raises for block numbers above 32767. */
  function EncodeAck(block: int): (r: Result<seq<byte>, PackError>)
    ensures r.Success? <==> InShortRange(block)
    ensures r.Success? ==> |r.value| == 4
    ensures r.Failure? ==> r.error == ShortOutOfRange(block)
  {
    PackCons(Short(Code(ACK)), [Short(block)]);
    PackCons(Short(block), []);
    assert [Short(block)] + [] == [Short(block)];
    Pack([Short(Code(ACK)), Short(block)])
  }

  /** The DATA builder of `tftp_put`: the format `>hh{len(payload)}s` applied to opcode 3, the
      block number and the payload. */
  function EncodeData(block: int, payload: seq<byte>): (r: Result<seq<byte>, PackError>)
    ensures r.Success? <==> InShortRange(block)
    ensures r.Success? ==> |r.value| == 4 + |payload|
    ensures r.Failure? ==> r.error == ShortOutOfRange(block)
  {
    PackCons(Short(Code(DATA)), [Short(block), Chars(|payload|, payload)]);
    PackCons(Short(block), [Chars(|payload|, payload)]);
    PackCons(Chars(|payload|, payload), []);
    assert [Short(block)] + [Chars(|payload|, payload)] == [Short(block), Chars(|payload|, payload)];
    assert [Chars(|payload|, payload)] + [] == [Chars(|payload|, payload)];
    Pack([Short(Code(DATA)), Short(block), Chars(|payload|, payload)])
  }

  /** `int.from_bytes(d[:2], 'big')`: the opcode of a received datagram. */
  function OpcodeField(d: seq<byte>): nat {
    FromBytesBE(Prefix(d, 2))
  }

  /** `int.from_bytes(d[2:4], 'big')`: the block number of DATA/ACK, the error code of ERROR. */
  function NumberField(d: seq<byte>): nat {
    FromBytesBE(Slice(d, 2, 4))
  }

  /** `d[4:]`: the payload of a DATA datagram. */
  function PayloadField(d: seq<byte>): seq<byte> {
    Suffix(d, 4)
  }

  /** A packed opcode/number pair reads back through the big-endian readers. */
  lemma HeaderFields(d: seq<byte>, op: nat, n: nat)
    requires op < 256 && n < 65536
    requires |d| >= 4 && d[..4] == [0, op, n / 256, n % 256]
    ensures OpcodeField(d) == op
    ensures NumberField(d) == n
  {
    assert Prefix(d, 2) == [0, op];
    assert Slice(d, 2, 4) == [n / 256, n % 256];
    FromBytesBETwo(0, op);
    FromBytesBETwo(n / 256, n % 256);
  }

  /** ACK round trip: for every block number the signed conversion accepts and that is not
      negative, the ACK is the four bytes [0, 4, n div 256, n mod 256] and the readers give back
      opcode 4 and block `n`. */
  lemma {:induction false} AckRoundTrip(n: int)
    requires 0 <= n <= 32767
    ensures EncodeAck(n).Success?
    ensures EncodeAck(n).value == [0, 4, n / 256, n % 256]
    ensures OpcodeField(EncodeAck(n).value) == Code(ACK)
    ensures NumberField(EncodeAck(n).value) == n
  {
    PackCons(Short(Code(ACK)), [Short(n)]);
    PackCons(Short(n), []);
    assert [Short(n)] + [] == [Short(n)];
    assert n % 65536 == n;
    var v := EncodeAck(n).value;
    assert v == [0, 4, n / 256, n % 256];
    HeaderFields(v, 4, n);
  }

  /** DATA round trip: for 0 <= n <= 32767 the DATA datagram is `4 + |p|` bytes long and the
      download readers give back opcode 3, block `n` and payload `p` unchanged. */
  lemma {:induction false} DataRoundTrip(n: int, p: seq<byte>)
    requires 0 <= n <= 32767
    ensures EncodeData(n, p).Success?
    ensures |EncodeData(n, p).value| == 4 + |p|
    ensures EncodeData(n, p).value == [0, 3, n / 256, n % 256] + p
    ensures OpcodeField(EncodeData(n, p).value) == Code(DATA)
    ensures NumberField(EncodeData(n, p).value) == n
    ensures PayloadField(EncodeData(n, p).value) == p
  {
    PackCons(Short(Code(DATA)), [Short(n), Chars(|p|, p)]);
    PackCons(Short(n), [Chars(|p|, p)]);
    PackCons(Chars(|p|, p), []);
    assert [Short(n)] + [Chars(|p|, p)] == [Short(n), Chars(|p|, p)];
    assert [Chars(|p|, p)] + [] == [Chars(|p|, p)];
    assert PackField(Chars(|p|, p)).value == p;
    assert n % 65536 == n;
    var v := EncodeData(n, p).value;
    assert v == [0, 3, n / 256, n % 256] + p;
    HeaderFields(v, 3, n);
    assert PayloadField(v) == p;
  }

  /** A parsed RRQ/WRQ: its opcode and the NUL-terminated filename and mode fields. */
  datatype Request = Request(opcode: nat, filename: seq<byte>, mode: seq<byte>)

  /** Position of the first NUL byte of `s`, or `|s|` when there is none. */
  function IndexOfNul(s: seq<byte>): (i: nat)
    ensures i <= |s|
    ensures forall k :: 0 <= k < i ==> s[k] != 0
    ensures i < |s| ==> s[i] == 0
    decreases |s|
  {
    if |s| == 0 then 0 else if s[0] == 0 then 0 else 1 + IndexOfNul(s[1..])
  }

  /** A reader for RRQ/WRQ datagrams as a server sees them: a two-byte opcode, then a filename
      and a mode, each ended by a NUL, the mode's NUL being the last byte. */
  function DecodeRequest(d: seq<byte>): (r: Option<Request>)
    ensures r.Some? ==> |d| == |r.value.filename| + |r.value.mode| + 4
  {
    if |d| < 2 then None
    else
      var rest := d[2..];
      var i := IndexOfNul(rest);
      if i == |rest| then None
      else
        var rest2 := rest[i + 1..];
        var j := IndexOfNul(rest2);
        if j + 1 != |rest2| then None
        else Some(Request(OpcodeField(d), rest[..i], rest2[..j]))
  }

  predicate NulFree(s: string) {
    forall i :: 0 <= i < |s| ==> s[i] != '\0'
  }

  /** The first NUL of a field without zero bytes followed by a NUL is the one right after it. */
  lemma IndexOfNulAfterField(field: seq<byte>, rest: seq<byte>)
    requires forall k :: 0 <= k < |field| ==> field[k] != 0
    ensures IndexOfNul(field + [0] + rest) == |field|
  {
    var s := field + [0] + rest;
    assert forall k :: 0 <= k < |field| ==> s[k] == field[k];
    assert s[|field|] == 0;
  }

  /** Reading an opcode and two zero-free fields back from their NUL-separated layout. */
  lemma RequestFieldsRoundTrip(op: nat, f: seq<byte>, m: seq<byte>)
    requires 0 < op < 256
    requires forall k :: 0 <= k < |f| ==> f[k] != 0
    requires forall k :: 0 <= k < |m| ==> m[k] != 0
    ensures DecodeRequest([0, op] + f + [0] + m + [0]) == Some(Request(op, f, m))
  {
    var d := [0, op] + f + [0] + m + [0];
    assert d[..2] == [0, op];
    FromBytesBETwo(0, op);
    assert OpcodeField(d) == op;
    var rest := d[2..];
    assert rest == f + [0] + (m + [0]);
    IndexOfNulAfterField(f, m + [0]);
    var rest2 := rest[|f| + 1..];
    assert rest2 == m + [0] + [];
    IndexOfNulAfterField(m, []);
    assert rest[..|f|] == f;
    assert rest2[..|m|] == m;
  }

  /** Round trip of the full-width request: for NUL-free filename and mode a server reading at
      the NUL separators recovers the opcode and the complete UTF-8 bytes of both strings. */
  lemma RequestUtf8RoundTrip(kind: RequestKind, filename: string, mode: string)
    requires NulFree(filename) && NulFree(mode)
    ensures DecodeRequest(EncodeRequestUtf8(kind, filename, mode))
            == Some(Request(Code(RequestOpcode(kind)), Utf8(filename), Utf8(mode)))
  {
    Utf8NulFree(filename);
    Utf8NulFree(mode);
    RequestFieldsRoundTrip(Code(RequestOpcode(kind)), Utf8(filename), Utf8(mode));
  }

  /** Request round trip of the client as written: an RRQ/WRQ built from NUL-free ASCII names
      parses back to its opcode, filename and mode. */
  lemma RequestRoundTrip(kind: RequestKind, filename: string, mode: string)
    requires IsAscii(filename) && IsAscii(mode)
    requires NulFree(filename) && NulFree(mode)
    ensures DecodeRequest(EncodeRequest(kind, filename, mode))
            == Some(Request(Code(RequestOpcode(kind)), AsciiBytes(filename), AsciiBytes(mode)))
  {
    RequestEncodersAgreeIffAscii(kind, filename, mode);
    RequestUtf8RoundTrip(kind, filename, mode);
    Utf8OfAscii(filename);
    Utf8OfAscii(mode);
  }

  /** A filename with a non-ASCII character reaches the server cut short: the filename field
      of the request is never the name's full UTF-8 encoding. */
  lemma {:induction false} AsWrittenRequestCutsName(kind: RequestKind, filename: string, mode: string)
    requires !IsAscii(filename)
    ensures |Utf8(filename)| > |filename|
    ensures EncodeRequest(kind, filename, mode)[2..2 + |filename|] != Utf8(filename)
  {
    Utf8LengthIffAscii(filename);
  }

  /** The name "\u00e9" (UTF-8 bytes C3 A9): the WRQ is 0 2 C3 0 "octet" 0, and a server
      reading it sees the one-byte filename C3. */
  lemma AsWrittenAccentedName()
    ensures Utf8("\U{E9}") == [0xC3, 0xA9]
    ensures EncodeRequest(Write, "\U{E9}", "octet") == [0, 2, 0xC3, 0, 111, 99, 116, 101, 116, 0]
    ensures DecodeRequest(EncodeRequest(Write, "\U{E9}", "octet"))
            == Some(Request(2, [0xC3], [111, 99, 116, 101, 116]))
  {
    var name := "\U{E9}";
    assert name[1..] == [];
    assert Utf8(name) == [0xC3, 0xA9];
    assert IsAscii("octet");
    Utf8OfAscii("octet");
    var m := Utf8("octet");
    assert m == [111, 99, 116, 101, 116];
    var d := EncodeRequest(Write, name, "octet");
    assert d == [0, 2] + [0xC3] + [0] + m + [0];
    RequestFieldsRoundTrip(2, [0xC3], m);
  }
}
