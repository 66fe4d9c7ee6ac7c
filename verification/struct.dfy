/** The part of Python's `struct.pack` the client uses: big-endian ('>') format strings built
    from 'h' (signed 16-bit), 'B' (unsigned 8-bit) and '<count>s' (fixed-width byte string). */
module Struct {
  import opened Wrappers
  import opened Bytes

  /** One conversion of a format string together with the argument it consumes. */
  datatype Field =
    | Short(value: int)                  // 'h'
    | UnsignedByte(value: int)           // 'B'
    | Chars(count: nat, data: seq<byte>) // '<count>s'

  /** `struct.error`: an argument that does not fit its conversion. */
  datatype PackError = ShortOutOfRange(value: int) | ByteOutOfRange(value: int)

  /** 'h' accepts exactly the values of a signed 16-bit integer. */
  predicate InShortRange(n: int) {
    -32768 <= n <= 32767
  }

  predicate Packable(f: Field) {
    match f
    case Short(v) => InShortRange(v)
    case UnsignedByte(v) => 0 <= v < 256
    case Chars(_, _) => true
  }

  /** Bytes a conversion occupies in the packed output. */
  function Width(f: Field): nat {
    match f
    case Short(_) => 2
    case UnsignedByte(_) => 1
    case Chars(n, _) => n
  }

  function TotalWidth(fields: seq<Field>): nat
    decreases |fields|
  {
    if |fields| == 0 then 0 else Width(fields[0]) + TotalWidth(fields[1..])
  }

  /** Packs one conversion. A short is written in two's complement, high byte first, so its
      unsigned reading is the value modulo 65536; a string is cut or NUL-padded to its count. */
  function PackField(f: Field): (r: Result<seq<byte>, PackError>)
    ensures r.Success? <==> Packable(f)
    ensures r.Success? ==> |r.value| == Width(f)
    ensures r.Success? && f.Short? ==> FromBytesBE(r.value) == f.value % 65536
    ensures r.Success? && f.UnsignedByte? ==> r.value == [f.value]
    ensures r.Success? && f.Chars? ==>
      forall i :: 0 <= i < f.count ==> r.value[i] == if i < |f.data| then f.data[i] else 0
  {
    match f
    case Short(v) =>
      if InShortRange(v) then
        var u := v % 65536;
        FromBytesBETwo(u / 256, u % 256);
        Success([u / 256, u % 256])
      else
        Failure(ShortOutOfRange(v))
    case UnsignedByte(v) =>
      if 0 <= v < 256 then Success([v]) else Failure(ByteOutOfRange(v))
    case Chars(n, data) =>
      Success(if n <= |data| then data[..n] else data + seq(n - |data|, _ => 0))
  }

  /** Packs the conversions left to right; the first one that does not fit raises. */
  function Pack(fields: seq<Field>): (r: Result<seq<byte>, PackError>)
    ensures r.Success? <==> forall i :: 0 <= i < |fields| ==> Packable(fields[i])
    ensures r.Success? ==> |r.value| == TotalWidth(fields)
    decreases |fields|
  {
    if |fields| == 0 then Success([])
    else match PackField(fields[0])
      case Failure(e) => Failure(e)
      case Success(head) =>
        match Pack(fields[1..])
        case Failure(e) => Failure(e)
        case Success(tail) => Success(head + tail)
  }

  /** Packing a list is packing its first conversion, then the rest; the first error wins. */
  lemma PackCons(f: Field, rest: seq<Field>)
    ensures Pack([f] + rest) ==
      if !Packable(f) then Failure(PackField(f).error)
      else if Pack(rest).Failure? then Failure(Pack(rest).error)
      else Success(PackField(f).value + Pack(rest).value)
  {
    assert ([f] + rest)[0] == f;
    assert ([f] + rest)[1..] == rest;
  }

  /** Packing two lists one after the other is packing their concatenation: the bytes are the
      two results joined, and the first failing conversion, left to right, decides the error. */
  lemma {:induction false} PackAppend(a: seq<Field>, b: seq<Field>)
    ensures Pack(a + b) ==
      if Pack(a).Failure? then Failure(Pack(a).error)
      else if Pack(b).Failure? then Failure(Pack(b).error)
      else Success(Pack(a).value + Pack(b).value)
    decreases |a|
  {
    if |a| == 0 {
      assert a + b == b;
      assert Pack(a) == Success([]);
      if Pack(b).Success? {
        assert [] + Pack(b).value == Pack(b).value;
      }
    } else {
      assert (a + b)[0] == a[0];
      assert (a + b)[1..] == a[1..] + b;
      PackAppend(a[1..], b);
      var head := PackField(a[0]);
      var rest := Pack(a[1..]);
      if head.Success? && rest.Success? && Pack(b).Success? {
        assert head.value + (rest.value + Pack(b).value) == (head.value + rest.value) + Pack(b).value;
      }
    }
  }
}
