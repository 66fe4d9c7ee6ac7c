/** Byte sequences and the handful of Python byte-string operations the client relies on:
    clamped slicing, `int.from_bytes(..., 'big')` and the UTF-8 encoding of strings. */
module Bytes {

  /** One octet, as Python's `bytes` items are: an integer in 0..255. */
  type byte = b: int | 0 <= b < 256

  /** `s[:n]` in Python: the first `n` bytes, or all of `s` when it is shorter. */
  function Prefix(s: seq<byte>, n: nat): (r: seq<byte>)
    ensures |r| == if n <= |s| then n else |s|
  {
    if n <= |s| then s[..n] else s
  }

  /** `s[n:]` in Python: everything from byte `n` on, or nothing when `s` is shorter. */
  function Suffix(s: seq<byte>, n: nat): (r: seq<byte>)
    ensures |r| == if n <= |s| then |s| - n else 0
  {
    if n <= |s| then s[n..] else []
  }

  /** `s[i:j]` in Python for `0 <= i <= j`: the bytes at positions `i..j` that exist. */
  function Slice(s: seq<byte>, i: nat, j: nat): (r: seq<byte>)
    requires i <= j
    ensures |r| <= j - i
    ensures j <= |s| ==> |r| == j - i
  {
    Prefix(Suffix(s, i), j - i)
  }

  /** `int.from_bytes(s, 'big')`: the unsigned big-endian value of `s` (0 for the empty string). */
  function FromBytesBE(s: seq<byte>): (n: nat)
    decreases |s|
  {
    if |s| == 0 then 0 else FromBytesBE(s[..|s| - 1]) * 256 + s[|s| - 1]
  }

  /** A two-byte big-endian field is the high byte times 256 plus the low byte. */
  lemma FromBytesBETwo(hi: byte, lo: byte)
    ensures FromBytesBE([hi, lo]) == hi * 256 + lo
  {
    assert [hi, lo][..1] == [hi];
    assert [hi][..0] == [];
    assert FromBytesBE([hi]) == hi;
  }

  /** The concatenation, in order, of a sequence of byte strings (`b''.join(parts)`). */
  function Concat(parts: seq<seq<byte>>): (r: seq<byte>)
    decreases |parts|
  {
    if |parts| == 0 then [] else parts[0] + Concat(parts[1..])
  }

  /** Concatenation distributes over appending one more part at the end. */
  lemma {:induction false} ConcatSnoc(parts: seq<seq<byte>>, last: seq<byte>)
    ensures Concat(parts + [last]) == Concat(parts) + last
    decreases |parts|
  {
    if |parts| == 0 {
      assert parts + [last] == [last];
    } else {
      assert (parts + [last])[1..] == parts[1..] + [last];
      ConcatSnoc(parts[1..], last);
    }
  }

  /** True when every character is 7-bit ASCII, so its UTF-8 encoding is one byte equal to its code. */
  predicate IsAscii(s: string) {
    forall i :: 0 <= i < |s| ==> s[i] as int < 128
  }

  /** The bytes of an ASCII string: one byte per character, the character's code. */
  function AsciiBytes(s: string): (r: seq<byte>)
    requires IsAscii(s)
    ensures |r| == |s|
    ensures forall i :: 0 <= i < |s| ==> r[i] == s[i] as int
  {
    seq(|s|, i requires 0 <= i < |s| => s[i] as int)
  }

  /** The UTF-8 encoding of one Unicode scalar value (section 3 of RFC 3629): a single byte
      below 0x80, otherwise a lead byte 110xxxxx, 1110xxxx or 11110xxx followed by one, two or
      three continuation bytes 10xxxxxx. */
  function Utf8Char(c: char): (r: seq<byte>)
    ensures 1 <= |r| <= 4
    ensures |r| == 1 <==> c as int < 128
    ensures c != '\0' ==> forall i :: 0 <= i < |r| ==> r[i] != 0
  {
    var n := c as int;
    if n < 0x80 then [n]
    else if n < 0x800 then [0xC0 + n / 0x40, 0x80 + n % 0x40]
    else if n < 0x1_0000 then [0xE0 + n / 0x1000, 0x80 + n / 0x40 % 0x40, 0x80 + n % 0x40]
    else [0xF0 + n / 0x4_0000, 0x80 + n / 0x1000 % 0x40, 0x80 + n / 0x40 % 0x40, 0x80 + n % 0x40]
  }

  /** `bytes(s, 'utf-8')`: the characters' encodings, in order. Never shorter than the string. */
  function Utf8(s: string): (r: seq<byte>)
    ensures |r| >= |s|
    decreases |s|
  {
    if |s| == 0 then [] else Utf8Char(s[0]) + Utf8(s[1..])
  }

  /** On ASCII text UTF-8 is the identity on character codes. */
  lemma {:induction false} Utf8OfAscii(s: string)
    requires IsAscii(s)
    ensures Utf8(s) == AsciiBytes(s)
    decreases |s|
  {
    if |s| > 0 {
      assert IsAscii(s[1..]) by {
        forall i | 0 <= i < |s[1..]| ensures s[1..][i] as int < 128 {
          assert s[1..][i] == s[i + 1];
        }
      }
      Utf8OfAscii(s[1..]);
      assert AsciiBytes(s) == [s[0] as int] + AsciiBytes(s[1..]);
    }
  }

  /** The encoding has exactly one byte per character if and only if the text is ASCII;
      any other character makes it strictly longer. */
  lemma {:induction false} Utf8LengthIffAscii(s: string)
    ensures |Utf8(s)| == |s| <==> IsAscii(s)
    decreases |s|
  {
    if |s| > 0 {
      Utf8LengthIffAscii(s[1..]);
      AsciiCons(s);
    }
  }

  /** A string is ASCII exactly when its first character and the rest are. */
  lemma AsciiCons(s: string)
    requires |s| > 0
    ensures IsAscii(s) <==> s[0] as int < 128 && IsAscii(s[1..])
  {
    if s[0] as int < 128 && IsAscii(s[1..]) {
      forall i | 0 <= i < |s| ensures s[i] as int < 128 {
        if i > 0 {
          assert s[i] == s[1..][i - 1];
        }
      }
    }
    if IsAscii(s) {
      forall i | 0 <= i < |s[1..]| ensures s[1..][i] as int < 128 {
        assert s[1..][i] == s[i + 1];
      }
    }
  }

  /** A string without NUL characters encodes to bytes without a zero byte. */
  lemma {:induction false} Utf8NulFree(s: string)
    requires forall i :: 0 <= i < |s| ==> s[i] != '\0'
    ensures forall k :: 0 <= k < |Utf8(s)| ==> Utf8(s)[k] != 0
    decreases |s|
  {
    if |s| > 0 {
      assert forall i :: 0 <= i < |s[1..]| ==> s[1..][i] == s[i + 1];
      Utf8NulFree(s[1..]);
      var head := Utf8Char(s[0]);
      var tail := Utf8(s[1..]);
      forall k | 0 <= k < |Utf8(s)| ensures Utf8(s)[k] != 0 {
        if k < |head| {
          assert Utf8(s)[k] == head[k];
        } else {
          assert Utf8(s)[k] == tail[k - |head|];
        }
      }
    }
  }
}
