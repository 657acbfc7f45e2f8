/** The base64 encoding with the URL- and filename-safe alphabet and `=`
    padding, section 5 of RFC 4648 (Go's `base64.URLEncoding`), with a
    strict decoder as its inverse. */
module Base64Url {
  import opened Wrappers
  import opened GoStrings

  /** The padding character `=`. */
  const Pad: Byte := 0x3D

  /** A character of the URL-safe alphabet: `A-Z a-z 0-9 - _`. */
  predicate IsSymbol(c: Byte) {
    || 0x41 <= c <= 0x5A   // A-Z
    || 0x61 <= c <= 0x7A   // a-z
    || 0x30 <= c <= 0x39   // 0-9
    || c == 0x2D           // -
    || c == 0x5F           // _
  }

  /** The 6-bit value of an alphabet character, if it is one. */
  function SymbolIndex(c: Byte): (r: Option<Byte>)
    ensures r.Some? <==> IsSymbol(c)
    ensures r.Some? ==> r.value < 64
  {
    if 0x41 <= c <= 0x5A then Some(c - 0x41)
    else if 0x61 <= c <= 0x7A then Some(c - 0x61 + 26)
    else if 0x30 <= c <= 0x39 then Some(c - 0x30 + 52)
    else if c == 0x2D then Some(62)
    else if c == 0x5F then Some(63)
    else None
  }

  /** The alphabet character for a 6-bit value (table 2 of RFC 4648). */
  function Symbol(i: Byte): (c: Byte)
    requires i < 64
    ensures IsSymbol(c) && c != Pad
    ensures SymbolIndex(c) == Some(i)
  {
    if i < 26 then 0x41 + i
    else if i < 52 then 0x61 + (i - 26)
    else if i < 62 then 0x30 + (i - 52)
    else if i == 62 then 0x2D
    else 0x5F
  }

  /** Number of `=` characters ending the encoding of `n` bytes. */
  function PadLength(n: nat): nat {
    (3 - n % 3) % 3
  }

  /** `e` is alphabet characters followed by exactly `pad` padding characters. */
  predicate Padded(e: Bytes, pad: nat) {
    && pad <= |e|
    && (forall i :: 0 <= i < |e| - pad ==> IsSymbol(e[i]))
    && (forall i :: |e| - pad <= i < |e| ==> e[i] == Pad)
  }

  /** Three bytes as four characters, six bits each, most significant first. */
  function Quantum(b0: Byte, b1: Byte, b2: Byte): (q: Bytes)
    ensures |q| == 4 && Padded(q, 0)
  {
    [Symbol(b0 >> 2), Symbol(((b0 & 3) << 4) | (b1 >> 4)), Symbol(((b1 & 15) << 2) | (b2 >> 6)), Symbol(b2 & 63)]
  }

  /** A final group of two bytes: three characters and one `=`. */
  function QuantumOfTwo(b0: Byte, b1: Byte): (q: Bytes)
    ensures |q| == 4 && Padded(q, 1)
  {
    [Symbol(b0 >> 2), Symbol(((b0 & 3) << 4) | (b1 >> 4)), Symbol((b1 & 15) << 2), Pad]
  }

  /** A final single byte: two characters and `==`. */
  function QuantumOfOne(b0: Byte): (q: Bytes)
    ensures |q| == 4 && Padded(q, 2)
  {
    [Symbol(b0 >> 2), Symbol((b0 & 3) << 4), Pad, Pad]
  }

  /** Go's `base64.URLEncoding.EncodeToString`: every full 3-byte group
      becomes 4 characters, and a final group of 1 or 2 bytes becomes a
      padded quantum. */
  function Encode(b: Bytes): (e: Bytes)
    ensures |e| == 4 * ((|b| + 2) / 3)
    decreases |b|
  {
    if |b| == 0 then []
    else if |b| == 1 then QuantumOfOne(b[0])
    else if |b| == 2 then QuantumOfTwo(b[0], b[1])
    else Quantum(b[0], b[1], b[2]) + Encode(b[3..])
  }

  /** Prefixing a quantum of alphabet characters keeps the padding. */
  lemma PaddedPrefix(q: Bytes, rest: Bytes, pad: nat)
    requires Padded(q, 0) && Padded(rest, pad)
    ensures Padded(q + rest, pad)
  {
    var e := q + rest;
    forall i | 0 <= i < |e| ensures i < |e| - pad ==> IsSymbol(e[i])
                             ensures |e| - pad <= i ==> e[i] == Pad {
      if i >= |q| { assert e[i] == rest[i - |q|]; }
    }
  }

  /** A full quantum in front of the rest of an encoding keeps the padding
      the rest of the input calls for. */
  lemma PaddedStep(b: Bytes, rest: Bytes)
    requires |b| >= 3
    requires Padded(rest, PadLength(|b| - 3))
    ensures Padded(Quantum(b[0], b[1], b[2]) + rest, PadLength(|b|))
  {
    PaddedPrefix(Quantum(b[0], b[1], b[2]), rest, PadLength(|b| - 3));
  }

  /** The encoding is alphabet characters followed by exactly
      `PadLength(|b|)` padding characters. */
  lemma {:induction false} EncodePadded(b: Bytes)
    ensures Padded(Encode(b), PadLength(|b|))
    decreases |b|
  {
    if |b| >= 3 {
      EncodePadded(b[3..]);
      PaddedStep(b, Encode(b[3..]));
    }
  }

  /** Decodes one 4-character quantum; `last` says whether it ends the
      input, the only place where padding is allowed. Bits that padding
      discards must be zero (the canonical encoding of section 3.5 of RFC 4648). */
  function DecodeQuantum(c0: Byte, c1: Byte, c2: Byte, c3: Byte, last: bool): Option<Bytes>
  {
    var i0 := SymbolIndex(c0);
    var i1 := SymbolIndex(c1);
    if i0.None? || i1.None? then None
    else if c2 == Pad && c3 == Pad then
      if last && i1.value & 15 == 0 then Some([(i0.value << 2) | (i1.value >> 4)]) else None
    else
      var i2 := SymbolIndex(c2);
      if i2.None? then None
      else if c3 == Pad then
        if last && i2.value & 3 == 0
        then Some([(i0.value << 2) | (i1.value >> 4), ((i1.value & 15) << 4) | (i2.value >> 2)])
        else None
      else
        var i3 := SymbolIndex(c3);
        if i3.None? then None
        else Some([(i0.value << 2) | (i1.value >> 4), ((i1.value & 15) << 4) | (i2.value >> 2), ((i2.value & 3) << 6) | i3.value])
  }

  /** Both halves decoded: their concatenation; otherwise an error. */
  function Concat(head: Option<Bytes>, tail: Option<Bytes>): Option<Bytes> {
    if head.Some? && tail.Some? then Some(head.value + tail.value) else None
  }

  /** Decodes a padded URL-safe base64 text; `None` for anything that is not
      the canonical encoding of some byte string. */
  function Decode(e: Bytes): Option<Bytes>
    decreases |e|
  {
    if |e| == 0 then Some([])
    else if |e| < 4 then None
    else Concat(DecodeQuantum(e[0], e[1], e[2], e[3], |e| == 4), Decode(e[4..]))
  }

  lemma DecodeQuantumOfThree(b0: Byte, b1: Byte, b2: Byte, last: bool)
    ensures var q := Quantum(b0, b1, b2);
            DecodeQuantum(q[0], q[1], q[2], q[3], last) == Some([b0, b1, b2])
  {
  }

  lemma DecodeQuantumOfTwo(b0: Byte, b1: Byte)
    ensures var q := QuantumOfTwo(b0, b1);
            DecodeQuantum(q[0], q[1], q[2], q[3], true) == Some([b0, b1])
  {
  }

  lemma DecodeQuantumOfOne(b0: Byte)
    ensures var q := QuantumOfOne(b0);
            DecodeQuantum(q[0], q[1], q[2], q[3], true) == Some([b0])
  {
  }

  /** Decoding proceeds quantum by quantum. */
  lemma DecodeCons(q: Bytes, rest: Bytes)
    requires |q| == 4
    ensures Decode(q + rest) == Concat(DecodeQuantum(q[0], q[1], q[2], q[3], |rest| == 0), Decode(rest))
  {
    assert (q + rest)[4..] == rest;
  }

  /** The final quantum of one byte decodes back to it. */
  lemma DecodeLastOfOne(b: Bytes)
    requires |b| == 1
    ensures Decode(QuantumOfOne(b[0])) == Some(b)
  {
    DecodeQuantumOfOne(b[0]);
    DecodeCons(QuantumOfOne(b[0]), []);
    assert QuantumOfOne(b[0]) + [] == QuantumOfOne(b[0]);
    assert [b[0]] + [] == b;
  }

  /** The final quantum of two bytes decodes back to them. */
  lemma DecodeLastOfTwo(b: Bytes)
    requires |b| == 2
    ensures Decode(QuantumOfTwo(b[0], b[1])) == Some(b)
  {
    DecodeQuantumOfTwo(b[0], b[1]);
    DecodeCons(QuantumOfTwo(b[0], b[1]), []);
    assert QuantumOfTwo(b[0], b[1]) + [] == QuantumOfTwo(b[0], b[1]);
    assert [b[0], b[1]] + [] == b;
  }

  lemma FirstThree(b: Bytes)
    requires |b| >= 3
    ensures [b[0], b[1], b[2]] + b[3..] == b
  {
  }

  /** A full quantum in front of text that decodes to the rest of the input
      decodes to the whole input. */
  lemma DecodeFullStep(b: Bytes, rest: Bytes)
    requires |b| >= 3
    requires Decode(rest) == Some(b[3..])
    requires |rest| == 0 <==> |b| == 3
    ensures Decode(Quantum(b[0], b[1], b[2]) + rest) == Some(b)
  {
    var q := Quantum(b[0], b[1], b[2]);
    DecodeQuantumOfThree(b[0], b[1], b[2], |rest| == 0);
    DecodeCons(q, rest);
    FirstThree(b);
  }

  /** Decoding undoes encoding, for every byte string. */
  lemma {:induction false} DecodeEncode(b: Bytes)
    ensures Decode(Encode(b)) == Some(b)
    decreases |b|
  {
    if |b| == 1 {
      DecodeLastOfOne(b);
    } else if |b| == 2 {
      DecodeLastOfTwo(b);
    } else if |b| >= 3 {
      DecodeEncode(b[3..]);
      DecodeFullStep(b, Encode(b[3..]));
    }
  }

  /** Distinct byte strings have distinct encodings. */
  lemma EncodeInjective(a: Bytes, b: Bytes)
    requires Encode(a) == Encode(b)
    ensures a == b
  {
    DecodeEncode(a);
    DecodeEncode(b);
  }
}
