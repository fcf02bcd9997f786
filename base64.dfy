/** Attachment payload encoding: standard padded base64 (section 4 of
    RFC 4648) followed by base64LineBreaker, which cuts the encoded stream
    into lines of at most 76 characters separated by CRLF (section 6.8 of
    RFC 2045). */
module Base64 {
  import opened Errors
  import opened Sequences

  type byte = bv8

  /** The longest line RFC 2045 allows for base64 content. */
  const LineLength: nat := 76
  const CR: byte := 13
  const LF: byte := 10
  const Crlf: seq<byte> := [CR, LF]

  // ---------------------------------------------------------------------
  // The line breaker
  // ---------------------------------------------------------------------

  /** The wrapped stream: a 76-byte line, CRLF, and the rest wrapped alike. */
  function Wrapped(s: seq<byte>): seq<byte>
    decreases |s|
  {
    if |s| <= LineLength then s
    else s[..LineLength] + Crlf + Wrapped(s[LineLength..])
  }

  /** base64LineBreaker: while more than 76 bytes are left, write the next
      76 and a CRLF into the buffer; then write what is left. */
  method LineBreak(s: seq<byte>) returns (out: seq<byte>)
    ensures out == Wrapped(s)
    ensures |s| <= LineLength ==> out == s
  {
    var buf: seq<byte> := [];
    var rest := s;
    while |rest| > LineLength
      invariant buf + Wrapped(rest) == Wrapped(s)
      decreases |rest|
    {
      buf := buf + rest[..LineLength] + Crlf;
      rest := rest[LineLength..];
    }
    out := buf + rest;
  }

  /** Number of CRLFs inserted for an input of n bytes: max(0, ceil(n/76) - 1). */
  function Breaks(n: nat): nat
  {
    if n == 0 then 0 else (n - 1) / LineLength
  }

  /** The lines the wrapper produces: full 76-byte lines and a last, shorter
      or equal, one; together they are the input. */
  function Chunks(s: seq<byte>): (r: seq<seq<byte>>)
    ensures |r| == Breaks(|s|) + 1
    ensures Concat(r) == s
    ensures forall k :: 0 <= k < |r| - 1 ==> |r[k]| == LineLength
    ensures |r[|r| - 1]| <= LineLength
    ensures |s| > 0 ==> |r[|r| - 1]| > 0
    decreases |s|
  {
    if |s| <= LineLength then [s]
    else [s[..LineLength]] + Chunks(s[LineLength..])
  }

  /** The output is the chunks joined with CRLF: nothing else is inserted and
      no CRLF trails the last line. */
  lemma {:induction false} WrappedIsJoin(s: seq<byte>)
    ensures Wrapped(s) == Join(Chunks(s), Crlf)
    decreases |s|
  {
    if |s| > LineLength {
      WrappedIsJoin(s[LineLength..]);
      JoinCons(s[..LineLength], Chunks(s[LineLength..]), Crlf);
    }
  }

  /** Cut at every CRLF, the output gives back exactly the chunks (when the
      input holds no CR of its own, as base64 text never does). */
  lemma WrappedLines(s: seq<byte>)
    requires CR !in s
    ensures Split(Wrapped(s), Crlf) == Chunks(s)
  {
    var xs := Chunks(s);
    forall k | 0 <= k < |xs| ensures CR !in xs[k] {
      ChunkInInput(s, k);
    }
    WrappedIsJoin(s);
    SplitJoin(xs, Crlf);
  }

  lemma {:induction false} ChunkInInput(s: seq<byte>, k: nat)
    requires k < |Chunks(s)|
    ensures forall b :: b in Chunks(s)[k] ==> b in s
    decreases |s|
  {
    if |s| > LineLength && k > 0 {
      ChunkInInput(s[LineLength..], k - 1);
    }
  }

  /** Length of the output: the input plus two bytes per inserted CRLF. */
  lemma {:induction false} WrappedLength(s: seq<byte>)
    ensures |Wrapped(s)| == |s| + 2 * Breaks(|s|)
    decreases |s|
  {
    if |s| > LineLength {
      WrappedLength(s[LineLength..]);
    }
  }

  /** Removes the CRLF after every full 76-byte line: the inverse of Wrapped. */
  function Unwrap(t: seq<byte>): seq<byte>
    decreases |t|
  {
    if |t| > LineLength + 2 && t[LineLength..LineLength + 2] == Crlf
    then t[..LineLength] + Unwrap(t[LineLength + 2..])
    else t
  }

  /** Deleting the inserted CRLFs gives back the input, in order. */
  lemma {:induction false} UnwrapWrapped(s: seq<byte>)
    ensures Unwrap(Wrapped(s)) == s
    decreases |s|
  {
    if |s| > LineLength {
      var t := Wrapped(s);
      var w := Wrapped(s[LineLength..]);
      WrappedLength(s[LineLength..]);
      assert t == s[..LineLength] + Crlf + w;
      assert t[LineLength..LineLength + 2] == Crlf;
      assert t[..LineLength] == s[..LineLength];
      assert t[LineLength + 2..] == w;
      UnwrapWrapped(s[LineLength..]);
      assert s == s[..LineLength] + s[LineLength..];
    }
  }

  // ---------------------------------------------------------------------
  // Standard padded base64 (section 4 of RFC 4648)
  // ---------------------------------------------------------------------

  const Pad: byte := 61  // '='

  /** The ASCII code of the base64 digit for a 6-bit value (A-Z a-z 0-9 + /). */
  function EncodeDigit(c: byte): (r: byte)
    requires c < 64
    ensures r != Pad && r != CR && r != LF
    ensures DecodeDigit(r) == Some(c)
  {
    if c < 26 then c + 65
    else if c < 52 then c + 71
    else if c < 62 then c - 4
    else if c == 62 then 43
    else 47
  }

  /** The 6-bit value of a base64 digit, if it is one. */
  function DecodeDigit(a: byte): (r: Option<byte>)
    ensures r.Some? ==> r.value < 64
  {
    if 65 <= a <= 90 then Some(a - 65)
    else if 97 <= a <= 122 then Some(a - 71)
    else if 48 <= a <= 57 then Some(a + 4)
    else if a == 43 then Some(62)
    else if a == 47 then Some(63)
    else None
  }

  predicate IsBase64Char(a: byte)
  {
    DecodeDigit(a).Some? || a == Pad
  }

  /** Three bytes become four digits, most significant bits first. */
  function Quantum(b0: byte, b1: byte, b2: byte): seq<byte>
  {
    [EncodeDigit(b0 >> 2), EncodeDigit(((b0 & 3) << 4) | (b1 >> 4)),
     EncodeDigit(((b1 & 15) << 2) | (b2 >> 6)), EncodeDigit(b2 & 63)]
  }

  /** base64.StdEncoding.Encode: full groups of three, then a padded tail. */
  function Encode(s: seq<byte>): (r: seq<byte>)
    ensures |r| == 4 * ((|s| + 2) / 3)
    ensures forall k :: 0 <= k < |r| ==> IsBase64Char(r[k])
    decreases |s|
  {
    if |s| == 0 then []
    else if |s| == 1 then
      [EncodeDigit(s[0] >> 2), EncodeDigit((s[0] & 3) << 4), Pad, Pad]
    else if |s| == 2 then
      [EncodeDigit(s[0] >> 2), EncodeDigit(((s[0] & 3) << 4) | (s[1] >> 4)),
       EncodeDigit((s[1] & 15) << 2), Pad]
    else Quantum(s[0], s[1], s[2]) + Encode(s[3..])
  }

  /** The bytes carried by four, three or two 6-bit digits. */
  function Bytes3(c0: byte, c1: byte, c2: byte, c3: byte): seq<byte>
  {
    [(c0 << 2) | (c1 >> 4), (c1 << 4) | (c2 >> 2), (c2 << 6) | c3]
  }

  function Bytes2(c0: byte, c1: byte, c2: byte): seq<byte>
  {
    [(c0 << 2) | (c1 >> 4), (c1 << 4) | (c2 >> 2)]
  }

  function Bytes1(c0: byte, c1: byte): seq<byte>
  {
    [(c0 << 2) | (c1 >> 4)]
  }

  /** One group of four digits; `last` allows padding in it. */
  function DecodeQuantum(q: seq<byte>, last: bool): Option<seq<byte>>
    requires |q| == 4
  {
    var c0, c1, c2, c3 := DecodeDigit(q[0]), DecodeDigit(q[1]), DecodeDigit(q[2]), DecodeDigit(q[3]);
    if c0.None? || c1.None? then None
    else if last && q[2] == Pad && q[3] == Pad then Some(Bytes1(c0.value, c1.value))
    else if last && q[3] == Pad then
      if c2.None? then None else Some(Bytes2(c0.value, c1.value, c2.value))
    else if c2.None? || c3.None? then None
    else Some(Bytes3(c0.value, c1.value, c2.value, c3.value))
  }

  /** Reference decoder: groups of four digits, padding only in the last. */
  function Decode(t: seq<byte>): Option<seq<byte>>
    decreases |t|
  {
    if |t| == 0 then Some([])
    else if |t| < 4 then None
    else match DecodeQuantum(t[..4], |t| == 4)
      case None => None
      case Some(bs) =>
        match Decode(t[4..])
        case None => None
        case Some(rest) => Some(bs + rest)
  }

  lemma QuantumRoundTrip(b0: byte, b1: byte, b2: byte, last: bool)
    ensures DecodeQuantum(Quantum(b0, b1, b2), last) == Some([b0, b1, b2])
  {
    var c0, c1, c2, c3 := b0 >> 2, ((b0 & 3) << 4) | (b1 >> 4), ((b1 & 15) << 2) | (b2 >> 6), b2 & 63;
    var q := Quantum(b0, b1, b2);
    assert DecodeDigit(q[0]) == Some(c0) && DecodeDigit(q[1]) == Some(c1);
    assert DecodeDigit(q[2]) == Some(c2) && DecodeDigit(q[3]) == Some(c3);
    assert q[3] != Pad;
    assert Bytes3(c0, c1, c2, c3) == [b0, b1, b2];
  }

  lemma OneDigitDecode(c0: byte, c1: byte)
    requires c0 < 64 && c1 < 64
    ensures DecodeQuantum([EncodeDigit(c0), EncodeDigit(c1), Pad, Pad], true) == Some(Bytes1(c0, c1))
  {
    var q := [EncodeDigit(c0), EncodeDigit(c1), Pad, Pad];
    assert DecodeDigit(q[0]) == Some(c0) && DecodeDigit(q[1]) == Some(c1);
    assert q[2] == Pad && q[3] == Pad;
  }

  lemma OneByteRoundTrip(b0: byte)
    ensures DecodeQuantum(Encode([b0]), true) == Some([b0])
  {
    var c0, c1 := b0 >> 2, (b0 & 3) << 4;
    assert c0 < 64 && c1 < 64;
    assert Encode([b0]) == [EncodeDigit(c0), EncodeDigit(c1), Pad, Pad];
    OneDigitDecode(c0, c1);
    assert Bytes1(c0, c1) == [b0];
  }

  lemma TwoBytesBits(b0: byte, b1: byte)
    ensures Bytes2(b0 >> 2, ((b0 & 3) << 4) | (b1 >> 4), (b1 & 15) << 2) == [b0, b1]
  {
  }

  lemma TwoDigitsDecode(c0: byte, c1: byte, c2: byte)
    requires c0 < 64 && c1 < 64 && c2 < 64
    ensures DecodeQuantum([EncodeDigit(c0), EncodeDigit(c1), EncodeDigit(c2), Pad], true)
         == Some(Bytes2(c0, c1, c2))
  {
    var q := [EncodeDigit(c0), EncodeDigit(c1), EncodeDigit(c2), Pad];
    assert DecodeDigit(q[0]) == Some(c0) && DecodeDigit(q[1]) == Some(c1);
    assert DecodeDigit(q[2]) == Some(c2) && q[2] != Pad && q[3] == Pad;
  }

  lemma TwoBytesRoundTrip(b0: byte, b1: byte)
    ensures DecodeQuantum(Encode([b0, b1]), true) == Some([b0, b1])
  {
    var c0, c1, c2 := b0 >> 2, ((b0 & 3) << 4) | (b1 >> 4), (b1 & 15) << 2;
    assert c0 < 64 && c1 < 64 && c2 < 64;
    assert Encode([b0, b1]) == [EncodeDigit(c0), EncodeDigit(c1), EncodeDigit(c2), Pad];
    TwoDigitsDecode(c0, c1, c2);
    TwoBytesBits(b0, b1);
  }

  /** Four digits alone decode as the last quantum. */
  lemma DecodeLast(t: seq<byte>)
    requires |t| == 4
    ensures Decode(t) == DecodeQuantum(t, true)
  {
    assert t[..4] == t;
    match DecodeQuantum(t, true)
    case None =>
    case Some(bs) =>
      assert t[4..] == [];
      assert bs + [] == bs;
  }

  /** A final group of one or two bytes survives encoding and decoding. */
  lemma TailRoundTrip(s: seq<byte>)
    requires 1 <= |s| <= 2
    ensures Decode(Encode(s)) == Some(s)
  {
    if |s| == 1 {
      assert s == [s[0]];
      OneByteRoundTrip(s[0]);
    } else {
      assert s == [s[0], s[1]];
      TwoBytesRoundTrip(s[0], s[1]);
    }
    DecodeLast(Encode(s));
  }

  /** Decoding undoes encoding. */
  lemma {:induction false} DecodeEncode(s: seq<byte>)
    ensures Decode(Encode(s)) == Some(s)
    decreases |s|
  {
    var t := Encode(s);
    if 1 <= |s| <= 2 {
      TailRoundTrip(s);
    } else if |s| >= 3 {
      var q := Quantum(s[0], s[1], s[2]);
      var rest := Encode(s[3..]);
      assert t == q + rest;
      assert t[..4] == q && t[4..] == rest;
      QuantumRoundTrip(s[0], s[1], s[2], |t| == 4);
      DecodeEncode(s[3..]);
      assert [s[0], s[1], s[2]] + s[3..] == s;
    }
  }

  /** The attachment payload of SetAttachment: encoded, then wrapped. It is
      4 * ceil(n/3) digits before wrapping, its CRLF-separated lines are the
      76-byte chunks of the encoding, and removing the line breaks and
      decoding gives back the file bytes. */
  lemma AttachmentPayload(data: seq<byte>)
    ensures |Encode(data)| == 4 * ((|data| + 2) / 3)
    ensures Split(Wrapped(Encode(data)), Crlf) == Chunks(Encode(data))
    ensures Decode(Unwrap(Wrapped(Encode(data)))) == Some(data)
  {
    var enc := Encode(data);
    assert CR !in enc;
    WrappedLines(enc);
    UnwrapWrapped(enc);
    DecodeEncode(data);
  }
}
