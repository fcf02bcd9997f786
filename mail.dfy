/** mail.go: transport options and their validation (plainAuth), and the
    Message-ID header value: a version-4 UUID (RFC 4122) and the host name,
    in the msg-id form of section 3.6.4 of RFC 5322. The random source and
    the host name lookup are inputs. */
module Mail {
  import opened Errors

  type byte = bv8

  // ---------------------------------------------------------------------
  // Options and plainAuth
  // ---------------------------------------------------------------------

  datatype Options = Options(host: string, port: string, username: string, password: string)

  /** The arguments smtp.PlainAuth is built from (identity, username,
      password, host); the authenticator itself is not modelled. */
  datatype Credentials = PlainCredentials(identity: string, username: string, password: string, host: string)

  /** plainAuth: username, then password, then host must be non-empty; the
      port is never looked at. */
  function PlainAuth(opt: Options): (r: Result<Credentials>)
    ensures r.Success? <==> opt.username != "" && opt.password != "" && opt.host != ""
    ensures opt.username == "" ==> r == Failure(EmptyUsername)
    ensures opt.username != "" && opt.password == "" ==> r == Failure(EmptyPassword)
    ensures opt.username != "" && opt.password != "" && opt.host == "" ==> r == Failure(EmptyHost)
    ensures r.Success? ==> r.value == PlainCredentials("", opt.username, opt.password, opt.host)
    ensures r != Failure(EmptyPort)
  {
    if opt.username == "" then Failure(EmptyUsername)
    else if opt.password == "" then Failure(EmptyPassword)
    else if opt.host == "" then Failure(EmptyHost)
    else Success(PlainCredentials("", opt.username, opt.password, opt.host))
  }

  // ---------------------------------------------------------------------
  // generateUUID
  // ---------------------------------------------------------------------

  type UuidBytes = b: seq<byte> | |b| == 16
    witness [0, 0, 0, 0, 0, 0, 0, 0, 0, 0, 0, 0, 0, 0, 0, 0]

  /** What crypto/rand gives for the 16-byte buffer: the bytes, or a failure. */
  datatype RandomDraw = Drawn(bytes: UuidBytes) | Unavailable

  /** The version (section 4.4 of RFC 4122) and variant (section 4.1.1) bits. */
  predicate IsVersion4(b: UuidBytes)
  {
    b[6] >> 4 == 4 && b[8] >> 6 == 2
  }

  /** Byte 6 gets high nibble 4, byte 8 gets top bits 10; every other bit of
      the 16 bytes is kept. */
  function WithVersionAndVariant(b: UuidBytes): (r: UuidBytes)
    ensures IsVersion4(r)
    ensures r[6] & 0x0f == b[6] & 0x0f && r[8] & 0x3f == b[8] & 0x3f
    ensures forall i :: 0 <= i < 16 && i != 6 && i != 8 ==> r[i] == b[i]
  {
    b[6 := (b[6] & 0x0f) | 0x40][8 := (b[8] & 0xbf) | 0x80]
  }

  /** Fixing the bits changes nothing exactly when they are already right. */
  lemma VersionFixpoint(b: UuidBytes)
    ensures WithVersionAndVariant(b) == b <==> IsVersion4(b)
  {
    var r := WithVersionAndVariant(b);
    if IsVersion4(b) {
      assert r[6] == b[6] && r[8] == b[8];
      assert forall i :: 0 <= i < 16 ==> r[i] == b[i];
    }
  }

  predicate IsLowerHex(c: char)
  {
    '0' <= c <= '9' || 'a' <= c <= 'f'
  }

  function HexValue(c: char): (r: Option<byte>)
    ensures r.Some? <==> IsLowerHex(c)
    ensures r.Some? ==> r.value < 16
  {
    if '0' <= c <= '9' then Some((c as int - '0' as int) as byte)
    else if 'a' <= c <= 'f' then Some((c as int - 'a' as int + 10) as byte)
    else None
  }

  /** The lower-case hexadecimal digit of a nibble. */
  function HexDigit(n: byte): (c: char)
    requires n < 16
    ensures IsLowerHex(c)
  {
    if n < 10 then ('0' as int + n as int) as char
    else ('a' as int + n as int - 10) as char
  }

  /** Reading a printed digit gives back the nibble. */
  lemma DigitValue(n: byte)
    requires n < 16
    ensures HexValue(HexDigit(n)) == Some(n)
  {
  }

  /** The two lower-case hexadecimal digits of a byte, high nibble first. */
  function HexPair(b: byte): string
  {
    [HexDigit(b >> 4), HexDigit(b & 0x0f)]
  }

  /** fmt's %x on a byte slice: the digit pairs of its bytes in order. */
  function Hex(bs: seq<byte>): (r: string)
    ensures |r| == 2 * |bs|
  {
    if bs == [] then "" else HexPair(bs[0]) + Hex(bs[1..])
  }

  lemma {:induction false} HexIsLower(bs: seq<byte>)
    ensures forall k :: 0 <= k < |Hex(bs)| ==> IsLowerHex(Hex(bs)[k])
  {
    if bs != [] {
      HexIsLower(bs[1..]);
      var t := Hex(bs);
      assert forall k :: 2 <= k < |t| ==> t[k] == Hex(bs[1..])[k - 2];
    }
  }

  /** Two hexadecimal digits per byte back to the bytes. */
  function Unhex(t: string): Option<seq<byte>>
    decreases |t|
  {
    if |t| == 0 then Some([])
    else if |t| == 1 then None
    else
      var hi, lo := HexValue(t[0]), HexValue(t[1]);
      if hi.None? || lo.None? then None
      else match Unhex(t[2..])
        case None => None
        case Some(rest) => Some([Nibbles(hi.value, lo.value)] + rest)
  }

  /** The byte with these high and low nibbles. */
  function Nibbles(hi: byte, lo: byte): byte
  {
    (hi << 4) | lo
  }

  lemma NibblesJoin(b: byte)
    ensures Nibbles(b >> 4, b & 0x0f) == b
  {
  }

  /** A byte's digit pair is read back as that byte. */
  lemma UnhexPair(b: byte, rest: string)
    ensures Unhex(HexPair(b) + rest) == if Unhex(rest).Some? then Some([b] + Unhex(rest).value) else None
  {
    var t := HexPair(b) + rest;
    var hi, lo := b >> 4, b & 0x0f;
    assert HexValue(t[0]) == Some(hi) by {
      assert t[0] == HexDigit(hi);
      DigitValue(hi);
    }
    assert HexValue(t[1]) == Some(lo) by {
      assert t[1] == HexDigit(lo);
      DigitValue(lo);
    }
    assert t[2..] == rest;
    NibblesJoin(b);
  }

  lemma {:induction false} UnhexHex(bs: seq<byte>)
    ensures Unhex(Hex(bs)) == Some(bs)
    decreases |bs|
  {
    if bs != [] {
      UnhexPair(bs[0], Hex(bs[1..]));
      UnhexHex(bs[1..]);
      assert [bs[0]] + bs[1..] == bs;
    }
  }

  /** fmt's "%x-%x-%x-%x-%x" over bytes 0-3, 4-5, 6-7, 8-9 and 10-15. */
  function FormatUuid(b: UuidBytes): (r: string)
    ensures |r| == 36
  {
    Hex(b[0..4]) + "-" + Hex(b[4..6]) + "-" + Hex(b[6..8]) + "-" + Hex(b[8..10]) + "-" + Hex(b[10..])
  }

  /** The 8-4-4-4-12 layout: hyphens at 8, 13, 18 and 23, lower-case
      hexadecimal elsewhere, and the high nibbles of bytes 6 and 8 at 14
      and 19. */
  lemma FormatLayout(b: UuidBytes)
    ensures var r := FormatUuid(b);
      && r[8] == '-' && r[13] == '-' && r[18] == '-' && r[23] == '-'
      && (forall i :: 0 <= i < 36 && i != 8 && i != 13 && i != 18 && i != 23 ==> IsLowerHex(r[i]))
      && r[14] == HexDigit(b[6] >> 4) && r[19] == HexDigit(b[8] >> 4)
  {
    var r := FormatUuid(b);
    FormatSlices(b);
    HexGroup(r, 0, b[0..4]);
    HexGroup(r, 9, b[4..6]);
    HexGroup(r, 14, b[6..8]);
    HexGroup(r, 19, b[8..10]);
    HexGroup(r, 24, b[10..]);
  }

  /** A group printed by %x at offset lo: all lower-case hexadecimal, and
      its first digit is the high nibble of its first byte. */
  lemma HexGroup(r: string, lo: nat, bs: seq<byte>)
    requires |bs| > 0 && lo + 2 * |bs| <= |r| && r[lo..lo + 2 * |bs|] == Hex(bs)
    ensures forall i :: lo <= i < lo + 2 * |bs| ==> IsLowerHex(r[i])
    ensures r[lo] == HexDigit(bs[0] >> 4)
  {
    var h := Hex(bs);
    HexIsLower(bs);
    forall i | lo <= i < lo + 2 * |bs|
      ensures IsLowerHex(r[i])
    {
      assert r[i] == h[i - lo];
    }
    HexFirst(bs);
    assert r[lo] == h[0];
  }

  lemma HexFirst(bs: seq<byte>)
    requires |bs| > 0
    ensures Hex(bs)[0] == HexDigit(bs[0] >> 4)
  {
  }

  /** The five hexadecimal groups of FormatUuid and the hyphens between them. */
  lemma FormatSlices(b: UuidBytes)
    ensures var t := FormatUuid(b);
      && t[8] == '-' && t[13] == '-' && t[18] == '-' && t[23] == '-'
      && t[..8] == Hex(b[0..4]) && t[9..13] == Hex(b[4..6]) && t[14..18] == Hex(b[6..8])
      && t[19..23] == Hex(b[8..10]) && t[24..] == Hex(b[10..])
  {
    HyphenGroups(Hex(b[0..4]), Hex(b[4..6]), Hex(b[6..8]), Hex(b[8..10]), Hex(b[10..]));
  }

  /** Five groups of 8, 4, 4, 4 and 12 characters joined by hyphens. */
  lemma HyphenGroups(h0: string, h1: string, h2: string, h3: string, h4: string)
    requires |h0| == 8 && |h1| == 4 && |h2| == 4 && |h3| == 4 && |h4| == 12
    ensures var t := h0 + "-" + h1 + "-" + h2 + "-" + h3 + "-" + h4;
      && t[8] == '-' && t[13] == '-' && t[18] == '-' && t[23] == '-'
      && t[..8] == h0 && t[9..13] == h1 && t[14..18] == h2 && t[19..23] == h3 && t[24..] == h4
  {
    var t1 := h0 + "-";
    var t2 := t1 + h1 + "-";
    var t3 := t2 + h2 + "-";
    var t4 := t3 + h3 + "-";
    var t := t4 + h4;
    assert t[..8] == h0 && t[8] == '-';
    assert t[9..13] == h1 && t[13] == '-';
    assert t[14..18] == h2 && t[18] == '-';
    assert t[19..23] == h3 && t[23] == '-';
    assert t[24..] == h4;
  }

  /** Reads a UUID in the 8-4-4-4-12 layout back into its 16 bytes: drop
      the four hyphens and read the 32 digits. */
  function ParseUuid(t: string): Option<UuidBytes>
  {
    if |t| != 36 || t[8] != '-' || t[13] != '-' || t[18] != '-' || t[23] != '-' then None
    else match Unhex(t[..8] + t[9..13] + t[14..18] + t[19..23] + t[24..])
      case Some(bs) => if |bs| == 16 then Some(bs) else None
      case None => None
  }

  lemma {:induction false} HexAppend(a: seq<byte>, b: seq<byte>)
    ensures Hex(a + b) == Hex(a) + Hex(b)
    decreases |a|
  {
    if a == [] {
      assert a + b == b;
    } else {
      assert (a + b)[0] == a[0];
      assert (a + b)[1..] == a[1..] + b;
      HexAppend(a[1..], b);
    }
  }

  /** The five groups of FormatUuid sit between the hyphens. */
  lemma FormatGroups(b: UuidBytes)
    ensures var t := FormatUuid(b);
      && t[8] == '-' && t[13] == '-' && t[18] == '-' && t[23] == '-'
      && t[..8] + t[9..13] + t[14..18] + t[19..23] + t[24..]
         == Hex(b[0..4]) + Hex(b[4..6]) + Hex(b[6..8]) + Hex(b[8..10]) + Hex(b[10..])
  {
    FormatSlices(b);
  }

  /** Hexadecimal of the five groups is hexadecimal of the whole. */
  lemma GroupsHex(b: UuidBytes)
    ensures Hex(b[0..4]) + Hex(b[4..6]) + Hex(b[6..8]) + Hex(b[8..10]) + Hex(b[10..]) == Hex(b)
  {
    HexAppend(b[0..4], b[4..6]);
    HexAppend(b[0..4] + b[4..6], b[6..8]);
    HexAppend(b[0..4] + b[4..6] + b[6..8], b[8..10]);
    HexAppend(b[0..4] + b[4..6] + b[6..8] + b[8..10], b[10..]);
    assert b[0..4] + b[4..6] + b[6..8] + b[8..10] + b[10..] == b;
  }

  /** The formatted UUID determines its bytes: parsing gives them back. */
  lemma ParseFormat(b: UuidBytes)
    ensures ParseUuid(FormatUuid(b)) == Some(b)
  {
    FormatGroups(b);
    GroupsHex(b);
    UnhexHex(b);
  }

  /** What generateUUID returns: the formatted, bit-fixed bytes, or "" when
      the random source fails. */
  function UuidText(draw: RandomDraw): string
  {
    match draw
    case Drawn(b) => FormatUuid(WithVersionAndVariant(b))
    case Unavailable => ""
  }

  /** generateUUID: fill a 16-byte buffer from the random source, fix the
      version and variant bits in place, format. */
  method GenerateUuid(draw: RandomDraw) returns (id: string, err: Option<Error>)
    ensures id == UuidText(draw)
    ensures err == (if draw.Unavailable? then Some(RandomSourceFailed) else None)
  {
    if draw.Unavailable? {
      return "", Some(RandomSourceFailed);
    }
    var uuid := new byte[16](i requires 0 <= i < 16 => draw.bytes[i]);
    uuid[6] := (uuid[6] & 0x0f) | 0x40;
    uuid[8] := (uuid[8] & 0xbf) | 0x80;
    assert uuid[..] == WithVersionAndVariant(draw.bytes);
    id := FormatUuid(uuid[..]);
    err := None;
  }

  /** The generated UUID is a well-formed version-4 UUID string: 36
      characters, hyphens at 8, 13, 18 and 23, lower-case hexadecimal
      elsewhere, '4' at 14 and one of 8, 9, a, b at 19. */
  lemma UuidLayout(b: UuidBytes)
    ensures var u := UuidText(Drawn(b));
      && |u| == 36
      && u[8] == '-' && u[13] == '-' && u[18] == '-' && u[23] == '-'
      && (forall i :: 0 <= i < 36 && i != 8 && i != 13 && i != 18 && i != 23 ==> IsLowerHex(u[i]))
      && u[14] == '4'
      && u[19] in "89ab"
      && ParseUuid(u) == Some(WithVersionAndVariant(b))
  {
    var r := WithVersionAndVariant(b);
    FormatLayout(r);
    var n := r[8] >> 4;
    assert n == 8 || n == 9 || n == 10 || n == 11;
    ParseFormat(r);
  }

  // ---------------------------------------------------------------------
  // generateMessageID
  // ---------------------------------------------------------------------

  /** os.Hostname's answer, or "localhost" when the lookup fails. */
  function HostName(lookup: Option<string>): string
  {
    if lookup.Some? then lookup.value else "localhost"
  }

  /** The Message-ID header value: "<" uuid "@" host ">". */
  function MessageIdText(lookup: Option<string>, draw: RandomDraw): string
  {
    "<" + UuidText(draw) + "@" + HostName(lookup) + ">"
  }

  /** generateMessageID: a failed UUID is reported and then used as "". */
  method GenerateMessageId(lookup: Option<string>, draw: RandomDraw) returns (id: string)
    ensures id == MessageIdText(lookup, draw)
  {
    var hostname := "localhost";
    if lookup.Some? {
      hostname := lookup.value;
    }
    var uuid, _ := GenerateUuid(draw);
    id := "<" + uuid + "@" + hostname + ">";
  }

  /** The Message-ID shape: angle brackets around a version-4 UUID, an '@'
      and the host (or "localhost"); with a failed random source the UUID
      part is empty. */
  lemma MessageIdShape(lookup: Option<string>, draw: RandomDraw)
    ensures var id := MessageIdText(lookup, draw);
      && |id| >= 3 && id[0] == '<' && id[|id| - 1] == '>'
      && (draw.Drawn? ==>
            |id| == 39 + |HostName(lookup)| && id[37] == '@'
            && ParseUuid(id[1..37]) == Some(WithVersionAndVariant(draw.bytes))
            && id[38..|id| - 1] == HostName(lookup))
      && (draw.Unavailable? ==> id == "<@" + HostName(lookup) + ">")
      && (lookup.None? ==> id[|id| - 10..|id| - 1] == "localhost")
  {
    var u := UuidText(draw);
    var h := HostName(lookup);
    BracketLayout(u, h);
    if draw.Drawn? {
      ParseFormat(WithVersionAndVariant(draw.bytes));
    }
  }

  /** Where the parts of "<" u "@" h ">" sit. */
  lemma BracketLayout(u: string, h: string)
    ensures var id := "<" + u + "@" + h + ">";
      && |id| == |u| + |h| + 3 && id[0] == '<' && id[|id| - 1] == '>'
      && id[1..|u| + 1] == u && id[|u| + 1] == '@' && id[|u| + 2..|id| - 1] == h
  {
    var id := "<" + u + "@" + h + ">";
    assert id[1..|u| + 1] == u;
    assert id[|u| + 2..|id| - 1] == h;
  }
}
