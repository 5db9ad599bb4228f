/**
 * The SimURF packet: a 26-byte big-endian header
 *   seq (u32) | src IPv4 (4) | dst IPv4 (4) | timestamp_ns (u64) | length (u16) | crc32 (u32)
 * followed by the payload, whose CRC-32 the header carries.
 */
module PacketFormat {
  import opened Wrappers
  import opened Exceptions
  import opened Digits
  import opened BitCodec
  import opened Inet
  import opened Crc32

  const HeaderSize: nat := 26
  /** The largest UDP payload: 65535 - 8 (UDP header) - 20 (IPv4 header). */
  const MaxPayloadSize: nat := 65507

  /** The fields `unpack` returns. */
  datatype Unpacked = Unpacked(
    seqNum: nat, srcIp: string, dstIp: string, timestampNs: nat, payload: seq<Byte>)

  /** `n` as a big-endian unsigned field of `width` bytes. */
  function Field(n: nat, width: nat): (bs: seq<Byte>)
    ensures |bs| == width
  {
    ToDigits(n, width, 256)
  }

  /** The unsigned value of a big-endian field. */
  function FieldValue(bs: seq<Byte>): nat
  {
    FromDigits(bs, 256)
  }

  lemma FieldRoundTrip(n: nat, width: nat)
    requires n < Pow(256, width)
    ensures FieldValue(Field(n, width)) == n
  {
    FromToDigits(n, width, 256);
  }

  lemma FieldBound(bs: seq<Byte>)
    ensures FieldValue(bs) < Pow(256, |bs|)
  {
    FromDigitsBound(bs, 256);
  }

  /** The validation in `Packet.__post_init__`. */
  function CheckPacket(seqNum: int, payload: seq<Byte>): (r: Option<Exception>)
    ensures r.None? <==> 0 <= seqNum <= 0xFFFF_FFFF && |payload| <= MaxPayloadSize
    ensures r.Some? ==> r.value == ValueError
  {
    if !(0 <= seqNum <= 0xFFFF_FFFF) then Some(ValueError)
    else if |payload| > MaxPayloadSize then Some(ValueError)
    else None
  }

  /** `pack`: validate, then header ‖ payload. */
  function Pack(seqNum: int, srcIp: string, dstIp: string, timestampNs: int, payload: seq<Byte>)
    : (r: Result<seq<Byte>, Exception>)
    ensures r.Ok? <==>
      0 <= seqNum < 0x1_0000_0000 && |payload| <= MaxPayloadSize
      && InetAton(srcIp).Some? && InetAton(dstIp).Some?
      && 0 <= timestampNs < 0x1_0000_0000_0000_0000
    ensures r.Err? && r.error == StructError <==>
      0 <= seqNum < 0x1_0000_0000 && |payload| <= MaxPayloadSize
      && InetAton(srcIp).Some? && InetAton(dstIp).Some?
      && !(0 <= timestampNs < 0x1_0000_0000_0000_0000)
    ensures r.Ok? ==> |r.value| == HeaderSize + |payload| && r.value[HeaderSize..] == payload
  {
    match CheckPacket(seqNum, payload)
    case Some(e) => Err(e)
    case None =>
      match (InetAton(srcIp), InetAton(dstIp))
      case (Some(src), Some(dst)) =>
        if !(0 <= timestampNs < 0x1_0000_0000_0000_0000) then Err(StructError)
        else
          var header := Field(seqNum, 4) + src + dst + Field(timestampNs, 8)
            + Field(|payload|, 2) + Field(Crc(payload), 4);
          Ok(header + payload)
      case _ => Err(ValueError)
  }

  /** `unpack`: parse and check the header, return the fields. */
  function Unpack(data: seq<Byte>): (r: Result<Unpacked, Exception>)
    ensures r.Err? ==> r.error == ValueError
    ensures |data| < HeaderSize ==> r.Err?
    ensures |data| >= HeaderSize && HeaderSize + FieldValue(data[20..22]) > |data| ==> r.Err?
    ensures |data| >= HeaderSize && HeaderSize + FieldValue(data[20..22]) <= |data| ==>
      (r.Ok? <==> Crc(data[HeaderSize..HeaderSize + FieldValue(data[20..22])]) == FieldValue(data[22..26]))
    ensures r.Ok? ==>
      HeaderSize + |r.value.payload| <= |data|
      && r.value.payload == data[HeaderSize..HeaderSize + |r.value.payload|]
      && |r.value.payload| == FieldValue(data[20..22])
      && Crc(r.value.payload) == FieldValue(data[22..26])
  {
    if |data| < HeaderSize then Err(ValueError)
    else
      var length := FieldValue(data[20..22]);
      if HeaderSize + length > |data| then Err(ValueError)
      else
        var payload := data[HeaderSize..HeaderSize + length];
        if Crc(payload) != FieldValue(data[22..26]) then Err(ValueError)
        else
          Ok(Unpacked(FieldValue(data[0..4]), InetNtoa(data[4..8]), InetNtoa(data[8..12]),
                      FieldValue(data[12..20]), payload))
  }

  /** The fields of a 26-byte header followed by a payload, sliced back out at their offsets. */
  lemma HeaderSlices(
    a: seq<Byte>, b: seq<Byte>, c: seq<Byte>, d: seq<Byte>, e: seq<Byte>, f: seq<Byte>, g: seq<Byte>)
    requires |a| == 4 && |b| == 4 && |c| == 4 && |d| == 8 && |e| == 2 && |f| == 4
    ensures var p := a + b + c + d + e + f + g;
      p[0..4] == a && p[4..8] == b && p[8..12] == c && p[12..20] == d
      && p[20..22] == e && p[22..26] == f && p[26..] == g
  {
    var p := a + b + c + d + e + f + g;
    assert p[0..4] == a;
    assert p[4..8] == b;
    assert p[8..12] == c;
    assert p[12..20] == d;
    assert p[20..22] == e;
    assert p[22..26] == f;
  }

  /** The header of a packed packet holds each field big-endian at its offset. */
  lemma PackLayout(seqNum: int, srcIp: string, dstIp: string, timestampNs: int, payload: seq<Byte>)
    requires Pack(seqNum, srcIp, dstIp, timestampNs, payload).Ok?
    ensures var p := Pack(seqNum, srcIp, dstIp, timestampNs, payload).value;
      FieldValue(p[0..4]) == seqNum
      && p[4..8] == InetAton(srcIp).value
      && p[8..12] == InetAton(dstIp).value
      && FieldValue(p[12..20]) == timestampNs
      && FieldValue(p[20..22]) == |payload|
      && FieldValue(p[22..26]) == Crc(payload)
  {
    var p := Pack(seqNum, srcIp, dstIp, timestampNs, payload).value;
    var src, dst := InetAton(srcIp).value, InetAton(dstIp).value;
    var a, e, f, g := Field(seqNum, 4), Field(timestampNs, 8), Field(|payload|, 2), Field(Crc(payload), 4);
    assert p == a + src + dst + e + f + g + payload;
    HeaderSlices(a, src, dst, e, f, g, payload);
    assert Pow(256, 2) == 65536;
    FieldRoundTrip(seqNum, 4);
    FieldRoundTrip(timestampNs, 8);
    FieldRoundTrip(|payload|, 2);
    FieldRoundTrip(Crc(payload), 4);
  }

  /** Unpacking a packed packet returns exactly the fields that were packed. */
  lemma PackUnpack(seqNum: int, srcIp: string, dstIp: string, timestampNs: int, payload: seq<Byte>)
    requires Pack(seqNum, srcIp, dstIp, timestampNs, payload).Ok?
    ensures Unpack(Pack(seqNum, srcIp, dstIp, timestampNs, payload).value)
      == Ok(Unpacked(seqNum, srcIp, dstIp, timestampNs, payload))
  {
    var p := Pack(seqNum, srcIp, dstIp, timestampNs, payload).value;
    PackLayout(seqNum, srcIp, dstIp, timestampNs, payload);
    assert p[HeaderSize..HeaderSize + |payload|] == payload;
    NtoaAton(srcIp);
    NtoaAton(dstIp);
  }

  /** Bytes after the 26 + length bytes of a packet are ignored. */
  lemma UnpackIgnoresTrailer(data: seq<Byte>, extra: seq<Byte>)
    requires Unpack(data).Ok?
    ensures Unpack(data + extra) == Unpack(data)
  {
    var d := data + extra;
    assert d[0..4] == data[0..4] && d[4..8] == data[4..8] && d[8..12] == data[8..12];
    assert d[12..20] == data[12..20] && d[20..22] == data[20..22] && d[22..26] == data[22..26];
    var length := FieldValue(data[20..22]);
    assert d[HeaderSize..HeaderSize + length] == data[HeaderSize..HeaderSize + length];
  }

  /** A well-formed packet with one payload byte changed fails the CRC check. */
  lemma CorruptedPayloadRejected(p: seq<Byte>, payload: seq<Byte>, i: nat, v: Byte)
    requires |p| == HeaderSize + |payload| && p[HeaderSize..] == payload
    requires FieldValue(p[20..22]) == |payload| && FieldValue(p[22..26]) == Crc(payload)
    requires i < |payload| && v != payload[i]
    ensures Unpack(p[HeaderSize + i := v]) == Err(ValueError)
  {
    var q := p[HeaderSize + i := v];
    PayloadChangeKeepsHeader(p, HeaderSize + i, v);
    PayloadChangeSlice(p, payload, i, v);
    SingleByteChangeDetected(payload, i, v);
    ChecksumMismatchRejected(q);
  }

  /** A packet whose payload does not match its checksum field is refused. */
  lemma ChecksumMismatchRejected(q: seq<Byte>)
    requires |q| >= HeaderSize && HeaderSize + FieldValue(q[20..22]) <= |q|
    requires Crc(q[HeaderSize..HeaderSize + FieldValue(q[20..22])]) != FieldValue(q[22..26])
    ensures Unpack(q) == Err(ValueError)
  {
  }

  /** Changing a byte past the header leaves the length and checksum fields alone. */
  lemma PayloadChangeKeepsHeader(p: seq<Byte>, j: nat, v: Byte)
    requires HeaderSize <= j < |p|
    ensures p[j := v][20..22] == p[20..22] && p[j := v][22..26] == p[22..26]
  {
  }

  /** Changing payload byte i of a packet changes byte i of the payload slice. */
  lemma PayloadChangeSlice(p: seq<Byte>, payload: seq<Byte>, i: nat, v: Byte)
    requires |p| == HeaderSize + |payload| && p[HeaderSize..] == payload && i < |payload|
    ensures p[HeaderSize + i := v][HeaderSize..HeaderSize + |payload|] == payload[i := v]
  {
  }

  /** Corrupting any one payload byte of a packed packet makes `unpack` reject it. */
  lemma PayloadCorruptionDetected(
    seqNum: int, srcIp: string, dstIp: string, timestampNs: int, payload: seq<Byte>, i: nat, v: Byte)
    requires Pack(seqNum, srcIp, dstIp, timestampNs, payload).Ok?
    requires i < |payload| && v != payload[i]
    ensures Unpack(Pack(seqNum, srcIp, dstIp, timestampNs, payload).value[HeaderSize + i := v])
      == Err(ValueError)
  {
    PackLayout(seqNum, srcIp, dstIp, timestampNs, payload);
    CorruptedPayloadRejected(Pack(seqNum, srcIp, dstIp, timestampNs, payload).value, payload, i, v);
  }

  lemma PayloadAt(p: seq<Byte>, payload: seq<Byte>, k: nat)
    requires |p| == HeaderSize + |payload| && p[HeaderSize..] == payload && k < |payload|
    ensures p[HeaderSize + k] == payload[k]
  {
    assert p[HeaderSize..][k] == p[HeaderSize + k];
  }

  /** Flipping every bit of the last byte, as the corruption test does, is caught. */
  lemma LastByteFlipDetected(
    seqNum: int, srcIp: string, dstIp: string, timestampNs: int, payload: seq<Byte>)
    requires Pack(seqNum, srcIp, dstIp, timestampNs, payload).Ok? && |payload| > 0
    ensures var p := Pack(seqNum, srcIp, dstIp, timestampNs, payload).value;
      Unpack(p[|p| - 1 := XorByte(p[|p| - 1], 0xFF)]) == Err(ValueError)
  {
    var p := Pack(seqNum, srcIp, dstIp, timestampNs, payload).value;
    var last := |payload| - 1;
    PayloadAt(p, payload, last);
    XorAllOnesChanges(payload[last]);
    PayloadCorruptionDetected(seqNum, srcIp, dstIp, timestampNs, payload, last,
                              XorByte(payload[last], 0xFF));
  }

  /** `calculate_overhead`: total packet size and header share in percent. */
  function CalculateOverhead(payloadSize: int): (r: (int, real))
    ensures r.0 == HeaderSize + payloadSize
    ensures r.0 > 0 ==> r.1 * (r.0 as real) == (HeaderSize * 100) as real && 0.0 < r.1
    ensures payloadSize >= 0 ==> r.1 <= 100.0
    ensures r.0 <= 0 ==> r.1 == 0.0
  {
    var total := HeaderSize + payloadSize;
    if total > 0 then
      var pct := (HeaderSize as real / total as real) * 100.0;
      OverheadShare(total as real);
      (total, pct)
    else (total, 0.0)
  }

  lemma OverheadShare(t: real)
    requires t >= 1.0
    ensures var pct := (HeaderSize as real / t) * 100.0;
      pct * t == 2600.0 && 0.0 < pct <= 2600.0 && (t >= 26.0 ==> pct <= 100.0)
  {
    var q := HeaderSize as real / t;
    assert q * t == 26.0;
    assert q > 0.0;
  }
}
