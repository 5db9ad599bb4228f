/**
 * The traffic sender: test payloads of three kinds ("data" with a 16-byte
 * header the traffic receiver parses, "text", and a byte "pattern"), and
 * the send loop's sequence and packet counters. The clock and the random
 * bytes are parameters; the socket send is an outcome per loop iteration.
 */
module TrafficSender {
  import opened Wrappers
  import opened Exceptions
  import opened Digits
  import opened BitCodec
  import opened PacketFormat
  import opened Text
  import Utf8
  import opened TrafficReceiver

  /** `str(n)` for any integer. */
  function IntString(n: int): string
  {
    if n < 0 then "-" + Decimal(-n) else Decimal(n)
  }

  /** The text payload's message, given the formatted clock reading. */
  function Message(seqNum: int, now: string): string
  {
    "Packet " + IntString(seqNum) + " sent at " + now
  }

  function Repeat<T>(x: T, n: nat): (r: seq<T>)
    ensures |r| == n && forall k :: 0 <= k < n ==> r[k] == x
  {
    if n == 0 then [] else Repeat(x, n - 1) + [x]
  }

  /** The message padded with 'X' up to 20 characters short of the payload size. */
  function PaddedText(message: string, payloadSize: int): (t: string)
    ensures |t| == if payloadSize - 20 > |message| then payloadSize - 20 else |message|
    ensures t[..|message|] == message
    ensures forall k :: |message| <= k < |t| ==> t[k] == 'X'
  {
    var n := payloadSize - |message| - 20;
    message + Repeat('X', if n > 0 then n else 0)
  }

  /** The 256-byte block 0, 1, ..., 255. */
  function PatternBlock(): (block: seq<Byte>)
    ensures |block| == 256 && forall k :: 0 <= k < 256 ==> block[k] == k
  {
    seq(256, k requires 0 <= k < 256 => k)
  }

  function Blocks(n: nat): (r: seq<Byte>)
    ensures |r| == 256 * n
    ensures forall k :: 0 <= k < |r| ==> r[k] == k % 256
  {
    if n == 0 then []
    else
      var init := Blocks(n - 1);
      var r := init + PatternBlock();
      assert forall k :: |init| <= k < |r| ==> r[k] == k % 256 by {
        forall k | |init| <= k < |r|
          ensures r[k] == k % 256
        {
          DivModOfSum(n - 1, k - |init|, 256);
          assert k == (n - 1) * 256 + (k - |init|);
        }
      }
      r
  }

  /**
   * The pattern payload: whole blocks, then the first `size % 256` bytes of
   * one more. Python's `//` and `%` floor, so a negative size gives no whole
   * block and a partial block of `size % 256` bytes.
   */
  function PatternPayload(payloadSize: int): (p: seq<Byte>)
    ensures |p| == if payloadSize >= 0 then payloadSize else payloadSize % 256
    ensures forall k :: 0 <= k < |p| ==> p[k] == k % 256
  {
    var repeats := if payloadSize >= 0 then payloadSize / 256 else 0;
    var whole := Blocks(repeats);
    var p := whole + PatternBlock()[..payloadSize % 256];
    assert forall k :: |whole| <= k < |p| ==> p[k] == k % 256 by {
      forall k | |whole| <= k < |p|
        ensures p[k] == k % 256
      {
        DivModOfSum(repeats, k - |whole|, 256);
        assert k == repeats * 256 + (k - |whole|);
      }
    }
    p
  }

  /** The three payload kinds and their 16-byte header fields' ranges. */
  predicate HeaderFits(seqNum: int, timestampUs: int, payloadSize: int)
  {
    0 <= seqNum < Pow(256, 4) && 0 <= timestampUs < Pow(256, 8) && 0 <= payloadSize < Pow(256, 4)
  }

  /**
   * The "data" kind of `generate_payload`: the big-endian header (sequence
   * number, timestamp in µs, payload size) and `payloadSize - 16` random
   * bytes. A field out of range is a struct error, a size below 16 a
   * ValueError (a negative random-byte count).
   */
  function DataPayload(seqNum: int, payloadSize: int, timestampUs: int, random: seq<Byte>): (r: Result<seq<Byte>, Exception>)
    requires payloadSize >= TestHeaderSize ==> |random| == payloadSize - TestHeaderSize
    ensures r == Err(StructError) <==> !HeaderFits(seqNum, timestampUs, payloadSize)
    ensures r == Err(ValueError) <==> HeaderFits(seqNum, timestampUs, payloadSize) && payloadSize < TestHeaderSize
    ensures r.Ok? ==> |r.value| == payloadSize && r.value[TestHeaderSize..] == random
  {
    if !HeaderFits(seqNum, timestampUs, payloadSize) then Err(StructError)
    else if payloadSize < TestHeaderSize then Err(ValueError)
    else Ok(Field(seqNum, 4) + Field(timestampUs, 8) + Field(payloadSize, 4) + random)
  }

  /**
   * `generate_payload`. A "data" payload is the big-endian header (sequence
   * number, timestamp in µs, payload size) and `payloadSize - 16` random
   * bytes: a field out of range is a struct error, a size below 16 a
   * ValueError (a negative random-byte count). A "text" payload is the padded
   * message in UTF-8; a "pattern" payload counts bytes modulo 256. Any other
   * kind leaves the payload unassigned.
   */
  function GeneratePayload(seqNum: int, payloadType: string, payloadSize: int,
                           timestampUs: int, now: string, random: seq<Byte>): (r: Result<seq<Byte>, Exception>)
    requires payloadType == "data" && payloadSize >= TestHeaderSize ==> |random| == payloadSize - TestHeaderSize
    ensures payloadType == "data" ==>
      (r == Err(StructError) <==> !HeaderFits(seqNum, timestampUs, payloadSize))
      && (r == Err(ValueError) <==> HeaderFits(seqNum, timestampUs, payloadSize) && payloadSize < TestHeaderSize)
      && (r.Ok? ==> |r.value| == payloadSize && r.value[TestHeaderSize..] == random)
    ensures payloadType == "text" ==>
      r.Ok? && r.value == Utf8.Encode(PaddedText(Message(seqNum, now), payloadSize)) && Utf8.Valid(r.value)
    ensures payloadType == "pattern" ==> r.Ok? && r.value == PatternPayload(payloadSize)
    ensures payloadType !in {"data", "text", "pattern"} ==> r == Err(UnboundLocalError)
  {
    if payloadType == "data" then DataPayload(seqNum, payloadSize, timestampUs, random)
    else if payloadType == "text" then
      Utf8.EncodeValid(PaddedText(Message(seqNum, now), payloadSize));
      Ok(Utf8.Encode(PaddedText(Message(seqNum, now), payloadSize)))
    else if payloadType == "pattern" then Ok(PatternPayload(payloadSize))
    else Err(UnboundLocalError)
  }

  /** The receiver reads back the sequence number, timestamp and size a data payload carries. */
  lemma DataPayloadParses(seqNum: int, payloadSize: int, timestampUs: int, random: seq<Byte>)
    requires payloadSize >= TestHeaderSize ==> |random| == payloadSize - TestHeaderSize
    requires DataPayload(seqNum, payloadSize, timestampUs, random).Ok?
    ensures ParsePacket(DataPayload(seqNum, payloadSize, timestampUs, random).value)
            == PacketInfo(Some(seqNum), Some(timestampUs), payloadSize, random)
  {
    var p := DataPayload(seqNum, payloadSize, timestampUs, random).value;
    assert p[..4] == Field(seqNum, 4);
    assert p[4..12] == Field(timestampUs, 8);
    assert p[12..16] == Field(payloadSize, 4);
    FieldRoundTrip(seqNum, 4);
    FieldRoundTrip(timestampUs, 8);
    FieldRoundTrip(payloadSize, 4);
  }

  /** One iteration of the send loop: the clock, the random bytes, and whether the send succeeded. */
  datatype Attempt = Attempt(timestampUs: int, random: seq<Byte>, delivered: bool)

  /** The attempts among the first n whose `sendto` succeeded, in order. */
  function Deliveries(attempts: seq<Attempt>, n: nat): (d: seq<Attempt>)
    requires n <= |attempts|
    ensures |d| <= n
    ensures forall k :: 0 <= k < |d| ==> d[k].delivered
  {
    if n == 0 then []
    else if attempts[n - 1].delivered then Deliveries(attempts, n - 1) + [attempts[n - 1]]
    else Deliveries(attempts, n - 1)
  }

  /** The deliveries among the first i attempts begin the deliveries among the first j. */
  lemma {:induction false} DeliveriesPrefix(attempts: seq<Attempt>, i: nat, j: nat)
    requires i <= j <= |attempts|
    ensures Deliveries(attempts, i) <= Deliveries(attempts, j)
    decreases j
  {
    if i < j {
      DeliveriesPrefix(attempts, i, j - 1);
    }
  }

  class WirelessSender {
    const payloadSize: int
    var sequenceNumber: nat

    constructor(payloadSize: int)
      ensures this.payloadSize == payloadSize && sequenceNumber == 0
    {
      this.payloadSize := payloadSize;
      sequenceNumber := 0;
    }

    /**
     * `send_traffic` with a packet limit, over the given loop iterations. A
     * failed send is reported and retried with the same number; a successful
     * one advances the sequence number and the sent count together. The loop
     * stops at the limit, or when the iterations run out; a payload error is
     * raised out of the loop.
     */
    method SendTraffic(numPackets: nat, attempts: seq<Attempt>) returns (r: Result<nat, Exception>, sent: seq<seq<Byte>>)
      requires numPackets > 0
      requires payloadSize >= TestHeaderSize ==>
        forall i :: 0 <= i < |attempts| ==> |attempts[i].random| == payloadSize - TestHeaderSize
      modifies this
      ensures sequenceNumber == old(sequenceNumber) + |sent| && |sent| <= numPackets
      ensures r.Ok? ==> r.value == |sent|
      ensures r.Ok? ==> |sent| == (if numPackets < |Deliveries(attempts, |attempts|)| then numPackets
                                   else |Deliveries(attempts, |attempts|)|)
      ensures SentFrom(sent, Deliveries(attempts, |attempts|), old(sequenceNumber), payloadSize)
      ensures Numbered(sent, old(sequenceNumber))
      ensures r.Err? ==> |sent| < numPackets
      ensures r.Err? ==>
        exists i :: 0 <= i < |attempts| && |Deliveries(attempts, i)| == |sent|
                    && DataPayload(old(sequenceNumber) + |sent|, payloadSize,
                                   attempts[i].timestampUs, attempts[i].random) == Err(r.error)
      ensures r.Err? ==> r.error == StructError || r.error == ValueError
    {
      sent := [];
      var packetsSent: nat := 0;
      var i := 0;
      while i < |attempts| && packetsSent < numPackets
        invariant 0 <= i <= |attempts|
        invariant packetsSent == |sent| <= numPackets
        invariant sequenceNumber == old(sequenceNumber) + |sent|
        invariant |sent| == |Deliveries(attempts, i)|
        invariant SentFrom(sent, Deliveries(attempts, i), old(sequenceNumber), payloadSize)
      {
        var a := attempts[i];
        var payload := DataPayload(sequenceNumber, payloadSize, a.timestampUs, a.random);
        if payload.Err? {
          SentFromPrefix(attempts, i, sent, old(sequenceNumber), payloadSize);
          return Err(payload.error), sent;
        }
        if a.delivered {
          SentFromAppend(sent, Deliveries(attempts, i), old(sequenceNumber), payloadSize, a, payload.value);
          sent := sent + [payload.value];
          sequenceNumber := sequenceNumber + 1;
          packetsSent := packetsSent + 1;
        }
        i := i + 1;
      }
      SentFromPrefix(attempts, i, sent, old(sequenceNumber), payloadSize);
      r := Ok(packetsSent);
    }
  }

  /**
   * The k-th sent packet is the data payload of the k-th delivered attempt,
   * numbered seq0 + k, and has the payload size.
   */
  predicate SentFrom(sent: seq<seq<Byte>>, delivered: seq<Attempt>, seq0: int, payloadSize: int)
  {
    |sent| <= |delivered|
    && forall k :: 0 <= k < |sent| ==>
         (payloadSize >= TestHeaderSize ==> |delivered[k].random| == payloadSize - TestHeaderSize)
         && DataPayload(seq0 + k, payloadSize, delivered[k].timestampUs, delivered[k].random) == Ok(sent[k])
         && |sent[k]| == payloadSize
  }

  /** The traffic receiver reads the k-th packet's number back as seq0 + k. */
  predicate Numbered(sent: seq<seq<Byte>>, seq0: int)
  {
    forall k :: 0 <= k < |sent| ==> ParsePacket(sent[k]).seqNum == Some(seq0 + k)
  }

  /** Every packet built from the deliveries is read back under its number. */
  lemma SentParses(sent: seq<seq<Byte>>, delivered: seq<Attempt>, seq0: int, payloadSize: int)
    requires SentFrom(sent, delivered, seq0, payloadSize)
    ensures Numbered(sent, seq0)
  {
    forall k | 0 <= k < |sent|
      ensures ParsePacket(sent[k]).seqNum == Some(seq0 + k)
    {
      DataPayloadParses(seq0 + k, payloadSize, delivered[k].timestampUs, delivered[k].random);
    }
  }

  /** One more delivered attempt, sent under the next number. */
  lemma SentFromAppend(sent: seq<seq<Byte>>, delivered: seq<Attempt>, seq0: int, payloadSize: int,
                       a: Attempt, p: seq<Byte>)
    requires SentFrom(sent, delivered, seq0, payloadSize) && |sent| == |delivered|
    requires payloadSize >= TestHeaderSize ==> |a.random| == payloadSize - TestHeaderSize
    requires DataPayload(seq0 + |sent|, payloadSize, a.timestampUs, a.random) == Ok(p)
    ensures SentFrom(sent + [p], delivered + [a], seq0, payloadSize)
  {
  }

  /**
   * What was sent from the deliveries among the first i attempts was sent
   * from the whole run's, each packet parses back to its number, and no more
   * were sent than the whole run delivered.
   */
  lemma SentFromPrefix(attempts: seq<Attempt>, i: nat, sent: seq<seq<Byte>>, seq0: int, payloadSize: int)
    requires i <= |attempts| && SentFrom(sent, Deliveries(attempts, i), seq0, payloadSize)
    ensures SentFrom(sent, Deliveries(attempts, |attempts|), seq0, payloadSize)
    ensures Numbered(sent, seq0)
    ensures |Deliveries(attempts, i)| <= |Deliveries(attempts, |attempts|)|
  {
    var d0, d := Deliveries(attempts, i), Deliveries(attempts, |attempts|);
    DeliveriesPrefix(attempts, i, |attempts|);
    assert forall k :: 0 <= k < |d0| ==> d0[k] == d[k];
    SentParses(sent, d, seq0, payloadSize);
  }
}
