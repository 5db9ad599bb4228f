/**
 * The sending application of the MATLAB link (`SimURFSender`): a text
 * message is UTF-8 encoded, encrypted, optionally repetition-coded and
 * packed under the next sequence number before it goes to the simulator.
 * The clock (`time.time_ns`), the cipher nonce (`os.urandom`) and the
 * outcome of `sendto` are parameters.
 */
module SenderApp {
  import opened Wrappers
  import opened Exceptions
  import opened BitCodec
  import opened Inet
  import Utf8
  import Crypto
  import Fec
  import opened PacketFormat

  /** How many times each ciphertext byte is sent. */
  function Expansion(useFec: bool, repetition: int): int
  {
    if useFec then repetition else 1
  }

  /** The payload length of a message: its ciphertext (UTF-8 bytes plus nonce), times the expansion. */
  function WireLength(message: string, useFec: bool, repetition: int): int
  {
    (|Utf8.Encode(message)| + Crypto.NonceSize) * Expansion(useFec, repetition)
  }

  /** What `pack` accepts besides the payload bytes themselves. */
  predicate Packable(seqNum: int, srcIp: string, dstIp: string, timestampNs: int, payloadLength: int)
  {
    0 <= seqNum < 0x1_0000_0000 && payloadLength <= MaxPayloadSize
    && InetAton(srcIp).Some? && InetAton(dstIp).Some?
    && 0 <= timestampNs < 0x1_0000_0000_0000_0000
  }

  /** Steps 1 and 2 of `send_message`: encrypt the encoded text, then repeat it if FEC is on. */
  function WirePayload(message: string, useFec: bool, repetition: int, nonce: seq<Byte>)
    : (r: Result<seq<Byte>, Exception>)
    requires |nonce| == Crypto.NonceSize
    ensures r.Ok? <==> |message| > 0 && (!useFec || 1 <= repetition <= 15)
    ensures r.Err? ==> r.error == ValueError
    ensures r.Ok? ==>
      |r.value| == WireLength(message, useFec, repetition)
  {
    Crypto.DefaultManagerBuilt();
    var plaintext := Utf8.Encode(message);
    match Crypto.Encrypt(Crypto.DefaultManager, plaintext, nonce)
    case Err(e) => Err(e)
    case Ok(ciphertext) =>
      if useFec then Fec.FecEncode(ciphertext, repetition) else Ok(ciphertext)
  }

  /** Steps 1 to 3 of `send_message`: the bytes handed to the socket. */
  function BuildPacket(
    message: string, useFec: bool, repetition: int,
    seqNum: int, srcIp: string, dstIp: string, timestampNs: int, nonce: seq<Byte>)
    : (r: Result<seq<Byte>, Exception>)
    requires |nonce| == Crypto.NonceSize
    ensures r.Ok? <==>
      |message| > 0 && (!useFec || 1 <= repetition <= 15)
      && Packable(seqNum, srcIp, dstIp, timestampNs,
                  WireLength(message, useFec, repetition))
    ensures |message| == 0 ==> r == Err(ValueError)
    ensures r.Ok? ==>
      |r.value| == HeaderSize + WireLength(message, useFec, repetition)
  {
    match WirePayload(message, useFec, repetition, nonce)
    case Err(e) => Err(e)
    case Ok(payload) => Pack(seqNum, srcIp, dstIp, timestampNs, payload)
  }

  /** One message of a batch, with the clock reading, nonce and socket outcome of its send. */
  datatype Submission = Submission(message: string, timestampNs: int, nonce: seq<Byte>, delivered: bool)

  predicate NoncesSized(batch: seq<Submission>)
  {
    forall k :: 0 <= k < |batch| ==> |batch[k].nonce| == Crypto.NonceSize
  }

  /** Whether one `send_message` succeeds when the sequence number is `seqNum`. */
  predicate Sends(b: Submission, useFec: bool, repetition: int, srcIp: string, dstIp: string, seqNum: int)
    requires |b.nonce| == Crypto.NonceSize
  {
    BuildPacket(b.message, useFec, repetition, seqNum, srcIp, dstIp, b.timestampNs, b.nonce).Ok? && b.delivered
  }

  /**
   * How many messages of a batch are sent, each one numbered after the
   * successes before it.
   */
  function Successes(
    batch: seq<Submission>, useFec: bool, repetition: int, srcIp: string, dstIp: string, seqNum: int)
    : (n: nat)
    requires NoncesSized(batch)
    ensures n <= |batch|
    decreases |batch|
  {
    if |batch| == 0 then 0
    else
      var ok := Sends(batch[0], useFec, repetition, srcIp, dstIp, seqNum);
      (if ok then 1 else 0)
      + Successes(batch[1..], useFec, repetition, srcIp, dstIp, seqNum + (if ok then 1 else 0))
  }

  /** A batch of empty or undelivered messages sends nothing. */
  lemma {:induction false} NothingSent(
    batch: seq<Submission>, useFec: bool, repetition: int, srcIp: string, dstIp: string, seqNum: int)
    requires NoncesSized(batch)
    requires forall k :: 0 <= k < |batch| ==> |batch[k].message| == 0 || !batch[k].delivered
    ensures Successes(batch, useFec, repetition, srcIp, dstIp, seqNum) == 0
    decreases |batch|
  {
    if |batch| > 0 {
      assert !Sends(batch[0], useFec, repetition, srcIp, dstIp, seqNum);
      NothingSent(batch[1..], useFec, repetition, srcIp, dstIp, seqNum);
    }
  }

  /** Peeling the message at k off the rest of the batch. */
  lemma SuccessesStep(
    batch: seq<Submission>, k: nat, useFec: bool, repetition: int, srcIp: string, dstIp: string, seqNum: int)
    requires NoncesSized(batch) && k < |batch|
    ensures NoncesSized(batch[k..]) && NoncesSized(batch[k + 1..])
    ensures Sends(batch[k], useFec, repetition, srcIp, dstIp, seqNum) ==>
      Successes(batch[k..], useFec, repetition, srcIp, dstIp, seqNum)
      == 1 + Successes(batch[k + 1..], useFec, repetition, srcIp, dstIp, seqNum + 1)
    ensures !Sends(batch[k], useFec, repetition, srcIp, dstIp, seqNum) ==>
      Successes(batch[k..], useFec, repetition, srcIp, dstIp, seqNum)
      == Successes(batch[k + 1..], useFec, repetition, srcIp, dstIp, seqNum)
  {
    var rest := batch[k..];
    assert rest[0] == batch[k];
    assert rest[1..] == batch[k + 1..];
  }

  /** `SimURFSender`: the sequence number advances once per message sent. */
  class Sender {
    const srcIp: string
    const dstIp: string
    const useFec: bool
    const fecRepetition: int
    var seqNum: int

    constructor(srcIp: string, dstIp: string, useFec: bool, fecRepetition: int)
      ensures this.srcIp == srcIp && this.dstIp == dstIp
      ensures this.useFec == useFec && this.fecRepetition == fecRepetition
      ensures seqNum == 0
    {
      this.srcIp := srcIp;
      this.dstIp := dstIp;
      this.useFec := useFec;
      this.fecRepetition := fecRepetition;
      seqNum := 0;
    }

    /**
     * `send_message`: build the packet and send it; any failure, in the
     * pipeline or in `sendto` (`delivered` false), returns false and
     * leaves the sequence number alone. `sent` is the packet offered to
     * the socket, if one was built.
     */
    method SendMessage(message: string, timestampNs: int, nonce: seq<Byte>, delivered: bool)
      returns (ok: bool, sent: Option<seq<Byte>>)
      requires |nonce| == Crypto.NonceSize
      modifies this
      ensures var built := BuildPacket(message, useFec, fecRepetition, old(seqNum), srcIp, dstIp, timestampNs, nonce);
        (ok <==> built.Ok? && delivered)
        && sent == (if built.Ok? then Some(built.value) else None)
      ensures seqNum == old(seqNum) + (if ok then 1 else 0)
    {
      var built := BuildPacket(message, useFec, fecRepetition, seqNum, srcIp, dstIp, timestampNs, nonce);
      if built.Err? {
        return false, None;
      }
      sent := Some(built.value);
      if !delivered {
        return false, sent;
      }
      seqNum := seqNum + 1;
      ok := true;
    }

    /** `send_batch`: one `send_message` per message, counting the successes. */
    method SendBatch(batch: seq<Submission>) returns (success: nat)
      requires NoncesSized(batch)
      modifies this
      ensures success == Successes(batch, useFec, fecRepetition, srcIp, dstIp, old(seqNum))
      ensures seqNum == old(seqNum) + success
    {
      success := 0;
      for k := 0 to |batch|
        invariant seqNum == old(seqNum) + success
        invariant success + Successes(batch[k..], useFec, fecRepetition, srcIp, dstIp, seqNum)
          == Successes(batch, useFec, fecRepetition, srcIp, dstIp, old(seqNum))
      {
        var b, before := batch[k], seqNum;
        SuccessesStep(batch, k, useFec, fecRepetition, srcIp, dstIp, before);
        var ok, _ := SendMessage(b.message, b.timestampNs, b.nonce, b.delivered);
        if ok {
          assert Sends(b, useFec, fecRepetition, srcIp, dstIp, before) && seqNum == before + 1;
          success := success + 1;
        } else {
          assert !Sends(b, useFec, fecRepetition, srcIp, dstIp, before) && seqNum == before;
        }
      }
      assert batch[|batch|..] == [];
    }
  }
}

/**
 * The receiving application of the MATLAB link (`SimURFReceiver`): a
 * datagram is unpacked (length and CRC checked), repetition-decoded when
 * FEC is on, and decrypted; each outcome is counted.
 */
module ReceiverApp {
  import opened Wrappers
  import opened Exceptions
  import opened BitCodec
  import Utf8
  import Crypto
  import Fec
  import opened PacketFormat
  import opened SenderApp

  /** What a successfully processed datagram yields. */
  datatype Received = Received(
    seqNum: nat, srcIp: string, dstIp: string, timestampNs: nat,
    plaintext: seq<Byte>, corrections: nat)

  /** The FEC step: skipped, or `fec_decode_with_stats` with the configured factor. */
  function FecStep(payload: seq<Byte>, useFec: bool, repetition: int): (r: Result<(seq<Byte>, nat), Exception>)
    ensures !useFec ==> r == Ok((payload, 0))
    ensures useFec ==> (r.Err? <==> !(1 <= repetition <= 15) || |payload| % repetition != 0)
    ensures r.Err? ==> r.error == ValueError
  {
    if !useFec then Ok((payload, 0))
    else if 1 <= repetition <= 15 then Fec.DecodeSpec(Fec.FecCodec(repetition), payload)
    else Err(ValueError)
  }

  /** Steps 1 to 3 of `process_packet` as one result. */
  function Receive(data: seq<Byte>, useFec: bool, repetition: int): (r: Result<Received, Exception>)
    ensures r.Err? ==> r.error == ValueError
    ensures Unpack(data).Err? ==> r.Err?
    ensures r.Ok? ==>
      Unpack(data).Ok? && r.value.seqNum == Unpack(data).value.seqNum
      && r.value.timestampNs == Unpack(data).value.timestampNs
    ensures !useFec && r.Ok? ==>
      r.value.corrections == 0
      && |r.value.plaintext| == |Unpack(data).value.payload| - Crypto.NonceSize
  {
    Crypto.DefaultManagerBuilt();
    match Unpack(data)
    case Err(e) => Err(e)
    case Ok(u) =>
      match FecStep(u.payload, useFec, repetition)
      case Err(e) => Err(e)
      case Ok(decoded) =>
        match Crypto.Decrypt(Crypto.DefaultManager, decoded.0)
        case Err(e) => Err(e)
        case Ok(plaintext) =>
          Ok(Received(u.seqNum, u.srcIp, u.dstIp, u.timestampNs, plaintext, decoded.1))
  }

  /** `SimURFReceiver`: every datagram is counted once, as a success or as one kind of error. */
  class Receiver {
    const useFec: bool
    const fecRepetition: int
    var packetCount: nat
    var successCount: nat
    var crcErrors: nat
    var decodeErrors: nat

    predicate Valid()
      reads this
    {
      packetCount == successCount + crcErrors + decodeErrors
    }

    constructor(useFec: bool, fecRepetition: int)
      ensures Valid() && this.useFec == useFec && this.fecRepetition == fecRepetition
      ensures packetCount == 0 && successCount == 0 && crcErrors == 0 && decodeErrors == 0
    {
      this.useFec := useFec;
      this.fecRepetition := fecRepetition;
      packetCount, successCount, crcErrors, decodeErrors := 0, 0, 0, 0;
    }

    /**
     * `process_packet`: a `ValueError` from any step is a CRC error, any
     * other exception a decode error. Every error the steps raise is a
     * `ValueError`, so the decode-error count never moves.
     */
    method ProcessPacket(data: seq<Byte>) returns (ok: bool, received: Option<Received>)
      requires Valid()
      modifies this
      ensures Valid()
      ensures ok <==> Receive(data, useFec, fecRepetition).Ok?
      ensures received == (if ok then Some(Receive(data, useFec, fecRepetition).value) else None)
      ensures packetCount == old(packetCount) + 1
      ensures successCount == old(successCount) + (if ok then 1 else 0)
      ensures crcErrors == old(crcErrors) + (if ok then 0 else 1)
      ensures decodeErrors == old(decodeErrors)
    {
      packetCount := packetCount + 1;
      Crypto.DefaultManagerBuilt();
      var failure: Option<Exception> := None;
      var pkt := Unpack(data);
      if pkt.Err? {
        failure := Some(pkt.error);
      } else {
        var payload := pkt.value.payload;
        var corrections := 0;
        var decoded: Result<(seq<Byte>, nat), Exception> := Ok((payload, 0));
        if useFec {
          decoded := Fec.FecDecodeWithStats(payload, fecRepetition);
        }
        if decoded.Err? {
          failure := Some(decoded.error);
        } else {
          payload, corrections := decoded.value.0, decoded.value.1;
          var plaintext := Crypto.Decrypt(Crypto.DefaultManager, payload);
          if plaintext.Err? {
            failure := Some(plaintext.error);
          } else {
            var u := pkt.value;
            received := Some(Received(u.seqNum, u.srcIp, u.dstIp, u.timestampNs, plaintext.value, corrections));
          }
        }
      }
      match failure
      case None =>
        successCount := successCount + 1;
        ok := true;
      case Some(e) =>
        if e == ValueError {
          crcErrors := crcErrors + 1;
        } else {
          // The `except Exception` branch: no step raises anything but a
          // ValueError, so a decode error is never counted.
          assert false;
        }
        ok, received := false, None;
    }
  }

  /**
   * A packet the sender builds, received unaltered by a receiver with the
   * same FEC setting, yields the header fields it was sent with, the
   * UTF-8 bytes of the message and no FEC corrections.
   */
  lemma RoundTrip(
    message: string, useFec: bool, repetition: int,
    seqNum: int, srcIp: string, dstIp: string, timestampNs: int, nonce: seq<Byte>)
    requires |nonce| == Crypto.NonceSize
    requires BuildPacket(message, useFec, repetition, seqNum, srcIp, dstIp, timestampNs, nonce).Ok?
    ensures seqNum >= 0 && timestampNs >= 0
    ensures Receive(BuildPacket(message, useFec, repetition, seqNum, srcIp, dstIp, timestampNs, nonce).value,
                    useFec, repetition)
      == Ok(Received(seqNum, srcIp, dstIp, timestampNs, Utf8.Encode(message), 0))
  {
    Crypto.DefaultManagerBuilt();
    var plaintext := Utf8.Encode(message);
    var ciphertext := Crypto.Encrypt(Crypto.DefaultManager, plaintext, nonce).value;
    var payload := WirePayload(message, useFec, repetition, nonce).value;
    PackUnpack(seqNum, srcIp, dstIp, timestampNs, payload);
    if useFec {
      Fec.FecRoundTrip(ciphertext, repetition);
    }
    assert FecStep(payload, useFec, repetition) == Ok((ciphertext, 0));
    Crypto.DecryptEncrypt(Crypto.DefaultManager, plaintext, nonce);
  }

  /** Changing any payload byte of a built packet makes the receiver count a CRC error. */
  lemma CorruptedPacketRejected(
    message: string, useFec: bool, repetition: int,
    seqNum: int, srcIp: string, dstIp: string, timestampNs: int, nonce: seq<Byte>, i: nat, v: Byte)
    requires |nonce| == Crypto.NonceSize
    requires BuildPacket(message, useFec, repetition, seqNum, srcIp, dstIp, timestampNs, nonce).Ok?
    requires var p := BuildPacket(message, useFec, repetition, seqNum, srcIp, dstIp, timestampNs, nonce).value;
      HeaderSize + i < |p| && v != p[HeaderSize + i]
    ensures var p := BuildPacket(message, useFec, repetition, seqNum, srcIp, dstIp, timestampNs, nonce).value;
      Receive(p[HeaderSize + i := v], useFec, repetition) == Err(ValueError)
  {
    var payload := WirePayload(message, useFec, repetition, nonce).value;
    var p := Pack(seqNum, srcIp, dstIp, timestampNs, payload).value;
    assert p[HeaderSize + i] == payload[i];
    PayloadCorruptionDetected(seqNum, srcIp, dstIp, timestampNs, payload, i, v);
  }
}
