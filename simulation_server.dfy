/**
 * The simulation server's per-packet bookkeeping: each packet runs through
 * transmitter, channel and receiver (abstracted here as the chain's outcome:
 * the decoded bytes or the exception it raised), and the server counts
 * simulations, successes and failures, and the bits compared and found in
 * error over the common prefix.
 */
module SimulationServer {
  import opened Wrappers
  import opened Exceptions
  import opened BitCodec
  import opened Statistics

  function MinLen(a: seq<Byte>, b: seq<Byte>): nat
  {
    if |a| <= |b| then |a| else |b|
  }

  /** The bits that differ between the first n bytes of a and of b. */
  function BitErrors(a: seq<Byte>, b: seq<Byte>, n: nat): (e: nat)
    requires n <= |a| && n <= |b|
    ensures e <= 8 * n
  {
    if n == 0 then 0 else BitErrors(a, b, n - 1) + Popcount(XorByte(a[n - 1], b[n - 1]))
  }

  /** No bit differs exactly when the first n bytes agree. */
  lemma {:induction false} BitErrorsZero(a: seq<Byte>, b: seq<Byte>, n: nat)
    requires n <= |a| && n <= |b|
    ensures BitErrors(a, b, n) == 0 <==> a[..n] == b[..n]
  {
    if n > 0 {
      BitErrorsZero(a, b, n - 1);
      ByteErrorsZero(a[n - 1], b[n - 1]);
      PrefixesAgree(a, b, n);
    } else {
      assert a[..n] == [] == b[..n];
    }
  }

  /** No bit of a byte pair differs exactly when the bytes are equal. */
  lemma ByteErrorsZero(x: Byte, y: Byte)
    ensures Popcount(XorByte(x, y)) == 0 <==> x == y
  {
    PopcountXor(x, y);
  }

  /** The first n bytes agree exactly when the first n - 1 and the n-th do. */
  lemma PrefixesAgree(a: seq<Byte>, b: seq<Byte>, n: nat)
    requires 0 < n <= |a| && n <= |b|
    ensures a[..n] == b[..n] <==> a[..n - 1] == b[..n - 1] && a[n - 1] == b[n - 1]
  {
    assert a[..n] == a[..n - 1] + [a[n - 1]] && b[..n] == b[..n - 1] + [b[n - 1]];
    if a[..n] == b[..n] {
      assert a[..n - 1] == a[..n][..n - 1] && b[..n - 1] == b[..n][..n - 1];
      assert a[n - 1] == a[..n][n - 1];
    }
  }

  /** The counting loop: popcount of the XOR of each byte pair in the common prefix. */
  method CountBitErrors(payload: seq<Byte>, decoded: seq<Byte>) returns (errors: nat)
    ensures errors == BitErrors(payload, decoded, MinLen(payload, decoded))
    ensures errors <= 8 * MinLen(payload, decoded)
    ensures errors == 0 <==> payload[..MinLen(payload, decoded)] == decoded[..MinLen(payload, decoded)]
  {
    var n := MinLen(payload, decoded);
    errors := 0;
    for i := 0 to n
      invariant errors == BitErrors(payload, decoded, i)
    {
      errors := errors + Popcount(XorByte(payload[i], decoded[i]));
    }
    BitErrorsZero(payload, decoded, n);
  }

  /** What one simulation reports. */
  datatype Outcome = Outcome(
    success: bool, originalSize: nat, receivedSize: nat,
    bitErrors: nat, ber: real, matched: bool)

  /** The server's statistics. */
  datatype SimStats = SimStats(
    totalSimulations: nat, successfulTransmissions: nat, failedTransmissions: nat,
    totalBitsTransmitted: nat, totalBitErrors: nat)

  class Server {
    var totalSimulations: nat
    var successfulTransmissions: nat
    var failedTransmissions: nat
    var totalBitsTransmitted: nat
    var totalBitErrors: nat

    /** Every finished simulation counted once; errors never exceed the bits compared. */
    ghost predicate Valid()
      reads this
    {
      successfulTransmissions + failedTransmissions <= totalSimulations
      && totalBitErrors <= totalBitsTransmitted
    }

    constructor()
      ensures Valid() && Stats() == SimStats(0, 0, 0, 0, 0)
    {
      totalSimulations := 0;
      successfulTransmissions := 0;
      failedTransmissions := 0;
      totalBitsTransmitted := 0;
      totalBitErrors := 0;
    }

    function Stats(): SimStats
      reads this
    {
      SimStats(totalSimulations, successfulTransmissions, failedTransmissions,
               totalBitsTransmitted, totalBitErrors)
    }

    /**
     * `process_packet` with the chain's outcome given: count the simulation;
     * if the chain raised, report the error and count nothing else; otherwise
     * count a success exactly when the decoded bytes equal the payload, and
     * a failure otherwise, then compare the common prefix when anything was
     * decoded.
     */
    method ProcessPacket(payload: seq<Byte>, chain: Result<seq<Byte>, Exception>)
      returns (r: Result<Outcome, Exception>)
      requires Valid()
      modifies this
      ensures Valid()
      ensures totalSimulations == old(totalSimulations) + 1
      ensures chain.Err? ==>
        r == Err(chain.error)
        && successfulTransmissions == old(successfulTransmissions)
        && failedTransmissions == old(failedTransmissions)
        && totalBitsTransmitted == old(totalBitsTransmitted) && totalBitErrors == old(totalBitErrors)
      ensures chain.Ok? ==>
        var decoded := chain.value;
        var n := if |decoded| > 0 then MinLen(payload, decoded) else 0;
        r.Ok? && r.value.success == (decoded == payload) && r.value.matched == r.value.success
        && successfulTransmissions == old(successfulTransmissions) + (if decoded == payload then 1 else 0)
        && failedTransmissions == old(failedTransmissions) + (if decoded == payload then 0 else 1)
        && r.value.bitErrors == BitErrors(payload, decoded, n)
        && r.value.ber == (if n > 0 then r.value.bitErrors as real / (8 * n) as real else 0.0)
        && 0.0 <= r.value.ber <= 1.0
        && (r.value.ber == 0.0 <==> payload[..n] == decoded[..n])
        && totalBitsTransmitted == old(totalBitsTransmitted) + 8 * n
        && totalBitErrors == old(totalBitErrors) + r.value.bitErrors
        && r.value.originalSize == |payload| && r.value.receivedSize == |decoded|
    {
      totalSimulations := totalSimulations + 1;
      if chain.Err? {
        return Err(chain.error);
      }
      var decoded := chain.value;
      var success := payload == decoded;
      if success {
        successfulTransmissions := successfulTransmissions + 1;
      } else {
        failedTransmissions := failedTransmissions + 1;
      }
      var bitErrors := 0;
      var ber := 0.0;
      if |decoded| > 0 {
        bitErrors := CountBitErrors(payload, decoded);
        var totalBits := MinLen(payload, decoded) * 8;
        if totalBits > 0 {
          FractionBounds(bitErrors, totalBits);
          ber := bitErrors as real / totalBits as real;
        }
        totalBitsTransmitted := totalBitsTransmitted + totalBits;
        totalBitErrors := totalBitErrors + bitErrors;
      } else {
        BitErrorsZero(payload, decoded, 0);
      }
      r := Ok(Outcome(success, |payload|, |decoded|, bitErrors, ber, payload == decoded));
    }

    /**
     * `process_packet` as written: the receive step passes two arguments to a
     * one-argument method, so unless transmitter or channel raised first, the
     * chain raises TypeError. Every packet ends in the exception handler.
     */
    method ProcessPacketAsWritten(payload: seq<Byte>, upstream: Option<Exception>)
      returns (r: Result<Outcome, Exception>)
      requires Valid()
      modifies this
      ensures Valid()
      ensures totalSimulations == old(totalSimulations) + 1
      ensures r == Err(if upstream.Some? then upstream.value else TypeError)
      ensures successfulTransmissions == old(successfulTransmissions)
      ensures failedTransmissions == old(failedTransmissions)
      ensures totalBitsTransmitted == old(totalBitsTransmitted) && totalBitErrors == old(totalBitErrors)
    {
      totalSimulations := totalSimulations + 1;
      var raised := if upstream.Some? then upstream.value else TypeError;
      r := Err(raised);
    }
  }

  /**
   * On the written server, even a packet the link would deliver intact is
   * counted neither as a success nor as a failure.
   */
  method AsWrittenCountsNoOutcome(payload: seq<Byte>) returns (s: SimStats)
    ensures s == SimStats(1, 0, 0, 0, 0)
  {
    var server := new Server();
    var _ := server.ProcessPacketAsWritten(payload, None);
    s := server.Stats();
  }

  /** The corrected server counts an intact delivery as one success. */
  method DeliveryCountsSuccess(payload: seq<Byte>) returns (s: SimStats)
    ensures s.totalSimulations == 1 && s.successfulTransmissions == 1 && s.failedTransmissions == 0
    ensures s.totalBitErrors == 0
  {
    var server := new Server();
    var _ := server.ProcessPacket(payload, Ok(payload));
    BitErrorsZero(payload, payload, |payload|);
    BitErrorsZero(payload, payload, 0);
    s := server.Stats();
  }
}
