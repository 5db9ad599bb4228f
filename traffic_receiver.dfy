/**
 * The traffic receiver: it parses the 16-byte test header (sequence number,
 * microsecond timestamp, payload size), tracks lost, out-of-order and
 * duplicate sequence numbers across packets, keeps the last 1000 latency
 * samples, and reports the packet-loss rate. The socket, the clock and the
 * log files are left out; the receive time is a parameter.
 */
module TrafficReceiver {
  import opened Wrappers
  import opened BitCodec
  import opened Digits
  import opened PacketFormat
  import opened BoundedDeque
  import opened Statistics

  /** The test header: u32 sequence number, u64 timestamp in µs, u32 payload size. */
  const TestHeaderSize: nat := 16

  /** What `parse_packet` returns; the timestamp is kept in microseconds. */
  datatype PacketInfo = PacketInfo(
    seqNum: Option<nat>, timestampUs: Option<nat>, payloadSize: nat, data: seq<Byte>)

  /**
   * `parse_packet`: a packet of at least 16 bytes is read as the big-endian
   * test header and the rest; a shorter one has no header.
   */
  function ParsePacket(data: seq<Byte>): (info: PacketInfo)
    ensures |data| >= TestHeaderSize ==>
      info.seqNum.Some? && info.timestampUs.Some?
      && info.seqNum.value < Pow(256, 4) && info.timestampUs.value < Pow(256, 8)
      && info.payloadSize < Pow(256, 4)
      && info.data == data[TestHeaderSize..]
    ensures |data| < TestHeaderSize ==>
      info == PacketInfo(None, None, |data|, data)
  {
    if |data| >= TestHeaderSize then
      FieldBound(data[..4]);
      FieldBound(data[4..12]);
      FieldBound(data[12..16]);
      PacketInfo(Some(FieldValue(data[..4])), Some(FieldValue(data[4..12])),
                 FieldValue(data[12..16]), data[16..])
    else
      PacketInfo(None, None, |data|, data)
  }

  /** The latency samples kept. */
  const MaxLatencies: nat := 1000

  /** The latency of a packet stamped `tsUs` microseconds and received at `recvTime` seconds. */
  function Latency(recvTime: real, tsUs: nat): real
  {
    recvTime - tsUs as real / 1000000.0
  }

  /** Append a sample and keep only the last 1000. */
  function AppendLatency(latencies: seq<real>, x: real): (r: seq<real>)
  {
    var l := latencies + [x];
    if |l| > MaxLatencies then l[|l| - MaxLatencies..] else l
  }

  /** Appending through the cap keeps the last 1000 samples ever appended. */
  lemma AppendLatencyKeepsLast(history: seq<real>, x: real)
    ensures AppendLatency(LastN(history, MaxLatencies), x) == LastN(history + [x], MaxLatencies)
    ensures |AppendLatency(LastN(history, MaxLatencies), x)| <= MaxLatencies
  {
    var w := LastN(history, MaxLatencies);
    PushLastN(history, x, MaxLatencies);
    assert AppendLatency(w, x) == Push(w, x, MaxLatencies);
  }

  /** The largest sequence number seen, or -1 before any. */
  function MaxSeq(seqs: seq<nat>): (m: int)
    ensures m >= -1
    ensures |seqs| == 0 <==> m == -1
  {
    if |seqs| == 0 then -1
    else
      var m := MaxSeq(seqs[..|seqs| - 1]);
      if seqs[|seqs| - 1] > m then seqs[|seqs| - 1] else m
  }

  /** MaxSeq is a member of the sequence no smaller than any other. */
  lemma {:induction false} MaxSeqIsMax(seqs: seq<nat>)
    ensures MaxSeq(seqs) >= 0 ==> MaxSeq(seqs) in seqs
    ensures forall i :: 0 <= i < |seqs| ==> seqs[i] <= MaxSeq(seqs)
  {
    if |seqs| > 0 {
      var init := seqs[..|seqs| - 1];
      MaxSeqIsMax(init);
      assert forall i :: 0 <= i < |init| ==> init[i] == seqs[i];
    }
  }

  /** One more number raises the maximum to it, or leaves the maximum as it was. */
  lemma MaxSeqAppend(seqs: seq<nat>, s: nat)
    ensures MaxSeq(seqs + [s]) == if s > MaxSeq(seqs) then s else MaxSeq(seqs)
  {
    var seqs' := seqs + [s];
    assert seqs'[..|seqs'| - 1] == seqs;
  }

  /** The set of numbers in a sequence. */
  ghost function Elements(seqs: seq<nat>): set<nat>
  {
    if |seqs| == 0 then {} else Elements(seqs[..|seqs| - 1]) + {seqs[|seqs| - 1]}
  }

  /** Elements holds exactly the numbers that occur in the sequence. */
  lemma {:induction false} ElementsMembers(seqs: seq<nat>)
    ensures forall s :: s in Elements(seqs) <==> s in seqs
  {
    if |seqs| > 0 {
      var init := seqs[..|seqs| - 1];
      ElementsMembers(init);
      assert seqs == init + [seqs[|seqs| - 1]];
    }
  }

  lemma ElementsAppend(seqs: seq<nat>, s: nat)
    ensures Elements(seqs + [s]) == Elements(seqs) + {s}
  {
    var seqs' := seqs + [s];
    assert seqs'[..|seqs'| - 1] == seqs;
  }

  /**
   * Adding a number not yet seen grows the set by one; a number seen before
   * is a duplicate. Either way, distinct numbers plus duplicates count every
   * sequenced packet.
   */
  lemma SeenStep(seen: set<nat>, seqs: seq<nat>, duplicates: nat, s: nat)
    requires seen == Elements(seqs) && |seen| + duplicates == |seqs|
    ensures s in seen ==> seen == Elements(seqs + [s]) && |seen| + duplicates + 1 == |seqs + [s]|
    ensures s !in seen ==> seen + {s} == Elements(seqs + [s]) && |seen + {s}| + duplicates == |seqs + [s]|
  {
    ElementsAppend(seqs, s);
  }

  /**
   * `packet_loss_rate`: lost over received plus lost, when anything was
   * received; it is below 1 because every received packet counts.
   */
  function PacketLossRate(totalPackets: nat, lostPackets: nat): (rate: real)
    ensures totalPackets == 0 ==> rate == 0.0
    ensures 0.0 <= rate < 1.0
    ensures rate == 0.0 <==> totalPackets == 0 || lostPackets == 0
    ensures totalPackets > 0 ==> rate * (totalPackets + lostPackets) as real == lostPackets as real
  {
    if totalPackets > 0 then
      FractionBounds(lostPackets, totalPackets + lostPackets);
      FractionBelowOne(lostPackets, totalPackets + lostPackets);
      Quotient(lostPackets as real, (totalPackets + lostPackets) as real)
    else 0.0
  }

  class WirelessReceiver {
    var totalPackets: nat
    var totalBytes: nat
    var lastSeq: int
    var lostPackets: nat
    var outOfOrder: nat
    var duplicatePackets: nat
    var receivedSequences: set<nat>
    var latencies: seq<real>
    /** The sequence numbers of the packets that carried one, in arrival order. */
    ghost var seqs: seq<nat>
    /** Every latency sample taken. */
    ghost var allLatencies: seq<real>

    /**
     * The last sequence number is the largest seen; the set holds exactly the
     * numbers seen, and every further arrival of a number is a duplicate; the
     * latency list is the last 1000 samples.
     */
    ghost predicate Valid()
      reads this
    {
      Tracked() && |seqs| <= totalPackets
    }

    ghost predicate Tracked()
      reads this
    {
      lastSeq == MaxSeq(seqs)
      && receivedSequences == Elements(seqs)
      && |receivedSequences| + duplicatePackets == |seqs|
      && latencies == LastN(allLatencies, MaxLatencies)
    }

    constructor()
      ensures Valid() && seqs == [] && allLatencies == []
      ensures totalPackets == 0 && totalBytes == 0 && lastSeq == -1
      ensures lostPackets == 0 && outOfOrder == 0 && duplicatePackets == 0
    {
      totalPackets := 0;
      totalBytes := 0;
      lastSeq := -1;
      lostPackets := 0;
      outOfOrder := 0;
      duplicatePackets := 0;
      receivedSequences := {};
      latencies := [];
      seqs := [];
      allLatencies := [];
    }

    /**
     * The sequence-number part of one step of `receive_packets`: a gap after
     * the largest number seen so far counts as lost packets, a number at or
     * below it as out of order, and a number seen before as a duplicate.
     */
    method TrackSequence(s: nat)
      requires Tracked() && |seqs| < totalPackets
      modifies this
      ensures Valid()
      ensures seqs == old(seqs) + [s] && allLatencies == old(allLatencies)
      ensures latencies == old(latencies)
      ensures totalPackets == old(totalPackets) && totalBytes == old(totalBytes)
      ensures lastSeq == (if s > old(lastSeq) then s else old(lastSeq))
      ensures lostPackets == old(lostPackets)
        + (if old(lastSeq) >= 0 && s > old(lastSeq) + 1 then s - old(lastSeq) - 1 else 0)
      ensures outOfOrder == old(outOfOrder) + (if old(lastSeq) >= 0 && s < old(lastSeq) + 1 then 1 else 0)
      ensures receivedSequences == old(receivedSequences) + {s}
      ensures duplicatePackets == old(duplicatePackets) + (if s in old(receivedSequences) then 1 else 0)
    {
      CountGap(s);
      var seen, duplicates := receivedSequences, duplicatePackets;
      SeenStep(seen, seqs, duplicates, s);
      if s in seen {
        duplicates := duplicates + 1;
        assert seen == seen + {s};
      } else {
        seen := seen + {s};
      }
      var seqs' := seqs + [s];
      assert seen == Elements(seqs') && |seen| + duplicates == |seqs'|;
      MaxSeqAppend(seqs, s);
      receivedSequences, duplicatePackets, seqs := seen, duplicates, seqs';
      lastSeq := if lastSeq > s then lastSeq else s;
    }

    /**
     * Loss and reordering: against the number after the largest seen so far,
     * a larger number means the ones in between were lost and a smaller one
     * arrived out of order. Nothing is counted before the first number.
     */
    method CountGap(s: nat)
      modifies this
      ensures lostPackets == old(lostPackets)
        + (if old(lastSeq) >= 0 && s > old(lastSeq) + 1 then s - old(lastSeq) - 1 else 0)
      ensures outOfOrder == old(outOfOrder) + (if old(lastSeq) >= 0 && s < old(lastSeq) + 1 then 1 else 0)
      ensures lastSeq == old(lastSeq) && seqs == old(seqs) && receivedSequences == old(receivedSequences)
      ensures duplicatePackets == old(duplicatePackets) && latencies == old(latencies)
      ensures allLatencies == old(allLatencies)
      ensures totalPackets == old(totalPackets) && totalBytes == old(totalBytes)
    {
      if lastSeq >= 0 {
        var expected := lastSeq + 1;
        if s > expected {
          lostPackets := lostPackets + (s - expected);
        } else if s < expected {
          outOfOrder := outOfOrder + 1;
        }
      }
    }

    /** Take one latency sample, keeping the last 1000. */
    method RecordLatency(latency: real)
      requires Valid()
      modifies this
      ensures Valid()
      ensures allLatencies == old(allLatencies) + [latency]
      ensures latencies == AppendLatency(old(latencies), latency) && |latencies| <= MaxLatencies
      ensures seqs == old(seqs) && totalPackets == old(totalPackets) && totalBytes == old(totalBytes)
      ensures lastSeq == old(lastSeq) && lostPackets == old(lostPackets) && outOfOrder == old(outOfOrder)
      ensures duplicatePackets == old(duplicatePackets) && receivedSequences == old(receivedSequences)
    {
      AppendLatencyKeepsLast(allLatencies, latency);
      latencies := AppendLatency(latencies, latency);
      allLatencies := allLatencies + [latency];
    }

    /**
     * One step of `receive_packets`: count the packet and, when it carries a
     * sequence number, track it and take a latency sample if its timestamp is
     * non-zero (a zero timestamp is falsy and skipped).
     */
    method ReceivePacket(data: seq<Byte>, recvTime: real)
      requires Valid()
      modifies this
      ensures Valid()
      ensures totalPackets == old(totalPackets) + 1 && totalBytes == old(totalBytes) + |data|
      ensures lastSeq >= old(lastSeq)
      ensures var info := ParsePacket(data);
        info.seqNum.None? ==>
          seqs == old(seqs) && lastSeq == old(lastSeq) && lostPackets == old(lostPackets)
          && outOfOrder == old(outOfOrder) && duplicatePackets == old(duplicatePackets)
          && receivedSequences == old(receivedSequences) && latencies == old(latencies)
      ensures var info := ParsePacket(data);
        info.seqNum.Some? ==>
          seqs == old(seqs) + [info.seqNum.value]
          && lastSeq == (if info.seqNum.value > old(lastSeq) then info.seqNum.value else old(lastSeq))
          && lostPackets == old(lostPackets)
             + (if old(lastSeq) >= 0 && info.seqNum.value > old(lastSeq) + 1
                then info.seqNum.value - old(lastSeq) - 1 else 0)
          && outOfOrder == old(outOfOrder)
             + (if old(lastSeq) >= 0 && info.seqNum.value < old(lastSeq) + 1 then 1 else 0)
          && receivedSequences == old(receivedSequences) + {info.seqNum.value}
          && duplicatePackets == old(duplicatePackets) + (if info.seqNum.value in old(receivedSequences) then 1 else 0)
          && (info.timestampUs.value != 0 ==>
                latencies == AppendLatency(old(latencies),
                                           Latency(recvTime, info.timestampUs.value)))
          && (info.timestampUs.value == 0 ==> latencies == old(latencies))
    {
      totalPackets := totalPackets + 1;
      totalBytes := totalBytes + |data|;
      var info := ParsePacket(data);
      if info.seqNum.Some? {
        TrackSequence(info.seqNum.value);
        TakeSample(info.timestampUs.value, recvTime);
      }
    }

    /** The latency sample of one packet: none for a zero (falsy) timestamp. */
    method TakeSample(tsUs: nat, recvTime: real)
      requires Valid()
      modifies this
      ensures Valid()
      ensures tsUs != 0 ==> latencies == AppendLatency(old(latencies), Latency(recvTime, tsUs))
      ensures tsUs == 0 ==> latencies == old(latencies)
      ensures seqs == old(seqs) && totalPackets == old(totalPackets) && totalBytes == old(totalBytes)
      ensures lastSeq == old(lastSeq) && lostPackets == old(lostPackets) && outOfOrder == old(outOfOrder)
      ensures duplicatePackets == old(duplicatePackets) && receivedSequences == old(receivedSequences)
    {
      if tsUs != 0 {
        RecordLatency(Latency(recvTime, tsUs));
      }
    }

    /** `packet_loss_rate` in `calculate_metrics`. */
    function LossRate(): (rate: real)
      reads this
      ensures 0.0 <= rate < 1.0
      ensures totalPackets == 0 ==> rate == 0.0
    {
      PacketLossRate(totalPackets, lostPackets)
    }
  }
}
