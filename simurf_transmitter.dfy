/**
 * The bit-level side of the SimURF wireless transmitter: a packet becomes
 * the frame start ‖ 16-bit big-endian length ‖ payload bits ‖ stop, the
 * frame is mapped to symbols by the configured scheme, and the transmitter
 * counts packets and bytes it has sent. Pulse shaping is not modelled: a
 * transmission yields the symbols.
 */
module SimurfTransmitter {
  import opened Wrappers
  import opened Exceptions
  import opened Digits
  import opened BitCodec
  import opened Signal
  import Modulation
  import Qam16

  /** The synchronisation pattern that opens a frame. */
  const StartSeq: seq<Bit> := [1, 0, 1, 0, 1, 1, 0, 0]
  /** The pattern that closes a frame. */
  const StopSeq: seq<Bit> := [0, 0, 1, 1, 0, 1, 0, 1]
  /** Payload lengths the 16-bit length field can carry. */
  const MaxFrameBytes: nat := 65536

  /** The 16 bits of a big-endian u16 length, most significant first. */
  function LengthBits(n: nat): (bits: seq<Bit>)
    ensures |bits| == 16
  {
    ToDigits(n, 16, 2)
  }

  /** The 16-bit length field carries exactly the lengths below MaxFrameBytes. */
  lemma LengthFieldRange()
    ensures Pow(2, 16) == MaxFrameBytes
  {
    assert Pow(2, 4) == 16;
    assert Pow(2, 8) == 256 by { assert Pow(2, 6) == 64; }
    assert Pow(2, 12) == 4096 by { assert Pow(2, 10) == 1024; }
    assert Pow(2, 14) == 16384;
  }

  /** `packet_to_bits`: start ‖ length ‖ payload bits ‖ stop. */
  function PacketToBits(packet: seq<Byte>): (bits: seq<Bit>)
    requires |packet| < MaxFrameBytes
    ensures |bits| == 8 * |packet| + 32
    ensures bits[..8] == StartSeq && bits[|bits| - 8..] == StopSeq
    ensures FromDigits(bits[8..24], 2) == |packet|
    ensures BitsToBytes(bits[24..24 + 8 * |packet|]) == packet
  {
    var bits := StartSeq + LengthBits(|packet|) + BytesToBits(packet) + StopSeq;
    assert bits[8..24] == LengthBits(|packet|);
    LengthFieldRange();
    FromToDigits(|packet|, 16, 2);
    assert bits[24..24 + 8 * |packet|] == BytesToBits(packet);
    BytesBitsRoundTrip(packet);
    bits
  }

  /** `bits_to_symbols`: dispatch on the scheme name; any other name raises ValueError. */
  function BitsToSymbols(modulation: string, bits: seq<Bit>): (r: Result<seq<Complex>, Exception>)
    ensures r.Err? <==> Modulation.GetModulationInfo(modulation).None?
    ensures r.Err? ==> r.error == ValueError
    ensures modulation == "bpsk" ==> r.Ok? && |r.value| == |bits|
    ensures modulation == "qpsk" ==> r.Ok? && |r.value| == (|bits| + 1) / 2
    ensures modulation == "16qam" ==> r.Ok? && |r.value| == (|bits| + 3) / 4
  {
    Modulation.InfoMatchesMappers(bits);
    if modulation == "bpsk" then Ok(Modulation.BpskModulate(bits))
    else if modulation == "qpsk" then Ok(Modulation.QpskModulate(bits))
    else if modulation == "16qam" then Ok(Qam16.Symbols(bits))
    else Err(ValueError)
  }

  /** The counters `get_stats` reports, with the scheme name. */
  datatype TxStats = TxStats(packetsTransmitted: nat, bytesTransmitted: nat, modulation: string)

  class Transmitter {
    const modulation: string
    var packetsTransmitted: nat
    var bytesTransmitted: nat

    constructor(modulation: string)
      ensures this.modulation == modulation
      ensures packetsTransmitted == 0 && bytesTransmitted == 0
    {
      this.modulation := modulation;
      packetsTransmitted := 0;
      bytesTransmitted := 0;
    }

    /**
     * `transmit`: frame, then map to symbols. Only a successful transmission
     * counts the packet and its bytes; a failure changes no counter.
     */
    method Transmit(packet: seq<Byte>) returns (r: Result<seq<Complex>, Exception>)
      requires |packet| < MaxFrameBytes
      modifies this
      ensures r == BitsToSymbols(modulation, PacketToBits(packet))
      ensures r.Ok? ==>
        packetsTransmitted == old(packetsTransmitted) + 1
        && bytesTransmitted == old(bytesTransmitted) + |packet|
      ensures r.Err? ==>
        packetsTransmitted == old(packetsTransmitted)
        && bytesTransmitted == old(bytesTransmitted)
    {
      var bits := PacketToBits(packet);
      r := BitsToSymbols(modulation, bits);
      if r.Ok? {
        packetsTransmitted := packetsTransmitted + 1;
        bytesTransmitted := bytesTransmitted + |packet|;
      }
    }

    /** `get_stats` */
    function GetStats(): (s: TxStats)
      reads this
      ensures s.packetsTransmitted == packetsTransmitted && s.bytesTransmitted == bytesTransmitted
      ensures s.modulation == modulation
    {
      TxStats(packetsTransmitted, bytesTransmitted, modulation)
    }

    /** `reset_stats` */
    method ResetStats()
      modifies this
      ensures packetsTransmitted == 0 && bytesTransmitted == 0
    {
      packetsTransmitted := 0;
      bytesTransmitted := 0;
    }
  }
}
