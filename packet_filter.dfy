/**
 * The transparent emulator's packet filters: a captured Ethernet frame is
 * simulated and forwarded only when it carries IPv4 (EtherType 0x0800, the
 * frame format of RFC 894) with protocol 17, UDP (RFC 768), in the protocol
 * field at offset 9 of the IPv4 header (RFC 791 section 3.1), and when its
 * source and destination MAC addresses differ. Capture, simulation and
 * forwarding are left out; a captured packet arrives as a parameter.
 */
module PacketFilter {
  import opened Wrappers
  import opened Exceptions
  import opened BitCodec

  /** The Ethernet header is 14 bytes; the IPv4 protocol field sits at offset 14 + 9. */
  const EtherTypeOffset: nat := 12
  const ProtocolOffset: nat := 23
  const EtherTypeIpv4: seq<Byte> := [0x08, 0x00]
  const ProtocolUdp: Byte := 17

  /** A Python slice `p[a:b]`: bounds past the end are clipped. */
  function Slice(p: seq<Byte>, a: nat, b: nat): (s: seq<Byte>)
    requires a <= b
    ensures |s| == (if b <= |p| then b else |p|) - (if a <= |p| then a else |p|)
    ensures b <= |p| ==> s == p[a..b]
  {
    var hi := if b <= |p| then b else |p|;
    var lo := if a <= |p| then a else |p|;
    p[lo..hi]
  }

  /**
   * `is_ipv4_udp` as written: the EtherType slice is compared first, then
   * byte 23 is indexed, which raises IndexError for a frame of 14 to 23
   * bytes with the IPv4 EtherType.
   */
  function IsIpv4UdpAsWritten(p: seq<Byte>): (r: Result<bool, Exception>)
    ensures r.Err? <==> Slice(p, 12, 14) == EtherTypeIpv4 && |p| <= ProtocolOffset
    ensures r.Err? ==> r.error == IndexError
    ensures |p| < 14 ==> r == Ok(false)
  {
    if Slice(p, 12, 14) != EtherTypeIpv4 then Ok(false)
    else if |p| <= ProtocolOffset then Err(IndexError)
    else Ok(p[ProtocolOffset] == ProtocolUdp)
  }

  /** A 14-byte frame announcing IPv4 makes the filter raise instead of answering. */
  lemma ShortIpv4FrameRaises()
    ensures IsIpv4UdpAsWritten([0, 0, 0, 0, 0, 0, 0, 0, 0, 0, 0, 0, 0x08, 0x00]) == Err(IndexError)
  {
    var p: seq<Byte> := [0, 0, 0, 0, 0, 0, 0, 0, 0, 0, 0, 0, 0x08, 0x00];
    assert Slice(p, 12, 14) == [0x08, 0x00];
  }

  /** The filter the code intends: a frame too short to hold the protocol field is not UDP. */
  predicate IsIpv4Udp(p: seq<Byte>): (r: bool)
    ensures |p| <= ProtocolOffset ==> !r
    ensures r ==> Slice(p, 12, 14) == EtherTypeIpv4 && p[ProtocolOffset] == ProtocolUdp
  {
    |p| > ProtocolOffset && p[EtherTypeOffset..EtherTypeOffset + 2] == EtherTypeIpv4
    && p[ProtocolOffset] == ProtocolUdp
  }

  /** On every frame the written filter can answer, it answers as the intended one. */
  lemma FilterAgrees(p: seq<Byte>)
    ensures IsIpv4UdpAsWritten(p).Ok? ==> IsIpv4UdpAsWritten(p) == Ok(IsIpv4Udp(p))
    ensures |p| > ProtocolOffset ==> IsIpv4UdpAsWritten(p) == Ok(IsIpv4Udp(p))
  {
  }

  /** `is_loop_packet`: destination MAC (bytes 0-5) equals source MAC (bytes 6-11). */
  function IsLoopPacket(p: seq<Byte>): (r: bool)
    ensures |p| >= 12 ==> (r <==> p[0..6] == p[6..12])
    ensures r ==> |p| == 0 || |p| >= 12
  {
    Slice(p, 0, 6) == Slice(p, 6, 12)
  }

  /** The forward decision: a payload is present, the frame is IPv4/UDP, and it is not a loop. */
  predicate Forwards(payload: Option<seq<Byte>>, raw: seq<Byte>)
  {
    payload.Some? && IsIpv4Udp(raw) && !IsLoopPacket(raw)
  }

  class Emulator {
    var pktCount: nat

    constructor()
      ensures pktCount == 0
    {
      pktCount := 0;
    }

    /**
     * One iteration of the capture loop: skip a capture without payload, a
     * frame that is not IPv4/UDP and a loop frame; count and forward the rest.
     */
    method Step(payload: Option<seq<Byte>>, raw: seq<Byte>) returns (forwarded: bool)
      modifies this
      ensures forwarded <==> Forwards(payload, raw)
      ensures pktCount == old(pktCount) + (if forwarded then 1 else 0)
    {
      forwarded := false;
      if payload.None? {
        return;
      }
      if !IsIpv4Udp(raw) {
        return;
      }
      if IsLoopPacket(raw) {
        return;
      }
      pktCount := pktCount + 1;
      forwarded := true;
    }
  }
}
