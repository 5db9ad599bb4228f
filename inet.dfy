/**
 * IPv4 addresses in dotted-quad text form, as `socket.inet_aton` and
 * `socket.inet_ntoa` convert them: four decimal octets separated by dots.
 */
module Inet {
  import opened Wrappers
  import opened Text
  import opened BitCodec

  /** One dotted-quad component: a canonical decimal numeral of at most 255. */
  function ParseOctet(s: string): (r: Option<Byte>)
    ensures r.Some? ==> Decimal(r.value) == s
  {
    if Canonical(s) && |s| <= 3 && DecimalValue(s) <= 255 then
      CanonicalDecimal(s);
      Some(DecimalValue(s))
    else None
  }

  /** `socket.inet_aton`: the 4 address bytes, or None for a malformed address. */
  function InetAton(s: string): (r: Option<seq<Byte>>)
    ensures r.Some? ==> |r.value| == 4
  {
    var parts := Split(s, '.');
    if |parts| != 4 then None
    else
      match (ParseOctet(parts[0]), ParseOctet(parts[1]), ParseOctet(parts[2]), ParseOctet(parts[3]))
      case (Some(a), Some(b), Some(c), Some(d)) => Some([a, b, c, d])
      case _ => None
  }

  /** `socket.inet_ntoa`: the dotted-quad text of 4 address bytes. */
  function InetNtoa(addr: seq<Byte>): string
    requires |addr| == 4
  {
    Join([Decimal(addr[0]), Decimal(addr[1]), Decimal(addr[2]), Decimal(addr[3])], '.')
  }

  lemma OctetRoundTrip(b: Byte)
    ensures ParseOctet(Decimal(b)) == Some(b)
    ensures NoSep(Decimal(b), '.')
  {
    DecimalRoundTrip(b);
    DecimalLength(b);
  }

  /** Every 4-byte address survives formatting and parsing. */
  lemma AtonNtoa(addr: seq<Byte>)
    requires |addr| == 4
    ensures InetAton(InetNtoa(addr)) == Some(addr)
  {
    var parts := [Decimal(addr[0]), Decimal(addr[1]), Decimal(addr[2]), Decimal(addr[3])];
    OctetRoundTrip(addr[0]);
    OctetRoundTrip(addr[1]);
    OctetRoundTrip(addr[2]);
    OctetRoundTrip(addr[3]);
    assert forall k :: 0 <= k < 4 ==> NoSep(parts[k], '.');
    JoinSplit(parts, '.');
    assert Split(InetNtoa(addr), '.') == parts;
    assert [addr[0], addr[1], addr[2], addr[3]] == addr;
  }

  /** An accepted address is in canonical form: formatting its bytes gives back the text. */
  lemma NtoaAton(s: string)
    requires InetAton(s).Some?
    ensures InetNtoa(InetAton(s).value) == s
  {
    var parts := Split(s, '.');
    SplitJoin(s, '.');
    assert [parts[0], parts[1], parts[2], parts[3]] == parts;
  }

  /** The address string of the invalid-address case is rejected. */
  lemma RejectsInvalidIp()
    ensures InetAton("invalid.ip") == None
  {
    var a, b := "invalid", "ip";
    assert NoSep(a, '.') && NoSep(b, '.');
    SplitPrefix(a, b, '.');
    SplitNoSep(b, '.');
    assert "invalid.ip" == a + ['.'] + b;
  }
}
