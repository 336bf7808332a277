/** Network addresses: the keys of the visitor record and the displayed interface address. */
module Net {
  import Decimal
  import Words

  type Octet = x: nat | x < 256

  type Segment = x: nat | x < 0x1_0000

  /** The eight 16-bit segments of an IPv6 address. */
  type Segments = s: seq<Segment> | |s| == 8 witness [0, 0, 0, 0, 0, 0, 0, 0]

  datatype Ipv4Addr = Ipv4Addr(a: Octet, b: Octet, c: Octet, d: Octet)

  /** A visitor's source address; only its identity matters to the counter. */
  datatype IpAddr = V4(v4: Ipv4Addr) | V6(segments: Segments)

  /** Dotted-decimal display, as `Ipv4Addr`'s `to_string` produces it. */
  function Ipv4ToString(ip: Ipv4Addr): (s: string)
    ensures Words.Split(s, '.') == [
      Decimal.NatToString(ip.a), Decimal.NatToString(ip.b),
      Decimal.NatToString(ip.c), Decimal.NatToString(ip.d)]
  {
    var parts := [
      Decimal.NatToString(ip.a), Decimal.NatToString(ip.b),
      Decimal.NatToString(ip.c), Decimal.NatToString(ip.d)];
    forall i | 0 <= i < 4
      ensures '.' !in parts[i]
    {
      Decimal.DigitsHaveNoChar(parts[i], '.');
    }
    Words.SplitJoin(parts, '.');
    Words.Join(parts, '.')
  }
}
