/** `ipaddress.ip_network(text, strict=False)`: the text is tried as an IPv4
    network first and as an IPv6 network second; when neither reading
    succeeds the call raises `ValueError`, modelled as `None`.

    The IPv6 text grammar (groups, `::` compression, embedded IPv4 tails,
    scope ids) is not part of this model. It enters as a reader that maps a
    text to the 128-bit address and prefix length it denotes, if any. This
    module range-checks what the reader returns and clears the host bits,
    exactly as the IPv4 side does. Every IPv6 text holds a colon (the library
    rejects text with fewer than three colon-separated parts), so text
    without one never reaches the reader. */
module IpNetwork {
  import opened Wrappers
  import opened Network
  import Ipv4

  type V6Reader = string -> Option<(nat, nat)>

  /** `IPv6Network(text, strict=False)`. */
  function ParseV6(v6: V6Reader, s: string): (r: Option<Network>)
    ensures r.Some? ==> r.value.version == V6 && ':' in s
  {
    if ':' !in s then None
    else
      match v6(s)
      case None => None
      case Some((a, p)) =>
        if a < Pow2(128) && p <= 128 then Some(MakeNetwork(V6, a, p)) else None
  }

  /** `ip_network(text, strict=False)`. */
  function Parse(v6: V6Reader, s: string): (r: Option<Network>)
    ensures r.Some? && r.value.version == V4 ==> r == Ipv4.ParseNetwork(s)
    ensures r.Some? && r.value.version == V6 ==> r == ParseV6(v6, s)
  {
    match Ipv4.ParseNetwork(s)
    case Some(n) => Some(n)
    case None => ParseV6(v6, s)
  }

  /** Text without a colon is read as IPv4 only, whatever the IPv6 reader. */
  lemma ParseWithoutColon(v6: V6Reader, s: string)
    requires ':' !in s
    ensures Parse(v6, s) == Ipv4.ParseNetwork(s)
  {
  }

  /** Text with a colon is read as IPv6 only: trying IPv4 first never
      shadows an IPv6 reading. */
  lemma ParseWithColon(v6: V6Reader, s: string)
    requires ':' in s
    ensures Parse(v6, s) == ParseV6(v6, s)
  {
    Ipv4.ColonNeverIpv4(s);
  }

  /** An IPv6 reading clears host bits and keeps the address in its network. */
  lemma ParseV6Masks(v6: V6Reader, s: string)
    requires ParseV6(v6, s).Some?
    ensures v6(s).Some?
    ensures ParseV6(v6, s).value.prefix == v6(s).value.1
    ensures Contains(ParseV6(v6, s).value, V6, v6(s).value.0)
  {
    var n := ParseV6(v6, s).value;
    ContainsIffInRange(n, v6(s).value.0);
  }
}
