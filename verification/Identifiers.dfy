module Wrappers {
  datatype Option<+T> = None | Some(value: T)
}

/** Sender and peer addresses, and the equality the receive filter uses on them. */
module Identifiers {
  import opened Wrappers

  type Word32 = x: int | 0 <= x < 0x1_0000_0000
  type Port = x: int | 0 <= x < 0x1_0000

  datatype Identifier =
    | UnixInfo(value: string)
    | PortInfo(ip: string, port: Port, isRestrictedIp: bool)

  // The operating system's dotted-quad parser: None when the text is no IPv4 address.
  type InetPton = string -> Option<Word32>

  predicate IsBroadcastIp(ip: string) {
    ip == "255.255.255.255"
  }

  predicate IsMulticastIp(ip: string, inetPton: InetPton) {
    var addr := inetPton(ip);
    addr.Some? && 0xE000_0000 <= addr.value <= 0xEFFF_FFFF
  }

  /** The two-argument PortInfo constructor. */
  function MakePortInfo(ip: string, port: Port, inetPton: InetPton): Identifier {
    PortInfo(ip, port, IsBroadcastIp(ip) || IsMulticastIp(ip, inetPton))
  }

  /** IIdentifier::operator==: different classes never compare equal; otherwise isEqual decides. */
  predicate Same(a: Identifier, b: Identifier) {
    match (a, b)
    case (UnixInfo(v), UnixInfo(w)) => v == w
    case (PortInfo(ip, port, restricted), PortInfo(ip', port', restricted')) =>
      if restricted || restricted' then port == port' else ip == ip' && port == port'
    case _ => false
  }

  /** A unicast peer: one that only compares equal to itself among other unicast addresses. */
  predicate IsUnicast(a: Identifier) {
    a.PortInfo? ==> !a.isRestrictedIp
  }

  // Section 4 of RFC 1112: a host group address has 1110 as its high-order four bits.
  lemma MulticastIsClassD(ip: string, inetPton: InetPton)
    ensures IsMulticastIp(ip, inetPton) <==>
            inetPton(ip).Some? && inetPton(ip).value / 0x1000_0000 == 0xE
  {
  }

  /** The constructor marks exactly the broadcast address and the host groups as matching every address. */
  lemma UnicastExactly(ip: string, port: Port, inetPton: InetPton)
    ensures var a := MakePortInfo(ip, port, inetPton);
            && a.ip == ip && a.port == port
            && (IsUnicast(a) <==> ip != "255.255.255.255" && (inetPton(ip).Some? ==> inetPton(ip).value / 0x1000_0000 != 0xE))
  {
    MulticastIsClassD(ip, inetPton);
  }

  /**
   * Wildcard matching on constructor-built UDP addresses is an equivalence but for one gap:
   * it composes through the middle address exactly when that address is unrestricted,
   * or an end is restricted, or the two ends carry the same address text.
   */
  lemma WildcardComposes(ipA: string, ipB: string, ipC: string, pa: Port, pb: Port, pc: Port, inetPton: InetPton)
    ensures var a, b, c := MakePortInfo(ipA, pa, inetPton), MakePortInfo(ipB, pb, inetPton), MakePortInfo(ipC, pc, inetPton);
            && Same(a, a)
            && (Same(a, b) <==> Same(b, a))
            && (Same(a, b) ==> a.port == b.port)
            && (Same(a, b) && IsUnicast(a) && IsUnicast(b) ==> a == b)
            && (Same(a, b) && Same(b, c) ==>
                  (Same(a, c) <==> IsUnicast(b) || !IsUnicast(a) || !IsUnicast(c) || ipA == ipC))
  {
  }
}
