/** Rewriting the payload of a TCP/IPv4 packet: the splice, the new total length, and both
    checksums (section 3.1 of RFC 791, section 3.1 of RFC 793). */
module TcpMangle {
  import opened Bytes
  import opened InternetChecksum
  import opened PacketBuffer
  import Memory

  const IP_TOT_LEN := 2
  const IP_PROTOCOL := 9
  const IP_CHECK := 10
  const IP_SADDR := 12
  const IP_DADDR := 16
  const IP_MIN := 20
  const TCP_CHECK := 16
  const TCP_MIN := 20

  /** iph->ihl * 4 */
  function IhlBytes(p: seq<byte>): nat
    requires |p| > 0
  {
    p[0] as int % 0x10 * 4
  }

  /** tcph->doff * 4 */
  function DoffBytes(p: seq<byte>, ihl: nat): nat
    requires ihl + 12 < |p|
  {
    p[ihl + 12] as int / 0x10 * 4
  }

  /** Both headers are whole and the packet reaches past them. */
  predicate WellFormed(p: seq<byte>) {
    && |p| >= IP_MIN
    && IP_MIN <= IhlBytes(p) && IhlBytes(p) + TCP_MIN <= |p|
    && TCP_MIN <= DoffBytes(p, IhlBytes(p)) && IhlBytes(p) + DoffBytes(p, IhlBytes(p)) <= |p|
  }

  /** The pseudo header of section 3.1 of RFC 793 for a packet with a header of `ihl` bytes:
      both addresses, a zero byte, the protocol, and the TCP length. */
  function Pseudo(p: seq<byte>, ihl: nat): (s: seq<byte>)
    requires IP_MIN <= ihl <= |p| <= MAX_PACKET
    ensures |s| == 12
  {
    p[12..20] + [0, p[9]] + Net16(|p| - ihl)
  }

  /** Both checksums of a packet verify and its total length is its length. */
  predicate Consistent(p: seq<byte>, ihl: nat)
    requires IP_MIN <= ihl <= |p| <= MAX_PACKET
  {
    && Be16(p, 2) as int == |p|
    && Checksum(0, p[..ihl]) == 0
    && Checksum(0, Pseudo(p, ihl) + p[ihl..]) == 0
  }

  /** The fields that a mangle rewrites: the total length and the two checksums, where section
      3.1 of RFC 791 and section 3.1 of RFC 793 put them. */
  predicate Rewritten(k: int, ihl: nat) {
    k in [2, 3, 10, 11, ihl + 16, ihl + 17]
  }

  // ---------------------------------------------------------------- the header updates

  function SetTotLen(p: seq<byte>): (r: seq<byte>)
    requires IP_MIN <= |p|
    ensures |r| == |p|
  {
    Overwrite(p, IP_TOT_LEN, Net16(|p| % 0x1_0000))
  }

  function Zeroed(p: seq<byte>, at: nat): (r: seq<byte>)
    requires at + 2 <= |p|
    ensures |r| == |p|
  {
    Overwrite(p, at, Bytes16(0))
  }

  /** nfq_ip_set_checksum */
  function SetIpCheck(p: seq<byte>, ihl: nat): (r: seq<byte>)
    requires IP_MIN <= ihl <= |p|
    ensures |r| == |p|
  {
    var z := Zeroed(p, IP_CHECK);
    Overwrite(z, IP_CHECK, Bytes16(Checksum(0, z[..ihl])))
  }

  /** The starting sum of nfq_checksum_tcpudp_ipv4, field by field. */
  function TcpStart(p: seq<byte>, ihl: nat): (n: nat)
    requires IP_MIN <= ihl <= |p| <= MAX_PACKET
    ensures n <= 6 * ONES
  {
    Le16(p, IP_SADDR + 2) as int + Le16(p, IP_SADDR) as int + Le16(p, IP_DADDR + 2) as int + Le16(p, IP_DADDR) as int
    + Le16([0, IPPROTO_TCP], 0) as int + Le16(Net16(|p| - ihl), 0) as int
  }

  /** nfq_tcp_compute_checksum_ipv4 */
  function SetTcpCheck(p: seq<byte>, ihl: nat): (r: seq<byte>)
    requires IP_MIN <= ihl && ihl + TCP_MIN <= |p| <= MAX_PACKET
    ensures |r| == |p|
  {
    var z := Zeroed(p, ihl + TCP_CHECK);
    Overwrite(z, ihl + TCP_CHECK, Bytes16(Checksum(TcpStart(z, ihl), z[ihl..])))
  }

  method IpSetChecksum(buf: array<byte>, len: nat)
    requires IP_MIN <= len <= buf.Length && IP_MIN <= IhlBytes(buf[..len]) <= len
    modifies buf
    ensures buf[..len] == SetIpCheck(old(buf[..len]), old(IhlBytes(buf[..len])))
  {
    var ihl := IhlBytes(buf[..len]);
    ghost var was := buf[..len];
    WriteField(buf, len, IP_CHECK, Bytes16(0));
    NoWrap(0, buf[..ihl]);
    assert buf[..ihl] == Zeroed(was, IP_CHECK)[..ihl];
    var check := NfqChecksum(0, buf[..ihl]);
    WriteField(buf, len, IP_CHECK, Bytes16(check));
  }

  /** A store into the packet, seen as a store into its bytes. */
  method WriteField(buf: array<byte>, len: nat, at: nat, v: seq<byte>)
    requires at + |v| <= len <= buf.Length
    modifies buf
    ensures buf[..len] == Overwrite(old(buf[..len]), at, v)
  {
    Memory.CopyIn(buf, at, v);
  }

  /** nfq_checksum_tcpudp_ipv4, which reads the length from the header. */
  method TcpChecksum(p: seq<byte>) returns (check: u16)
    requires WellFormed(p) && |p| <= MAX_PACKET && Be16(p, IP_TOT_LEN) as int == |p|
    ensures check == Checksum(TcpStart(p, IhlBytes(p)), p[IhlBytes(p)..])
  {
    var ihl := IhlBytes(p);
    var len := Be16(p, IP_TOT_LEN) as nat - ihl;
    var sum: int := Le16(p, IP_SADDR + 2) as int + Le16(p, IP_SADDR) as int;
    sum := sum + Le16(p, IP_DADDR + 2) as int + Le16(p, IP_DADDR) as int;
    sum := sum + Le16([0, IPPROTO_TCP], 0) as int;
    sum := sum + Le16(Net16(len), 0) as int;
    assert p[ihl..ihl + len] == p[ihl..];
    NoWrap(TcpStart(p, ihl), p[ihl..]);
    check := NfqChecksum(sum, p[ihl..ihl + len]);
  }

  method TcpComputeChecksum(buf: array<byte>, len: nat)
    requires len <= buf.Length && WellFormed(buf[..len]) && len <= MAX_PACKET && Be16(buf[..len], IP_TOT_LEN) as int == len
    modifies buf
    ensures buf[..len] == SetTcpCheck(old(buf[..len]), old(IhlBytes(buf[..len])))
  {
    var ihl := IhlBytes(buf[..len]);
    var p := buf[..len];
    WriteField(buf, len, ihl + TCP_CHECK, Bytes16(0));
    KeepsShape(p, Zeroed(p, ihl + TCP_CHECK), ihl);
    var check := TcpChecksum(buf[..len]);
    WriteField(buf, len, ihl + TCP_CHECK, Bytes16(check));
  }

  /** Rewriting the length and checksum fields leaves the header lengths alone. */
  lemma KeepsShape(p: seq<byte>, r: seq<byte>, ihl: nat)
    requires WellFormed(p) && IhlBytes(p) == ihl && |r| == |p|
    requires forall k :: 0 <= k < |p| && !Rewritten(k, ihl) ==> r[k] == p[k]
    ensures WellFormed(r) && IhlBytes(r) == ihl
  {
    assert r[0] == p[0] && r[ihl + 12] == p[ihl + 12];
  }

  /** nfq_ip_mangle: the splice, the total length, and the header checksum. */
  method IpMangle(pkt: PktBuff, dataoff: nat, matchOffset: nat, matchLen: nat, rep: seq<byte>) returns (ok: bool)
    requires pkt.Valid() && pkt.CanMangle(dataoff + matchOffset, matchLen, rep)
    requires IP_MIN <= pkt.len && IP_MIN <= IhlBytes(pkt.Contents()) <= dataoff
    modifies pkt, pkt.data
    ensures pkt.Valid() && ok == (Growth(matchLen, rep) <= old(pkt.Tailroom()))
    ensures ok ==> pkt.len == old(pkt.len) - matchLen + |rep|
    ensures ok ==> pkt.Contents() == SetIpCheck(SetTotLen(Splice(old(pkt.Contents()), dataoff + matchOffset, matchLen, rep)), old(IhlBytes(pkt.Contents())))
    ensures !ok ==> pkt.Contents() == old(pkt.Contents())
  {
    var ihl := IhlBytes(pkt.Contents());
    ok := pkt.Mangle(dataoff, matchOffset, matchLen, rep);
    if !ok {
      return;
    }
    ghost var spliced := pkt.Contents();
    assert spliced[0] == old(pkt.Contents())[0];
    WriteField(pkt.data, pkt.len, IP_TOT_LEN, Net16(pkt.len % 0x1_0000));
    IpSetChecksum(pkt.data, pkt.len);
  }

  /** nfq_tcp_mangle_ipv4: apart from the total length and the two checksums the packet is the
      old one with the match replaced, and all three fields are right. */
  method MangleTcp(pkt: PktBuff, matchOffset: nat, matchLen: nat, rep: seq<byte>) returns (ok: bool)
    requires pkt.Valid() && WellFormed(pkt.Contents()) && pkt.Contents()[IP_PROTOCOL] == IPPROTO_TCP
    requires pkt.CanMangle(PayloadAt(pkt.Contents()) + matchOffset, matchLen, rep)
    requires pkt.len + |rep| <= MAX_PACKET + matchLen
    modifies pkt, pkt.data
    ensures pkt.Valid() && ok == (Growth(matchLen, rep) <= old(pkt.Tailroom()))
    ensures ok ==> Mangled(pkt.Contents(), Wanted(old(pkt.Contents()), matchOffset, matchLen, rep), old(IhlBytes(pkt.Contents())))
    ensures !ok ==> pkt.Contents() == old(pkt.Contents())
  {
    hide Splice, SetIpCheck, SetTotLen, Mangled;
    var p := pkt.Contents();
    var ihl := IhlBytes(p);
    var doff := DoffBytes(p, ihl);
    ok := IpMangle(pkt, ihl + doff, matchOffset, matchLen, rep);
    if ok {
      ghost var spliced := Wanted(p, matchOffset, matchLen, rep);
      SplicedShape(p, ihl + doff + matchOffset, matchLen, rep);
      FinishTcp(pkt.data, pkt.len, spliced, ihl);
    }
  }

  /** The last step of the mangle, on a packet whose splice and IP header are done. */
  method FinishTcp(buf: array<byte>, len: nat, ghost spliced: seq<byte>, ghost ihl: nat)
    requires len <= buf.Length && |spliced| == len <= MAX_PACKET
    requires WellFormed(spliced) && IhlBytes(spliced) == ihl && spliced[IP_PROTOCOL] == IPPROTO_TCP
    requires buf[..len] == SetIpCheck(SetTotLen(spliced), ihl)
    modifies buf
    ensures Mangled(buf[..len], spliced, ihl)
  {
    UpdatesShape(spliced, ihl);
    TcpComputeChecksum(buf, len);
    UpdatesVerify(spliced, ihl);
  }

  function PayloadAt(p: seq<byte>): nat
    requires WellFormed(p)
  {
    IhlBytes(p) + DoffBytes(p, IhlBytes(p))
  }

  /** The old packet with the match replaced. */
  function Wanted(p: seq<byte>, matchOffset: nat, matchLen: nat, rep: seq<byte>): seq<byte>
    requires WellFormed(p) && PayloadAt(p) + matchOffset + matchLen <= |p|
  {
    Splice(p, PayloadAt(p) + matchOffset, matchLen, rep)
  }

  /** In a packet that was laid out as an IPv4 header, a TCP header and a payload, the match is
      replaced in the payload. */
  lemma PayloadLaid(ip: seq<byte>, tcp: seq<byte>, payload: seq<byte>, ipWords: nat, tcpWords: nat, low: nat, matchOffset: nat, matchLen: nat, rep: seq<byte>)
    requires 5 <= ipWords < 16 && |ip| == 4 * ipWords && ip[0] as nat == 0x40 + ipWords
    requires 5 <= tcpWords < 16 && |tcp| == 4 * tcpWords && low < 0x10 && tcp[12] as nat == 0x10 * tcpWords + low
    requires matchOffset + matchLen <= |payload|
    ensures var p := ip + tcp + payload;
            && WellFormed(p) && IhlBytes(p) == |ip| && PayloadAt(p) == |ip| + |tcp|
            && Wanted(p, matchOffset, matchLen, rep) == ip + tcp + (payload[..matchOffset] + rep + payload[matchOffset + matchLen..])
  {
    var p := ip + tcp + payload;
    assert p[0] == ip[0] && p[|ip| + 12] == tcp[12];
    assert p[..|ip| + |tcp| + matchOffset] == ip + tcp + payload[..matchOffset];
    assert p[|ip| + |tcp| + matchOffset + matchLen..] == payload[matchOffset + matchLen..];
  }

  /** The outcome of a mangle whose splice is `spliced`. */
  ghost predicate Mangled(now: seq<byte>, spliced: seq<byte>, ihl: nat) {
    && |now| == |spliced| <= MAX_PACKET && IP_MIN <= ihl <= |now|
    && (forall k :: 0 <= k < |now| && !Rewritten(k, ihl) ==> now[k] == spliced[k])
    && Consistent(now, ihl)
  }

  lemma SplicedShape(p: seq<byte>, at: nat, n: nat, rep: seq<byte>)
    requires WellFormed(p) && PayloadAt(p) <= at && at + n <= |p|
    ensures var r := Splice(p, at, n, rep);
            WellFormed(r) && IhlBytes(r) == IhlBytes(p) && r[IP_PROTOCOL] == p[IP_PROTOCOL]
  {
    var r := Splice(p, at, n, rep);
    assert r[0] == p[0] && r[IhlBytes(p) + 12] == p[IhlBytes(p) + 12];
  }

  /** The packet after both IP updates still has its shape and its total length. */
  lemma UpdatesShape(p: seq<byte>, ihl: nat)
    requires WellFormed(p) && IhlBytes(p) == ihl && |p| <= MAX_PACKET
    ensures var q := SetIpCheck(SetTotLen(p), ihl);
            WellFormed(q) && IhlBytes(q) == ihl && Be16(q, IP_TOT_LEN) as int == |p| && q[IP_PROTOCOL] == p[IP_PROTOCOL]
  {
    hide SetIpCheck, SetTotLen;
    var q := SetIpCheck(SetTotLen(p), ihl);
    TotLenSet(p);
    IpCheckKeeps(SetTotLen(p), ihl);
    KeepsShape(p, q, ihl);
  }

  lemma TotLenSet(p: seq<byte>)
    requires IP_MIN <= |p|
    ensures Be16(SetTotLen(p), IP_TOT_LEN) as int == |p| % 0x1_0000
    ensures forall k :: 0 <= k < |p| && k != IP_TOT_LEN && k != IP_TOT_LEN + 1 ==> SetTotLen(p)[k] == p[k]
  {
    var n := Net16(|p| % 0x1_0000);
    var r := SetTotLen(p);
    assert r[IP_TOT_LEN] == n[0] && r[IP_TOT_LEN + 1] == n[1];
  }

  lemma IpCheckKeeps(p: seq<byte>, ihl: nat)
    requires IP_MIN <= ihl <= |p|
    ensures forall k :: 0 <= k < |p| && k != IP_CHECK && k != IP_CHECK + 1 ==> SetIpCheck(p, ihl)[k] == p[k]
  {
    hide Checksum;
  }

  /** The updates touch the rewritten fields only. */
  lemma UpdatesKeep(p: seq<byte>, ihl: nat)
    requires IP_MIN <= ihl && ihl + TCP_MIN <= |p| <= MAX_PACKET
    ensures var r := SetTcpCheck(SetIpCheck(SetTotLen(p), ihl), ihl);
            forall k :: 0 <= k < |p| && !Rewritten(k, ihl) ==> r[k] == p[k]
  {
  }

  /** All three updates together make the packet consistent. */
  lemma UpdatesVerify(p: seq<byte>, ihl: nat)
    requires WellFormed(p) && IhlBytes(p) == ihl && |p| <= MAX_PACKET && p[IP_PROTOCOL] == IPPROTO_TCP
    ensures Mangled(SetTcpCheck(SetIpCheck(SetTotLen(p), ihl), ihl), p, ihl)
  {
    var q := SetIpCheck(SetTotLen(p), ihl);
    UpdatesShape(p, ihl);
    UpdatesKeep(p, ihl);
    IpCheckVerifies(SetTotLen(p), ihl);
    TcpCheckVerifies(q, ihl);
    TcpCheckKeepsHeader(q, ihl);
  }

  lemma TcpCheckKeepsHeader(q: seq<byte>, ihl: nat)
    requires IP_MIN <= ihl && ihl + TCP_MIN <= |q| <= MAX_PACKET
    ensures var r := SetTcpCheck(q, ihl);
            r[..ihl] == q[..ihl] && Be16(r, IP_TOT_LEN) == Be16(q, IP_TOT_LEN)
  {
    var r := SetTcpCheck(q, ihl);
    assert r[..ihl] == q[..ihl];
    assert r[IP_TOT_LEN] == q[IP_TOT_LEN] && r[IP_TOT_LEN + 1] == q[IP_TOT_LEN + 1];
  }

  lemma IpCheckVerifies(p: seq<byte>, ihl: nat)
    requires IP_MIN <= ihl <= |p|
    ensures Checksum(0, SetIpCheck(p, ihl)[..ihl]) == 0
  {
    var z := Zeroed(p, IP_CHECK);
    StoredChecksumVerifies(0, z[..ihl], IP_CHECK);
    assert SetIpCheck(p, ihl)[..ihl] == Overwrite(z[..ihl], IP_CHECK, Bytes16(Checksum(0, z[..ihl])));
  }

  lemma TcpCheckVerifies(p: seq<byte>, ihl: nat)
    requires IP_MIN <= ihl && ihl + TCP_MIN <= |p| <= MAX_PACKET && p[IP_PROTOCOL] == IPPROTO_TCP
    ensures var r := SetTcpCheck(p, ihl);
            Checksum(0, Pseudo(r, ihl) + r[ihl..]) == 0
  {
    var z, r := Zeroed(p, ihl + TCP_CHECK), SetTcpCheck(p, ihl);
    StoredChecksumVerifies(TcpStart(z, ihl), z[ihl..], TCP_CHECK);
    assert r[ihl..] == Overwrite(z[ihl..], TCP_CHECK, Bytes16(Checksum(TcpStart(z, ihl), z[ihl..])));
    assert Pseudo(r, ihl) == Pseudo(z, ihl);
    PseudoSum(z, ihl);
    SumConcat(Pseudo(r, ihl), r[ihl..]);
  }

  /** The starting sum is the sum of the pseudo header. */
  lemma PseudoSum(p: seq<byte>, ihl: nat)
    requires IP_MIN <= ihl <= |p| <= MAX_PACKET && p[IP_PROTOCOL] == IPPROTO_TCP
    ensures Sum(Pseudo(p, ihl)) == TcpStart(p, ihl)
  {
    var s := Pseudo(p, ihl);
    var n := Net16(|p| - ihl);
    assert s == [p[12], p[13], p[14], p[15], p[16], p[17], p[18], p[19], 0, p[9], n[0], n[1]];
    SumHead(s, 0);
    SumHead(s, 2);
    SumHead(s, 4);
    SumHead(s, 6);
    SumHead(s, 8);
    SumHead(s, 10);
    assert s[0..] == s && s[12..] == [];
  }
}
