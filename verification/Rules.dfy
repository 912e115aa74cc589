/** The filter's rules: matching one packet, judging it by a rule list, and the two JSON
    conversions that the control port uses. */
module Rules {
  import opened Wrappers
  import opened Bytes
  import opened InternetChecksum

  type u8 = byte

  const TYPE_BLACK_LIST: u8 := 0
  const TYPE_WHITE_LIST: u8 := 1
  const TYPE_MONITOR_LIST: u8 := 2
  const EVERY_TIME: u32 := 0xffff_ffff

  /** Addresses and ports are the words that the packet holds, in network order. */
  datatype Rule = Rule(destPort: u16, srcPort: u16, srcIp: u32, destIp: u32, timePass: u32, typ: u8, protocol: u8, subProtocol: u8)

  /** What the extractor answers for one packet. */
  datatype Packet = Packet(protocol: u8, srcIp: u32, destIp: u32, srcPort: u16, destPort: u16, icmpType: u8)

  // ---------------------------------------------------------------- time masks

  predicate Bit(m: nat, i: nat) { if i == 0 then m % 2 == 1 else Bit(m / 2, i - 1) }

  /** The bitwise conjunction of two words is not zero. */
  predicate Meets(a: nat, b: nat) {
    a != 0 && b != 0 && ((a % 2 == 1 && b % 2 == 1) || Meets(a / 2, b / 2))
  }

  /** getTimePass: one bit for the hour of the day in the low three bytes and one for the day of
      the week in the fourth. */
  function TimePass(hour: nat, wday: nat): (t: nat)
    requires hour < 24 && wday < 7
    ensures t > 0
  {
    Pow2(hour) + Pow2(24 + wday)
  }

  lemma {:induction false} NoBit(i: nat)
    ensures !Bit(0, i)
    decreases i
  {
    if i > 0 {
      NoBit(i - 1);
    }
  }

  lemma {:induction false} MeetsOne(m: nat, i: nat)
    ensures Meets(m, Pow2(i)) <==> Bit(m, i)
    decreases i
  {
    if i > 0 {
      MeetsOne(m / 2, i - 1);
      NoBit(i);
      assert Pow2(i) % 2 == 0 && Pow2(i) / 2 == Pow2(i - 1);
    } else {
      assert Meets(m, 1) <==> m % 2 == 1;
    }
  }

  lemma {:induction false} MeetsTwo(m: nat, i: nat, j: nat)
    requires i < j
    ensures Meets(m, Pow2(i) + Pow2(j)) <==> Bit(m, i) || Bit(m, j)
    decreases i
  {
    var b := Pow2(i) + Pow2(j);
    assert Pow2(j) == 2 * Pow2(j - 1);
    NoBit(i);
    NoBit(j);
    if i > 0 {
      assert b == 2 * (Pow2(i - 1) + Pow2(j - 1));
      MeetsTwo(m / 2, i - 1, j - 1);
    } else {
      MeetsOne(m / 2, j - 1);
      assert b % 2 == 1 && b / 2 == Pow2(j - 1);
    }
  }

  /** A rule is in force when its mask has the bit of the hour or the bit of the weekday. */
  lemma InForceIff(mask: u32, hour: nat, wday: nat)
    requires hour < 24 && wday < 7
    ensures Meets(mask, TimePass(hour, wday)) <==> Bit(mask, hour) || Bit(mask, 24 + wday)
  {
    MeetsTwo(mask, hour, 24 + wday);
  }

  lemma {:induction false} OnesMeet(t: nat, n: nat)
    requires 0 < t < Pow2(n)
    ensures Meets(Pow2(n) - 1, t)
    decreases n
  {
    if n > 0 && t % 2 == 0 {
      OnesMeet(t / 2, n - 1);
      assert (Pow2(n) - 1) / 2 == Pow2(n - 1) - 1;
    }
  }

  /** getTimePass byte by byte: one bit for the hour among the first three bytes, eight hours to a
      byte, and one for the weekday in the last. */
  lemma TimePassBytes(hour: nat, wday: nat)
    requires hour < 24 && wday < 7
    ensures TimePass(hour, wday) < 0x1_0000_0000
    ensures var b := Bytes32(TimePass(hour, wday));
            && b[hour / 8] as nat == Pow2(hour % 8) && b[3] as nat == Pow2(wday)
            && forall i :: 0 <= i < 3 && i != hour / 8 ==> b[i] == 0
  {
    hide Pow2;
    var x, y := Pow2(hour % 8), Pow2(wday);
    Pow2Sum(8 * (hour / 8), hour % 8);
    Pow2Sum(24, wday);
    Pow2Grows(hour % 8, 7);
    Pow2Grows(wday, 6);
    SmallPowers();
    BytesOfSum(hour / 8, x, y);
  }

  lemma SmallPowers()
    ensures Pow2(0) == 1 && Pow2(6) == 0x40 && Pow2(7) == 0x80 && Pow2(8) == 0x100 && Pow2(16) == 0x1_0000 && Pow2(24) == 0x100_0000
  {
    assert Pow2(8) == 0x100;
    assert Pow2(16) == 0x1_0000;
  }

  lemma {:induction false} Pow2Sum(a: nat, b: nat)
    ensures Pow2(a + b) == Pow2(a) * Pow2(b)
    decreases a
  {
    if a > 0 {
      Pow2Sum(a - 1, b);
    }
  }

  lemma BytesOfSum(q: nat, x: nat, y: nat)
    requires q < 3 && x < 0x100 && y < 0x80
    ensures var v := x * (if q == 0 then 1 else if q == 1 then 0x100 else 0x1_0000) + 0x100_0000 * y;
            && v < 0x1_0000_0000
            && var b := Bytes32(v);
               b[q] as nat == x && b[3] as nat == y && forall i :: 0 <= i < 3 && i != q ==> b[i] == 0
  {
    hide Bytes32;
    var s: seq<byte> := [if q == 0 then x else 0, if q == 1 then x else 0, if q == 2 then x else 0, y];
    WordBytes(s);
    assert s[..4] == s;
  }

  // ---------------------------------------------------------------- matching

  /** A zero field of a rule stands for every value. */
  predicate FieldMatches(stand: int, value: int) { stand == 0 || value == stand }

  /** Rule::leastCheck */
  predicate LeastCheck(r: Rule, p: Packet, now: nat) {
    && FieldMatches(r.protocol, p.protocol)
    && FieldMatches(r.srcIp, p.srcIp)
    && FieldMatches(r.destIp, p.destIp)
    && Meets(r.timePass, now)
  }

  /** Rule::check */
  predicate Matches(r: Rule, p: Packet, now: nat) {
    LeastCheck(r, p, now) &&
    if p.protocol == IPPROTO_TCP || p.protocol == IPPROTO_UDP then
      FieldMatches(r.srcPort, p.srcPort) && FieldMatches(r.destPort, p.destPort)
    else if p.protocol == IPPROTO_ICMP then FieldMatches(r.subProtocol, p.icmpType)
    else true
  }

  /** Some white rule matches or no black rule does. */
  predicate Accepts(rules: seq<Rule>, p: Packet, now: nat) {
    || (exists r <- rules :: r.typ == TYPE_WHITE_LIST && Matches(r, p, now))
    || !exists r <- rules :: r.typ == TYPE_BLACK_LIST && Matches(r, p, now)
  }

  /** Only which black and white rules there are matters: not their order, not how often each
      is listed, and not the monitor rules. */
  lemma VerdictBySet(a: seq<Rule>, b: seq<Rule>, p: Packet, now: nat)
    requires forall r: Rule :: r.typ in [TYPE_BLACK_LIST, TYPE_WHITE_LIST] ==> (r in a <==> r in b)
    ensures Accepts(a, p, now) == Accepts(b, p, now)
  {
    if exists r <- a :: r.typ == TYPE_WHITE_LIST && Matches(r, p, now) {
      var r :| r in a && r.typ == TYPE_WHITE_LIST && Matches(r, p, now);
      assert r in b;
    }
    if exists r <- a :: r.typ == TYPE_BLACK_LIST && Matches(r, p, now) {
      var r :| r in a && r.typ == TYPE_BLACK_LIST && Matches(r, p, now);
      assert r in b;
    }
  }

  // ---------------------------------------------------------------- JSON

  datatype Json = Null | Bool(b: bool) | Num(n: real) | Str(s: string) | Arr(items: seq<Json>) | Obj(fields: map<string, Json>)

  /** The library functions: the two address conversions, and what a conversion of a number
      outside the range of uint64_t gives. */
  datatype Libc = Libc(aton: string -> u32, ntoa: u32 -> string, wild: real -> nat) {
    ghost predicate Inverse() { forall a: u32 :: aton(ntoa(a)) == a }

    function ToU64(x: real): nat {
      if -1.0 < x < 0.0 then 0
      else if 0.0 <= x < 18446744073709551616.0 then x.Floor
      else wild(x) % 0x1_0000_0000_0000_0000
    }
  }

  function GetInteger(c: Libc, o: map<string, Json>, key: string, default: nat): nat {
    if key in o && o[key].Num? then c.ToU64(o[key].n) else default
  }

  function GetString(o: map<string, Json>, key: string, default: string): string {
    if key in o && o[key].Str? then o[key].s else default
  }

  const NUL := '\0'

  /** A C string ends at its first NUL. */
  function CStr(s: string): string {
    if s == [] || s[0] == NUL then [] else [s[0]] + CStr(s[1..])
  }

  /** Where the scan for the dot stops. */
  function DotFrom(s: string, i: nat): (k: nat)
    requires i <= |s|
    ensures i <= k <= |s| && (k < |s| ==> s[k] == '.' || s[k] == NUL)
    ensures forall j :: i <= j < k ==> s[j] != '.' && s[j] != NUL
    decreases |s| - i
  {
    if i == |s| || s[i] == '.' || s[i] == NUL then i else DotFrom(s, i + 1)
  }

  function GetProtocolType(p: string): u8 {
    if p == "tcp" then IPPROTO_TCP else if p == "udp" then IPPROTO_UDP else if p == "icmp" then IPPROTO_ICMP else 0
  }

  function GetProtocolString(t: u8): string {
    if t == IPPROTO_ICMP then "icmp" else if t == IPPROTO_UDP then "udp" else if t == IPPROTO_TCP then "tcp" else "unknown"
  }

  /** The message types of RFC 792 and RFC 950 under the names of the icmp header; the echo
      request is missing from the tables. */
  function GetIcmpSubType(p: string): u8 {
    if p == "ICMP_ECHOREPLY" then 0
    else if p == "ICMP_DEST_UNREACH" then 3
    else if p == "ICMP_SOURCE_QUENCH" then 4
    else if p == "ICMP_REDIRECT" then 5
    else if p == "ICMP_TIME_EXCEEDED" then 11
    else if p == "ICMP_PARAMETERPROB" then 12
    else if p == "ICMP_TIMESTAMP" then 13
    else if p == "ICMP_TIMESTAMPREPLY" then 14
    else if p == "ICMP_INFO_REQUEST" then 15
    else if p == "ICMP_INFO_REPLY" then 16
    else if p == "ICMP_ADDRESS" then 17
    else if p == "ICMP_ADDRESSREPLY" then 18
    else 0
  }

  function GetIcmpString(t: u8): string {
    if t == 0 then "ICMP_ECHOREPLY"
    else if t == 3 then "ICMP_DEST_UNREACH"
    else if t == 4 then "ICMP_SOURCE_QUENCH"
    else if t == 5 then "ICMP_REDIRECT"
    else if t == 11 then "ICMP_TIME_EXCEEDED"
    else if t == 12 then "ICMP_PARAMETERPROB"
    else if t == 13 then "ICMP_TIMESTAMP"
    else if t == 14 then "ICMP_TIMESTAMPREPLY"
    else if t == 15 then "ICMP_INFO_REQUEST"
    else if t == 16 then "ICMP_INFO_REPLY"
    else if t == 17 then "ICMP_ADDRESS"
    else if t == 18 then "ICMP_ADDRESSREPLY"
    else ""
  }

  predicate Named(t: u8) { t in [0, 3, 4, 5, 11, 12, 13, 14, 15, 16, 17, 18] }

  /** What the protocol string of a rule means: a protocol name, and after a dot the name of an
      ICMP message type.  The scan starts at the second character. */
  function ProtocolOf(s: string): (u8, u8) {
    if s == "" then (0, 0)
    else
      var k := DotFrom(s, 1);
      (GetProtocolType(CStr(s[..k])), if k < |s| && s[k] == '.' then GetIcmpSubType(CStr(s[k + 1..])) else 0)
  }

  method ParseProtocol(s: string) returns (protocol: u8, subProtocol: u8)
    ensures (protocol, subProtocol) == ProtocolOf(s)
  {
    protocol, subProtocol := 0, 0;
    if s != "" {
      var k := 1;
      while k < |s| && s[k] != NUL && s[k] != '.'
        invariant 1 <= k <= |s| && DotFrom(s, 1) == DotFrom(s, k)
      {
        k := k + 1;
      }
      if k < |s| && s[k] == '.' {
        subProtocol := GetIcmpSubType(CStr(s[k + 1..]));
      }
      protocol := GetProtocolType(CStr(s[..k]));
    }
  }

  /** The rule that a JSON value stands for; anything but an object makes picojson throw. */
  function Parsed(c: Libc, j: Json): Option<Rule> {
    if !j.Obj? then None
    else
      var o := j.fields;
      var (protocol, subProtocol) := ProtocolOf(GetString(o, "protocol", ""));
      Some(Rule(
        Swap16(GetInteger(c, o, "target_port", 0) % 0x1_0000),
        Swap16(GetInteger(c, o, "src_port", 0) % 0x1_0000),
        c.aton(GetString(o, "src_ip", "0.0.0.0")),
        c.aton(GetString(o, "target_ip", "0.0.0.0")),
        GetInteger(c, o, "time_pass", EVERY_TIME) % 0x1_0000_0000,
        GetInteger(c, o, "type", 0) % 0x100,
        protocol, subProtocol))
  }

  /** Rule::ParseFromJson */
  method ParseRule(c: Libc, j: Json) returns (r: Option<Rule>)
    ensures r == Parsed(c, j)
  {
    if !j.Obj? {
      return None;
    }
    var o := j.fields;
    var protocol, subProtocol := ParseProtocol(GetString(o, "protocol", ""));
    r := Some(Rule(
      Swap16(GetInteger(c, o, "target_port", 0) % 0x1_0000),
      Swap16(GetInteger(c, o, "src_port", 0) % 0x1_0000),
      c.aton(GetString(o, "src_ip", "0.0.0.0")),
      c.aton(GetString(o, "target_ip", "0.0.0.0")),
      GetInteger(c, o, "time_pass", EVERY_TIME) % 0x1_0000_0000,
      GetInteger(c, o, "type", 0) % 0x100,
      protocol, subProtocol));
  }

  /** Rule::toJson.  The mask goes out under a key that the parser does not read, and the test
      for an ICMP sub-type compares it with the protocol number. */
  function RuleJson(c: Libc, r: Rule): (j: Json)
    ensures j.Obj?
  {
    Obj(map[
      "src_ip" := Str(c.ntoa(r.srcIp)),
      "target_ip" := Str(c.ntoa(r.destIp)),
      "src_port" := Num(Swap16(r.srcPort) as real),
      "target_port" := Num(Swap16(r.destPort) as real),
      "type" := Num(r.typ as real),
      "timepass" := Num(r.timePass as real),
      "protocol" := Str(ProtocolName(r))
    ])
  }

  function ProtocolName(r: Rule): string {
    GetProtocolString(r.protocol) + if r.subProtocol == IPPROTO_ICMP then "." + GetIcmpString(r.subProtocol) else ""
  }

  lemma KeysDiffer()
    ensures var keys := ["src_ip", "target_ip", "src_port", "target_port", "type", "timepass", "protocol", "time_pass"];
            forall i, j :: 0 <= i < j < |keys| ==> keys[i] != keys[j]
  {
    assert "src_port"[0] == 's' && "timepass"[0] == 't' && "protocol"[0] == 'p';
    assert "target_ip"[1] == 'a' && "time_pass"[1] == 'i';
  }

  /** What is left of a rule that has gone out and come back. */
  function Reloaded(r: Rule): Rule {
    r.(timePass := EVERY_TIME, subProtocol := 0,
       protocol := if r.protocol in [IPPROTO_ICMP, IPPROTO_TCP, IPPROTO_UDP] then r.protocol else 0)
  }

  lemma SwapTwice(v: u16)
    ensures Swap16(Swap16(v)) == v
  {
    var h, l := v as int / 0x100, v as int % 0x100;
    assert Swap16(v) as int == h + l * 0x100;
    assert (h + l * 0x100) / 0x100 == l && (h + l * 0x100) % 0x100 == h;
  }

  lemma {:induction false} CStrPrefix(a: string, b: string)
    requires NUL !in a && (b == [] || b[0] == NUL)
    ensures CStr(a + b) == a
    decreases |a|
  {
    if a == [] {
      assert a + b == b;
    } else {
      assert (a + b)[1..] == a[1..] + b;
      CStrPrefix(a[1..], b);
    }
  }

  /** A plain name is read as itself, without a sub-type. */
  lemma PlainName(name: string)
    requires name != "" && NUL !in name && '.' !in name
    ensures ProtocolOf(name) == (GetProtocolType(name), 0)
  {
    var k := DotFrom(name, 1);
    assert k == |name|;
    assert name[..k] == name == name + [];
    CStrPrefix(name, []);
  }

  /** A dot in front is part of the name, since the scan starts behind it. */
  lemma LeadingDot(name: string)
    requires NUL !in name && '.' !in name
    ensures ProtocolOf("." + name) == (0, 0)
  {
    var s := "." + name;
    assert s[0] == '.' && forall j :: 1 <= j < |s| ==> s[j] == name[j - 1];
    assert DotFrom(s, 1) == |s| && s[..|s|] == s == s + [];
    CStrPrefix(s, []);
  }

  /** A name, a dot and a sub-name are read as the two. */
  lemma DottedName(name: string, sub: string)
    requires name != "" && NUL !in name && '.' !in name && NUL !in sub
    ensures ProtocolOf(name + "." + sub) == (GetProtocolType(name), GetIcmpSubType(sub))
  {
    var s := name + "." + sub;
    var k := DotFrom(s, 1);
    assert forall j :: 0 <= j < |name| ==> s[j] == name[j];
    assert s[|name|] == '.' && k == |name|;
    assert s[..k] == name == name + [] && s[k + 1..] == sub == sub + [];
    CStrPrefix(name, []);
    CStrPrefix(sub, []);
  }

  lemma ProtocolNames(t: u8)
    ensures var known := t in [IPPROTO_ICMP, IPPROTO_TCP, IPPROTO_UDP];
            GetProtocolType(GetProtocolString(t)) == if known then t else 0
    ensures var n := GetProtocolString(t); n != "" && NUL !in n && '.' !in n
  {
    assert "tcp"[0] != "udp"[0];
  }

  /** The two tables of ICMP names are inverse. */
  lemma IcmpNames(t: u8)
    ensures GetIcmpSubType(GetIcmpString(t)) == if Named(t) then t else 0
    ensures NUL !in GetIcmpString(t)
  {
    if t <= 11 {
      LowIcmpNames(t);
    } else {
      HighIcmpNames(t);
    }
    NoNul(t);
  }

  lemma NoNul(t: u8)
    ensures NUL !in GetIcmpString(t)
  {
  }

  lemma LowIcmpNames(t: u8)
    requires t <= 11
    ensures GetIcmpSubType(GetIcmpString(t)) == if Named(t) then t else 0
  {
    assert "ICMP_SOURCE_QUENCH"[5] != "ICMP_TIME_EXCEEDED"[5];
  }

  lemma HighIcmpNames(t: u8)
    requires t > 11
    ensures GetIcmpSubType(GetIcmpString(t)) == if Named(t) then t else 0
  {
    assert "ICMP_ECHOREPLY"[5] == 'E' && "ICMP_TIMESTAMP"[5] == 'T' && "ICMP_PARAMETERPROB"[5] == 'P';
    assert "ICMP_SOURCE_QUENCH"[5] == 'S' && "ICMP_TIME_EXCEEDED"[5] == 'T';
    assert "ICMP_DEST_UNREACH"[5] == 'D' && "ICMP_INFO_REQUEST"[5] == 'I' && "ICMP_ADDRESSREPLY"[5] == 'A';
  }

  /** Every rule survives the two conversions with its addresses, ports and type; a protocol
      without a name becomes the wildcard, and the mask and the sub-type are reset. */
  lemma RoundTrip(c: Libc, r: Rule)
    requires c.Inverse()
    ensures Parsed(c, RuleJson(c, r)) == Some(Reloaded(r))
  {
    hide ProtocolOf, ProtocolName, Swap16;
    var o := RuleJson(c, r).fields;
    KeysDiffer();
    NumberBack(c, o, "src_port", Swap16(r.srcPort), 0);
    NumberBack(c, o, "target_port", Swap16(r.destPort), 0);
    NumberBack(c, o, "type", r.typ, 0);
    SwapTwice(r.srcPort);
    SwapTwice(r.destPort);
    ProtocolBack(r);
  }

  lemma ProtocolBack(r: Rule)
    ensures ProtocolOf(ProtocolName(r)) == (Reloaded(r).protocol, 0)
  {
    hide ProtocolOf, GetProtocolType, GetProtocolString, GetIcmpSubType;
    ProtocolNames(r.protocol);
    var name := GetProtocolString(r.protocol);
    if r.subProtocol == IPPROTO_ICMP {
      DottedName(name, "");
      assert name + "." + "" == name + ("." + "");
      IcmpNames(IPPROTO_ICMP);
    } else {
      PlainName(name);
      assert name + "" == name;
    }
  }

  lemma NumberBack(c: Libc, o: map<string, Json>, key: string, v: u32, default: nat)
    requires key in o && o[key] == Num(v as real)
    ensures GetInteger(c, o, key, default) == v as nat
  {
  }

  /** The whole rule comes back exactly when its protocol has a name or is the wildcard, its
      mask is every time, and it names no sub-type. */
  lemma RoundTripIff(c: Libc, r: Rule)
    requires c.Inverse()
    ensures Parsed(c, RuleJson(c, r)) == Some(r) <==>
            r.protocol in [0, IPPROTO_ICMP, IPPROTO_TCP, IPPROTO_UDP] && r.timePass == EVERY_TIME && r.subProtocol == 0
  {
    RoundTrip(c, r);
  }

  /** What parsing can produce: named protocols and sub-types only. */
  lemma ParsedNamed(c: Libc, j: Json)
    ensures Parsed(c, j).Some? ==>
              var r := Parsed(c, j).value;
              r.protocol in [0, IPPROTO_ICMP, IPPROTO_TCP, IPPROTO_UDP] && Named(r.subProtocol)
  {
  }

  /** Any rule that was parsed keeps its addresses, ports, type and protocol through another
      round. */
  lemma ParsedRoundTrip(c: Libc, j: Json)
    requires c.Inverse() && Parsed(c, j).Some?
    ensures var r := Parsed(c, j).value;
            Parsed(c, RuleJson(c, r)) == Some(r.(timePass := EVERY_TIME, subProtocol := 0))
  {
    ParsedNamed(c, j);
    RoundTrip(c, Parsed(c, j).value);
  }

  /** So a rule for one hour and one ICMP type comes back for every time and every type. */
  lemma MaskNotCarried(c: Libc)
    requires c.Inverse()
    ensures var r := Rule(0, 0, 0, 0, 1, TYPE_BLACK_LIST, IPPROTO_ICMP, 5);
            && RuleJson(c, r).fields.Keys == {"src_ip", "target_ip", "src_port", "target_port", "type", "timepass", "protocol"}
            && RuleJson(c, r).fields["timepass"] == Num(1.0) && RuleJson(c, r).fields["protocol"] == Str("icmp")
            && Parsed(c, RuleJson(c, r)) != Some(r)
            && Parsed(c, RuleJson(c, r)) == Some(r.(timePass := EVERY_TIME, subProtocol := 0))
  {
    hide Parsed;
    KeysDiffer();
    RoundTrip(c, Rule(0, 0, 0, 0, 1, TYPE_BLACK_LIST, IPPROTO_ICMP, 5));
  }

  /** A reloaded rule matches every packet it matched before.  A packet that it matches now, it
      matched before exactly when the protocol was right, the mask held the hour or the weekday,
      and the sub-type let the packet through. */
  lemma ReloadWidens(r: Rule, p: Packet, hour: nat, wday: nat)
    requires hour < 24 && wday < 7
    ensures Matches(r, p, TimePass(hour, wday)) ==> Matches(Reloaded(r), p, TimePass(hour, wday))
    ensures Matches(Reloaded(r), p, TimePass(hour, wday)) ==>
              (Matches(r, p, TimePass(hour, wday)) <==>
               && (r.protocol as int == 0 || p.protocol == r.protocol)
               && (Bit(r.timePass, hour) || Bit(r.timePass, 24 + wday))
               && (p.protocol as int == 1 ==> r.subProtocol as int == 0 || p.icmpType == r.subProtocol))
  {
    InForceIff(r.timePass, hour, wday);
    EveryTime(hour, wday);
  }

  lemma WordPowers()
    ensures Pow2(32) == 0x1_0000_0000 && Pow2(23) + Pow2(30) < Pow2(32)
  {
    assert Pow2(8) == 0x100;
    assert Pow2(16) == 0x1_0000;
    assert Pow2(23) == 0x80_0000 && Pow2(24) == 0x100_0000;
    assert Pow2(30) == 0x4000_0000;
  }

  lemma EveryTime(hour: nat, wday: nat)
    requires hour < 24 && wday < 7
    ensures Meets(EVERY_TIME, TimePass(hour, wday))
  {
    Pow2Grows(hour, 23);
    Pow2Grows(24 + wday, 30);
    WordPowers();
    OnesMeet(TimePass(hour, wday), 32);
  }

  lemma {:induction false} Pow2Grows(i: nat, j: nat)
    requires i <= j
    ensures Pow2(i) <= Pow2(j)
    decreases j - i
  {
    if i < j {
      Pow2Grows(i, j - 1);
    }
  }

  /** What a rule written for a named ICMP message type matches among ICMP packets. */
  lemma NamedTypeMatches(name: string, r: Rule, p: Packet, now: nat)
    requires NUL !in name && ProtocolOf("icmp." + name) == (r.protocol, r.subProtocol) && p.protocol as int == 1
    ensures Matches(r, p, now) <==>
            && (r.srcIp as int == 0 || p.srcIp == r.srcIp) && (r.destIp as int == 0 || p.destIp == r.destIp) && Meets(r.timePass, now)
            && (GetIcmpSubType(name) == 0 || p.icmpType == GetIcmpSubType(name))
  {
    hide ProtocolOf, GetIcmpSubType;
    assert "icmp." + name == "icmp" + "." + name;
    DottedName("icmp", name);
  }

  /** While it is in force, such a rule matches packets of the named type only if and only if the
      type has a number other than zero, the wildcard. */
  lemma NamedTypeExact(name: string, r: Rule, now: nat)
    requires NUL !in name && ProtocolOf("icmp." + name) == (r.protocol, r.subProtocol) && Meets(r.timePass, now)
    ensures (forall p: Packet :: p.protocol == IPPROTO_ICMP && Matches(r, p, now) ==> p.icmpType == GetIcmpSubType(name))
            <==> GetIcmpSubType(name) != 0
  {
    hide ProtocolOf, GetIcmpSubType, Matches;
    forall p: Packet | p.protocol == IPPROTO_ICMP && Matches(r, p, now)
      ensures GetIcmpSubType(name) != 0 ==> p.icmpType == GetIcmpSubType(name)
    {
      NamedTypeMatches(name, r, p, now);
    }
    var p := Packet(IPPROTO_ICMP, r.srcIp, r.destIp, 0, 0, 1);
    NamedTypeMatches(name, r, p, now);
  }

  /** The numbers behind the names, as RFC 792 and RFC 950 assign them. */
  lemma IcmpNumbers()
    ensures GetIcmpSubType("ICMP_ECHOREPLY") as int == 0 && GetIcmpSubType("ICMP_DEST_UNREACH") as int == 3
    ensures GetIcmpSubType("ICMP_SOURCE_QUENCH") as int == 4 && GetIcmpSubType("ICMP_REDIRECT") as int == 5
    ensures GetIcmpSubType("ICMP_TIME_EXCEEDED") as int == 11 && GetIcmpSubType("ICMP_PARAMETERPROB") as int == 12
    ensures GetIcmpSubType("ICMP_TIMESTAMP") as int == 13 && GetIcmpSubType("ICMP_TIMESTAMPREPLY") as int == 14
    ensures GetIcmpSubType("ICMP_INFO_REQUEST") as int == 15 && GetIcmpSubType("ICMP_INFO_REPLY") as int == 16
    ensures GetIcmpSubType("ICMP_ADDRESS") as int == 17 && GetIcmpSubType("ICMP_ADDRESSREPLY") as int == 18
  {
    hide GetIcmpSubType;
    forall t: u8 | Named(t)
      ensures GetIcmpSubType(GetIcmpString(t)) == t
    {
      IcmpNames(t);
    }
    assert Named(0) && Named(3) && Named(4) && Named(5) && Named(11) && Named(12);
    assert Named(13) && Named(14) && Named(15) && Named(16) && Named(17) && Named(18);
  }

  /** A rule for echo replies matches every ICMP packet, echo requests included. */
  lemma EchoReplyMatchesAll(c: Libc, p: Packet, hour: nat, wday: nat)
    requires c.aton("0.0.0.0") == 0 && p.protocol == IPPROTO_ICMP && hour < 24 && wday < 7
    ensures var r := Parsed(c, Obj(map["protocol" := Str("icmp.ICMP_ECHOREPLY")]));
            r.Some? && Matches(r.value, p, TimePass(hour, wday))
  {
    hide ProtocolOf, Parsed, Meets;
    var s := "icmp.ICMP_ECHOREPLY";
    KeysDiffer();
    DefaultRule(c, map["protocol" := Str(s)]);
    assert "icmp" + "." + "ICMP_ECHOREPLY" == s;
    DottedName("icmp", "ICMP_ECHOREPLY");
    EveryTime(hour, wday);
  }

  /** The rule of an object that names at most a protocol. */
  lemma DefaultRule(c: Libc, o: map<string, Json>)
    requires c.aton("0.0.0.0") == 0 && o.Keys <= {"protocol"}
    ensures var (protocol, subProtocol) := ProtocolOf(GetString(o, "protocol", ""));
            Parsed(c, Obj(o)) == Some(Rule(0, 0, 0, 0, EVERY_TIME, TYPE_BLACK_LIST, protocol, subProtocol))
  {
    hide ProtocolOf;
    KeysDiffer();
    assert Swap16(0) == 0;
  }

  /** What a client writes: a protocol, a type and a mask if it likes, addresses as text and
      ports as numbers. */
  function Written(c: Libc, protocol: Option<string>, typ: Option<u8>, mask: Option<u32>, src: u32, dest: u32, srcPort: u16, destPort: u16):
      map<string, Json>
  {
    var addresses := map["src_ip" := Str(c.ntoa(src)), "target_ip" := Str(c.ntoa(dest)),
                         "src_port" := Num(srcPort as real), "target_port" := Num(destPort as real)];
    var named := if protocol.Some? then addresses["protocol" := Str(protocol.value)] else addresses;
    var typed := if typ.Some? then named["type" := Num(typ.value as real)] else named;
    if mask.Some? then typed["time_pass" := Num(mask.value as real)] else typed
  }

  /** The protocol numbers that the names stand for; without a name, any protocol. */
  predicate Names(protocol: Option<string>, number: int) {
    || (protocol == None && number == 0)
    || (protocol == Some("icmp") && number == 1)
    || (protocol == Some("tcp") && number == 6)
    || (protocol == Some("udp") && number == 17)
  }

  /** A written rule matches the packets of its protocol with its addresses and, for TCP and UDP
      packets, with its ports in network order, at the hours and on the weekdays of its mask.
      Zero and what is not written stand for any. */
  lemma WrittenRuleMatches(c: Libc, protocol: Option<string>, number: int, typ: Option<u8>, mask: Option<u32>, src: u32, dest: u32, srcPort: u16, destPort: u16,
      p: Packet, hour: nat, wday: nat)
    requires c.Inverse() && Names(protocol, number) && hour < 24 && wday < 7
    ensures var r := Parsed(c, Obj(Written(c, protocol, typ, mask, src, dest, srcPort, destPort)));
            && r.Some? && r.value.typ as int == (if typ.Some? then typ.value as int else 0)
            && (Matches(r.value, p, TimePass(hour, wday)) <==>
                && (number == 0 || p.protocol as int == number)
                && (src as int == 0 || p.srcIp == src) && (dest as int == 0 || p.destIp == dest)
                && (p.protocol as int in [6, 17] ==>
                      (srcPort as int == 0 || Swap16(p.srcPort) == srcPort) && (destPort as int == 0 || Swap16(p.destPort) == destPort))
                && (mask.Some? ==> Bit(mask.value, hour) || Bit(mask.value, 24 + wday)))
  {
    hide Parsed, Meets, Written, Swap16;
    WrittenRule(c, protocol, number, typ, mask, src, dest, srcPort, destPort);
    EveryTime(hour, wday);
    if mask.Some? {
      InForceIff(mask.value, hour, wday);
    }
    SwapMatches(srcPort, p.srcPort);
    SwapMatches(destPort, p.destPort);
  }

  lemma WrittenRule(c: Libc, protocol: Option<string>, number: int, typ: Option<u8>, mask: Option<u32>, src: u32, dest: u32, srcPort: u16, destPort: u16)
    requires c.Inverse() && Names(protocol, number)
    ensures Parsed(c, Obj(Written(c, protocol, typ, mask, src, dest, srcPort, destPort))) ==
            Some(Rule(Swap16(destPort), Swap16(srcPort), src, dest, if mask.Some? then mask.value else EVERY_TIME,
                      if typ.Some? then typ.value else 0, number, 0))
  {
    hide ProtocolOf, Swap16;
    KeysDiffer();
    ProtocolNumber(protocol, number);
    var o := Written(c, protocol, typ, mask, src, dest, srcPort, destPort);
    WrittenMembers(c, protocol, typ, mask, src, dest, srcPort, destPort);
    hide Written;
    NumberBack(c, o, "src_port", srcPort, 0);
    NumberBack(c, o, "target_port", destPort, 0);
    if typ.Some? {
      NumberBack(c, o, "type", typ.value, 0);
    }
    if mask.Some? {
      NumberBack(c, o, "time_pass", mask.value, EVERY_TIME);
    }
  }

  lemma WrittenMembers(c: Libc, protocol: Option<string>, typ: Option<u8>, mask: Option<u32>, src: u32, dest: u32, srcPort: u16, destPort: u16)
    ensures var o := Written(c, protocol, typ, mask, src, dest, srcPort, destPort);
            && "src_ip" in o && o["src_ip"] == Str(c.ntoa(src)) && "target_ip" in o && o["target_ip"] == Str(c.ntoa(dest))
            && "src_port" in o && o["src_port"] == Num(srcPort as real) && "target_port" in o && o["target_port"] == Num(destPort as real)
            && (if protocol.Some? then "protocol" in o && o["protocol"] == Str(protocol.value) else "protocol" !in o)
            && (if typ.Some? then "type" in o && o["type"] == Num(typ.value as real) else "type" !in o)
            && (if mask.Some? then "time_pass" in o && o["time_pass"] == Num(mask.value as real) else "time_pass" !in o)
  {
    KeysDiffer();
  }

  lemma ProtocolNumber(protocol: Option<string>, number: int)
    requires Names(protocol, number)
    ensures 0 <= number < 0x100 && ProtocolOf(if protocol.Some? then protocol.value else "") == (number, 0)
  {
    if protocol.Some? {
      hide ProtocolOf;
      PlainName(protocol.value);
    }
  }

  lemma SwapMatches(stand: u16, value: u16)
    ensures FieldMatches(Swap16(stand), value) <==> stand as int == 0 || Swap16(value) == stand
  {
    SwapTwice(stand);
    SwapTwice(value);
    assert Swap16(0) == 0;
  }

  /** A black rule alone blocks what it matches. */
  lemma OneBlackRule(black: Rule, p: Packet, now: nat)
    requires black.typ as int == 0
    ensures Accepts([black], p, now) <==> !Matches(black, p, now)
  {
    hide Matches;
    assert black in [black];
  }

  /** Numbers keep the low bits that the rule's fields have room for. */
  lemma NumbersTruncated(c: Libc, srcPort: nat, destPort: nat, typ: nat, mask: nat)
    requires srcPort < 0x1_0000_0000_0000_0000 && destPort < 0x1_0000_0000_0000_0000
    requires typ < 0x1_0000_0000_0000_0000 && mask < 0x1_0000_0000_0000_0000
    ensures var o := map["src_port" := Num(srcPort as real), "target_port" := Num(destPort as real),
                         "type" := Num(typ as real), "time_pass" := Num(mask as real)];
            var r := Parsed(c, Obj(o));
            && r.Some? && r.value.srcPort == Swap16(srcPort % 65536) && r.value.destPort == Swap16(destPort % 65536)
            && r.value.typ as int == typ % 256 && r.value.timePass as int == mask % 4294967296
  {
    hide Swap16, ProtocolOf;
    KeysDiffer();
  }

  /** Fractions are cut off towards zero. */
  lemma FractionsCut(c: Libc, n: nat, f: real)
    requires n < 0x1_0000_0000_0000_0000 && 0.0 <= f < 1.0
    ensures c.ToU64(n as real + f) == n && c.ToU64(0.0 - f) == 0
  {
    assert (n as real + f).Floor == n;
  }

  /** White rules win over black ones, and monitor rules decide nothing. */
  lemma WhiteWins(white: Rule, black: Rule, monitor: Rule, p: Packet, now: nat)
    requires white.typ as int == 1 && black.typ as int == 0 && monitor.typ as int == 2
    ensures Accepts([monitor, black, white], p, now) <==> Matches(white, p, now) || !Matches(black, p, now)
    ensures Accepts([white, monitor], p, now) && Accepts([], p, now)
  {
    hide Matches;
    assert black in [black] && black in [monitor, black, white] && white in [monitor, black, white];
  }

  /** The defaults make an empty object a black rule that matches every packet. */
  lemma EmptyRuleMatchesAll(c: Libc, p: Packet, hour: nat, wday: nat)
    requires c.aton("0.0.0.0") == 0 && hour < 24 && wday < 7
    ensures var r := Parsed(c, Obj(map[]));
            r.Some? && r.value.typ == TYPE_BLACK_LIST && Matches(r.value, p, TimePass(hour, wday))
  {
    hide Parsed, Meets;
    DefaultRule(c, map[]);
    EveryTime(hour, wday);
  }

  // ---------------------------------------------------------------- rule lists

  /** The rules of the objects before the first item that is not one. */
  function ParsedItems(c: Libc, items: seq<Json>): seq<Rule> {
    if items == [] || Parsed(c, items[0]).None? then [] else [Parsed(c, items[0]).value] + ParsedItems(c, items[1..])
  }

  lemma {:induction false} ItemsAppend(c: Libc, items: seq<Json>, i: nat)
    requires i < |items| && items[i].Obj? && forall k :: 0 <= k < i ==> items[k].Obj?
    ensures ParsedItems(c, items[..i + 1]) == ParsedItems(c, items[..i]) + [Parsed(c, items[i]).value]
    decreases i
  {
    if i > 0 {
      assert items[..i + 1][1..] == items[1..][..i] && items[..i][1..] == items[1..][..i - 1];
      ItemsAppend(c, items[1..], i - 1);
    } else {
      assert items[..1] == [items[0]] && items[..0] == [] && [items[0]][1..] == [];
    }
  }

  lemma {:induction false} ItemsStop(c: Libc, items: seq<Json>, i: nat)
    requires i < |items| && !items[i].Obj? && forall k :: 0 <= k < i ==> items[k].Obj?
    ensures ParsedItems(c, items[..i]) == ParsedItems(c, items)
    decreases i
  {
    if i > 0 {
      assert items[..i][1..] == items[1..][..i - 1];
      ItemsStop(c, items[1..], i - 1);
    }
  }

  lemma NoItems(c: Libc, items: seq<Json>)
    ensures ParsedItems(c, items[..0]) == []
  {
  }

  lemma ParsedObject(c: Libc, j: Json)
    ensures Parsed(c, j).Some? <==> j.Obj?
  {
  }

  predicate AllObjects(j: Json) { j.Arr? && forall k :: 0 <= k < |j.items| ==> j.items[k].Obj? }

  class RuleCollection {
    var rules: seq<Rule>

    constructor ()
      ensures rules == []
    {
      rules := [];
    }

    /** Appends the rule of every item; a wrong item throws, after the ones before it. */
    method ParseFromJson(c: Libc, j: Json) returns (threw: bool)
      modifies this
      ensures threw <==> !AllObjects(j)
      ensures rules == old(rules) + if j.Arr? then ParsedItems(c, j.items) else []
    {
      hide Parsed, ParsedItems;
      if !j.Arr? {
        return true;
      }
      ghost var was := rules;
      var i := 0;
      NoItems(c, j.items);
      while i < |j.items|
        invariant 0 <= i <= |j.items| && rules == was + ParsedItems(c, j.items[..i])
        invariant forall k :: 0 <= k < i ==> j.items[k].Obj?
      {
        var r := ParseRule(c, j.items[i]);
        ParsedObject(c, j.items[i]);
        if r.None? {
          ItemsStop(c, j.items, i);
          return true;
        }
        ItemsAppend(c, j.items, i);
        rules := rules + [r.value];
        i := i + 1;
      }
      assert j.items[..i] == j.items;
      threw := false;
    }

    /** check: a rule is only asked while the answer for its list is still no. */
    method Check(p: Packet, now: nat) returns (accept: bool)
      ensures accept <==> Accepts(rules, p, now)
    {
      var black, white, monitor := false, false, false;
      var i := 0;
      while i < |rules|
        invariant 0 <= i <= |rules|
        invariant black <==> exists k :: 0 <= k < i && rules[k].typ == TYPE_BLACK_LIST && Matches(rules[k], p, now)
        invariant white <==> exists k :: 0 <= k < i && rules[k].typ == TYPE_WHITE_LIST && Matches(rules[k], p, now)
      {
        var r := rules[i];
        if r.typ == TYPE_BLACK_LIST {
          if !black {
            black := Matches(r, p, now);
          }
        } else if r.typ == TYPE_WHITE_LIST {
          if !white {
            white := Matches(r, p, now);
          }
        } else if r.typ == TYPE_MONITOR_LIST {
          if !monitor {
            monitor := Matches(r, p, now);
          }
        }
        i := i + 1;
      }
      accept := white || !black;
    }

    /** toJson, before serialization */
    method ToJson(c: Libc) returns (j: Json)
      ensures j == ListJson(c, rules)
    {
      var items := [];
      var i := 0;
      while i < |rules|
        invariant 0 <= i <= |rules| && Arr(items) == ListJson(c, rules[..i])
      {
        items := items + [RuleJson(c, rules[i])];
        i := i + 1;
        assert rules[..i][..i - 1] == rules[..i - 1];
      }
      assert rules[..i] == rules;
      j := Arr(items);
    }
  }

  function ListJson(c: Libc, rules: seq<Rule>): (j: Json)
    ensures j.Arr? && |j.items| == |rules| && forall i :: 0 <= i < |rules| ==> j.items[i] == RuleJson(c, rules[i])
  {
    Arr(seq(|rules|, i requires 0 <= i < |rules| => RuleJson(c, rules[i])))
  }

  function ReloadedAll(rules: seq<Rule>): (rs: seq<Rule>)
    ensures |rs| == |rules| && forall i :: 0 <= i < |rules| ==> rs[i] == Reloaded(rules[i])
  {
    seq(|rules|, i requires 0 <= i < |rules| => Reloaded(rules[i]))
  }

  lemma {:induction false} ListRoundTrip(c: Libc, rules: seq<Rule>)
    requires c.Inverse()
    ensures AllObjects(ListJson(c, rules)) && ParsedItems(c, ListJson(c, rules).items) == ReloadedAll(rules)
    decreases |rules|
  {
    hide Parsed, RuleJson, Reloaded;
    if rules != [] {
      RoundTrip(c, rules[0]);
      ListRoundTrip(c, rules[1..]);
      assert ListJson(c, rules).items[1..] == ListJson(c, rules[1..]).items;
      assert ReloadedAll(rules) == [Reloaded(rules[0])] + ReloadedAll(rules[1..]);
    }
  }
}
