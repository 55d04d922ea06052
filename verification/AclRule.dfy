// The codec of ACL rules between OpenConfig and the configuration database (acl_app.go).
module AclRule {
  import opened Wrappers
  import opened Text
  import opened Numbers

  const MAX_PRIORITY := 65536

  // The fields of a rule in the database
  datatype Key =
    | PRIORITY | IP_PROTOCOL | DSCP | SRC_IP | DST_IP | L4_SRC_PORT | L4_SRC_PORT_RANGE | L4_DST_PORT
      | L4_DST_PORT_RANGE
    | TCP_FLAGS | PACKET_ACTION | Other(name: string)

  type Row = map<Key, string>

  // ---- sequence ids ----

  // The subtraction wraps around in 32 bits
  function Priority(seqId: nat): nat { (MAX_PRIORITY - seqId) % 0x1_0000_0000 }

  // ParseInt clamps to 31 bits; the result wraps around in 32 bits
  function SeqId(priority: string): nat { (MAX_PRIORITY - ParseInt(priority, 0x8000_0000).value) % 0x1_0000_0000 }

  // Up to 65536 the priority does not wrap, and a lower sequence id has a higher priority
  lemma PriorityReverses(a: nat, b: nat)
    requires a <= MAX_PRIORITY && b <= MAX_PRIORITY
    ensures 0 <= Priority(a) <= MAX_PRIORITY && (a < b <==> Priority(a) > Priority(b))
  {
  }

  // Every priority up to 65536 is that of one sequence id
  lemma PriorityOnto(p: nat)
    requires p <= MAX_PRIORITY
    ensures MAX_PRIORITY - p <= MAX_PRIORITY && Priority(MAX_PRIORITY - p) == p
  {
  }

  // A sequence id is read back unless its priority is beyond the range of the reader
  lemma SeqIdRoundTrip(seqId: nat)
    requires seqId < 0x1_0000_0000
    ensures SeqId(Decimal(Priority(seqId))) == seqId <==> seqId <= MAX_PRIORITY || seqId >= 2147549185
  {
    var p := Priority(seqId);
    ParseDecimal(p, 0x8000_0000);
    assert p == if seqId <= MAX_PRIORITY then MAX_PRIORITY - seqId else MAX_PRIORITY - seqId + 0x1_0000_0000;
    Wrapped(if p < 0x8000_0000 then p else 0x7fff_ffff);
  }

  lemma Wrapped(p: nat)
    requires p < 0x8000_0000
    ensures (MAX_PRIORITY - p) % 0x1_0000_0000 == if p <= MAX_PRIORITY then MAX_PRIORITY - p
      else MAX_PRIORITY - p + 0x1_0000_0000
  {
  }

  // ---- TCP flags ----

  datatype TcpFlag = FIN | SYN | RST | PSH | ACK | URG | ECE | CWR | UNSET

  // The bit of each flag; an unset flag has none
  function Bit(f: TcpFlag): bv8 {
    match f
    case FIN => 0x01 case SYN => 0x02 case RST => 0x04 case PSH => 0x08
    case ACK => 0x10 case URG => 0x20 case ECE => 0x40 case CWR => 0x80
    case UNSET => 0x00
  }

  const Flags: seq<TcpFlag> := [FIN, SYN, RST, PSH, ACK, URG, ECE, CWR]

  lemma BitTest(m: bv8, f: TcpFlag, g: TcpFlag)
    requires g != UNSET
    ensures ((m | Bit(f)) & Bit(g)) > 0 <==> (m & Bit(g)) > 0 || f == g
  {
  }

  lemma ByteBack(m: bv8)
    ensures (m as int) < 256 && (m as int) as bv8 == m
  {
  }

  // The flags of a mask, in the order of their bits
  function InOrder(m: bv8, i: nat): seq<TcpFlag>
    requires i <= 8
    decreases 8 - i
  {
    if i == 8 then [] else (if (m & Bit(Flags[i])) > 0 then [Flags[i]] else []) + InOrder(m, i + 1)
  }

  function Mask(flags: seq<TcpFlag>): bv8 {
    if flags == [] then 0 else Mask(flags[..|flags| - 1]) | Bit(flags[|flags| - 1])
  }

  lemma {:induction false} MaskBit(flags: seq<TcpFlag>, g: TcpFlag)
    requires g != UNSET
    ensures (Mask(flags) & Bit(g)) > 0 <==> g in flags
  {
    if flags != [] {
      var before, f := flags[..|flags| - 1], flags[|flags| - 1];
      MaskBit(before, g);
      BitTest(Mask(before), f, g);
      assert flags == before + [f];
    }
  }

  // An unset flag sets no bit, so that an encoded list may come back empty
  function FlagsText(m: bv8): string { "0x" + HexByte(m as int) + "/0x" + HexByte(m as int) }

  function FlagNumber(text: string): nat { ParseHex(RemoveAll(Split(text, '/')[0], "0x")) }

  function DecodeFlags(text: string): seq<TcpFlag> {
    if text == "" then [] else InOrder((FlagNumber(text) % 256) as bv8, 0)
  }

  lemma NoPrefix(n: nat)
    requires n < 256
    ensures RemoveAll("0x" + HexByte(n), "0x") == HexByte(n) && '/' !in "0x" + HexByte(n)
  {
    var h := HexByte(n);
    var s := "0x" + h;
    assert s[..2] == "0x" && s[2..] == h && h[0] != 'x' && h[1] != 'x';
    assert !HasPrefix(h, "0x") && !HasPrefix(h[1..], "0x");
    assert h[1..][1..] == [] && h == [h[0]] + h[1..] && h[1..] == [h[1]];
    assert RemoveAll(h[1..], "0x") == [h[1]] + RemoveAll(h[1..][1..], "0x");
  }

  // The number in front of the slash counts
  lemma FlagNumberOf(n: nat, rest: string)
    requires n < 256
    ensures FlagNumber("0x" + HexByte(n) + ['/'] + rest) == n
  {
    NoPrefix(n);
    SplitItem("0x" + HexByte(n), rest, '/');
    ParseHexByte(n);
    hide HexByte, RemoveAll, Split, ParseHex;
    assert ["0x" + HexByte(n)] + Split(rest, '/') == Split("0x" + HexByte(n) + ['/'] + rest, '/');
  }

  lemma FlagNumberBack(m: bv8)
    ensures FlagNumber(FlagsText(m)) == m as int
  {
    var n := m as int;
    ByteBack(m);
    FlagNumberOf(n, "0x" + HexByte(n));
    assert FlagsText(m) == "0x" + HexByte(n) + ['/'] + ("0x" + HexByte(n));
  }

  lemma {:induction false} InOrderMembers(m: bv8, i: nat, f: TcpFlag)
    requires i <= 8
    ensures f in InOrder(m, i) <==> (m & Bit(f)) > 0 && exists j :: i <= j < 8 && Flags[j] == f
    decreases 8 - i
  {
    if i < 8 { InOrderMembers(m, i + 1, f); }
  }

  lemma FlagListed(f: TcpFlag)
    requires f != UNSET
    ensures exists j :: 0 <= j < 8 && Flags[j] == f
  {
    match f
    case FIN => assert Flags[0] == f; case SYN => assert Flags[1] == f; case RST => assert Flags[2] == f;
    case PSH => assert Flags[3] == f;
    case ACK => assert Flags[4] == f; case URG => assert Flags[5] == f; case ECE => assert Flags[6] == f;
    case CWR => assert Flags[7] == f;
  }

  predicate Precedes(f: TcpFlag, g: TcpFlag) { Bit(f) < Bit(g) }

  lemma {:induction false} InOrderSorted(m: bv8, i: nat)
    requires i <= 8
    ensures forall a, b :: 0 <= a < b < |InOrder(m, i)| ==> Precedes(InOrder(m, i)[a], InOrder(m, i)[b])
    decreases 8 - i
  {
    if i < 8 {
      InOrderSorted(m, i + 1);
      var s := InOrder(m, i + 1);
      forall b | 0 <= b < |s| ensures Precedes(Flags[i], s[b]) {
        var f := s[b];
        InOrderMembers(m, i + 1, f);
        var j :| i + 1 <= j < 8 && Flags[j] == f;
      }
    }
  }

  lemma ListedFlag(flags: seq<TcpFlag>, f: TcpFlag)
    ensures f in InOrder(Mask(flags), 0) <==> f in flags && f != UNSET
  {
    hide InOrder, Mask;
    InOrderMembers(Mask(flags), 0, f);
    if f != UNSET {
      MaskBit(flags, f);
      FlagListed(f);
    }
  }

  // The set of flags survives, in the order of the bits
  lemma FlagsRoundTrip(flags: seq<TcpFlag>)
    ensures var r := DecodeFlags(FlagsText(Mask(flags)));
      (forall f :: f in r <==> f in flags && f != UNSET) && forall a, b :: 0 <= a < b < |r| ==> Precedes(r[a], r[b])
  {
    hide FlagNumber, InOrder, Mask, Bit;
    var m := Mask(flags);
    FlagNumberBack(m);
    ByteBack(m);
    assert DecodeFlags(FlagsText(m)) == InOrder(m, 0);
    InOrderSorted(m, 0);
    forall f ensures f in InOrder(m, 0) <==> f in flags && f != UNSET { ListedFlag(flags, f); }
  }

  lemma SameBits(a: bv8, b: bv8)
    requires forall f :: f != UNSET ==> ((a & Bit(f)) > 0 <==> (b & Bit(f)) > 0)
    ensures a == b
  {
    assert (a & Bit(FIN) > 0 <==> b & Bit(FIN) > 0) && (a & Bit(SYN) > 0 <==> b & Bit(SYN) > 0);
    assert (a & Bit(RST) > 0 <==> b & Bit(RST) > 0) && (a & Bit(PSH) > 0 <==> b & Bit(PSH) > 0);
    assert (a & Bit(ACK) > 0 <==> b & Bit(ACK) > 0) && (a & Bit(URG) > 0 <==> b & Bit(URG) > 0);
    assert (a & Bit(ECE) > 0 <==> b & Bit(ECE) > 0) && (a & Bit(CWR) > 0 <==> b & Bit(CWR) > 0);
  }

  lemma FlagsAgain(flags: seq<TcpFlag>)
    ensures Mask(DecodeFlags(FlagsText(Mask(flags)))) == Mask(flags)
  {
    var r := DecodeFlags(FlagsText(Mask(flags)));
    FlagsRoundTrip(flags);
    forall f | f != UNSET ensures (Mask(r) & Bit(f)) > 0 <==> (Mask(flags) & Bit(f)) > 0 {
      MaskBit(r, f);
      MaskBit(flags, f);
    }
    SameBits(Mask(r), Mask(flags));
  }

  // FlagsAgain in terms of what is written: it comes back unless every flag of the list is unset
  lemma FlagsKept(flags: seq<TcpFlag>)
    requires flags != []
    ensures DecodeFlags(FlagsText(Mask(flags))) != [] <==> exists f :: f in flags && f != UNSET
  {
    FlagsRoundTrip(flags);
    hide Mask, DecodeFlags, FlagsText;
    var r := DecodeFlags(FlagsText(Mask(flags)));
    if r != [] { assert r[0] in r; }
  }

  method EncodeFlags(flags: seq<TcpFlag>) returns (tcpFlags: bv8)
    ensures tcpFlags == Mask(flags)
  {
    tcpFlags := 0;
    var i := 0;
    while i < |flags|
      invariant i <= |flags| && tcpFlags == Mask(flags[..i])
    {
      assert flags[..i + 1][..i] == flags[..i];
      tcpFlags := tcpFlags | Bit(flags[i]);
      i := i + 1;
    }
    assert flags[..i] == flags;
  }

  lemma InOrderStep(m: bv8, i: nat, before: seq<TcpFlag>)
    requires i < 8
    ensures before + InOrder(m, i) == (if (m & Bit(Flags[i])) > 0 then before + [Flags[i]] else before)
      + InOrder(m, i + 1)
  {
    hide Bit;
  }

  method GetTransportConfigTcpFlags(tcpFlags: string) returns (flags: seq<TcpFlag>)
    ensures flags == DecodeFlags(tcpFlags)
  {
    hide InOrder, Bit, FlagNumber;
    flags := [];
    if tcpFlags != "" {
      var flagNumber := (FlagNumber(tcpFlags) % 256) as bv8;
      assert [] + InOrder(flagNumber, 0) == InOrder(flagNumber, 0);
      var i := 0;
      while i < 8
        invariant i <= 8 && flags + InOrder(flagNumber, i) == InOrder(flagNumber, 0)
      {
        InOrderStep(flagNumber, i, flags);
        if (flagNumber & Bit(Flags[i])) > 0 { flags := flags + [Flags[i]]; }
        i := i + 1;
      }
      InOrderEnd(flagNumber, flags);
    }
  }

  lemma InOrderEnd(m: bv8, before: seq<TcpFlag>)
    ensures before + InOrder(m, 8) == before
  {
  }

  // ---- ports ----

  datatype Port = Any | Range(text: string) | Num(port: nat)

  datatype PortField = PortField(isRange: bool, text: string)

  function EncodePort(p: Port): PortField {
    match p
    case Any => PortField(false, "ANY")
    case Range(text) => PortField(true, ReplaceFirst(text, "..", "-"))
    case Num(n) => PortField(false, Decimal(n))
  }

  // getTransportSrcDestPorts
  function DecodePort(text: string): Port {
    var portNum := ParseInt(text, 0x8000_0000_0000_0000);
    if portNum.err && '-' in text then Range(text) else if portNum.value > 0 then Num(portNum.value % 0x1_0000) else Any
  }

  // A number other than 0, or a range that is not a number, has a dash once written and no further dots
  predicate PortOk(p: Port) {
    match p
    case Any => true
    case Num(n) => n != 0
    case Range(text) =>
      var t := ReplaceFirst(text, "..", "-");
      ParseInt(t, 0x8000_0000_0000_0000).err && '-' in t && !Contains(t, "..")
  }

  // A port field is read and written again unchanged exactly for such ports
  lemma PortAgain(p: Port)
    requires p.Num? ==> p.port < 0x1_0000
    ensures EncodePort(DecodePort(EncodePort(p).text)) == EncodePort(p) <==> PortOk(p)
  {
    hide ParseInt, ReplaceFirst, Contains;
    match p {
      case Any => AnyAgain();
      case Num(n) => NumAgain(n);
      case Range(t) =>
        NothingToReplace(ReplaceFirst(t, "..", "-"), "..", "-");
        assert |".."| != |"-"|;
    }
  }

  lemma AnyAgain()
    ensures DecodePort("ANY") == Any
  {
    assert !IsDigit("ANY"[0]);
    assert !AllDigits("ANY");
  }

  lemma NumAgain(n: nat)
    requires n < 0x1_0000
    ensures DecodePort(Decimal(n)) == (if n == 0 then Any else Num(n)) && Decimal(n) != "ANY"
  {
    ParseDecimal(n, 0x8000_0000_0000_0000);
    DecimalValue(n);
    assert !IsDigit("ANY"[0]);
  }

  // ---- rules ----

  datatype IpProtocol = ICMP | IGMP | TCP | UDP | RSVP | GRE | AUTH | PIM | L2TP | NO_PROTOCOL

  datatype Protocol = Named(ip: IpProtocol) | Number(n: nat)

  datatype Action = Accept | Drop | Reject | NoAction

  datatype Rule = Rule(seqId: nat, protocol: Option<Protocol>, dscp: Option<nat>, src: Option<string>,
    dst: Option<string>,
    srcPort: Option<Port>, dstPort: Option<Port>, tcpFlags: seq<TcpFlag>, action: Action)

  // The values fit their types
  predicate Fits(r: Rule) {
    r.seqId < 0x1_0000_0000
    && (r.protocol.Some? && r.protocol.value.Number? ==> r.protocol.value.n < 0x100)
    && (r.dscp.Some? ==> r.dscp.value < 0x100)
    && (r.srcPort.Some? && r.srcPort.value.Num? ==> r.srcPort.value.port < 0x1_0000)
    && (r.dstPort.Some? && r.dstPort.value.Num? ==> r.dstPort.value.port < 0x1_0000)
  }

  const IpProtocols: seq<IpProtocol> := [ICMP, IGMP, TCP, UDP, RSVP, GRE, AUTH, PIM, L2TP]

  // The map has no entry for an unset protocol
  function ProtocolNumber(p: Protocol): nat {
    match p
    case Number(n) => n
    case Named(ip) =>
      match ip
      case ICMP => 1 case IGMP => 2 case TCP => 6 case UDP => 17 case RSVP => 46 case GRE => 47 case AUTH => 51
      case PIM => 103
      case L2TP => 115 case NO_PROTOCOL => 0
  }

  function GetIpProtocol(proto: int): Protocol {
    match proto % 0x100
    case 1 => Named(ICMP) case 2 => Named(IGMP) case 6 => Named(TCP) case 17 => Named(UDP) case 46 => Named(RSVP)
    case 47 => Named(GRE)
    case 51 => Named(AUTH) case 103 => Named(PIM) case 115 => Named(L2TP) case n => Number(n)
  }

  function ReadInt(text: string): int { ParseInt(text, 0x8000_0000_0000_0000).value }

  // The field of the encoded rule under a key
  function FieldOf(r: Rule, key: Key): Option<string> {
    match key
    case PRIORITY => Some(Decimal(Priority(r.seqId)))
    case IP_PROTOCOL => if r.protocol.Some? then Some(Decimal(ProtocolNumber(r.protocol.value))) else None
    case DSCP => if r.dscp.Some? then Some(Decimal(r.dscp.value)) else None
    case SRC_IP => r.src
    case DST_IP => r.dst
    case L4_SRC_PORT => PortText(r.srcPort, false)
    case L4_SRC_PORT_RANGE => PortText(r.srcPort, true)
    case L4_DST_PORT => PortText(r.dstPort, false)
    case L4_DST_PORT_RANGE => PortText(r.dstPort, true)
    case TCP_FLAGS => if r.tcpFlags != [] then Some(FlagsText(Mask(r.tcpFlags))) else None
    case PACKET_ACTION => ActionText(r.action)
    case Other(_) => None
  }

  function PortText(p: Option<Port>, isRange: bool): Option<string> {
    if p.Some? && EncodePort(p.value).isRange == isRange then Some(EncodePort(p.value).text) else None
  }

  function ActionText(a: Action): Option<string> {
    match a case Accept => Some("FORWARD") case Drop => Some("DROP") case Reject => Some("DROP") case NoAction => None
  }

  const Keys: set<Key> := {PRIORITY, IP_PROTOCOL, DSCP, SRC_IP, DST_IP, L4_SRC_PORT, L4_SRC_PORT_RANGE,
    L4_DST_PORT, L4_DST_PORT_RANGE, TCP_FLAGS, PACKET_ACTION}

  function Encode(r: Rule): Row { map k | k in Keys && FieldOf(r, k).Some? :: FieldOf(r, k).value }

  function Or(text: Option<string>, default_: string): string { match text case Some(t) => t case None => default_ }

  function ReadPort(port: Option<string>, range: Option<string>): Option<Port> {
    if port.Some? then Some(DecodePort(port.value)) else if range.Some? then Some(DecodePort(range.value)) else None
  }

  function ReadProtocol(text: Option<string>): Option<Protocol> {
    match text case Some(t) => Some(GetIpProtocol(ReadInt(t))) case None => None
  }

  function ReadDscp(text: Option<string>): Option<nat> {
    match text case Some(t) => Some(ReadInt(t) % 0x100) case None => None
  }

  function ReadFlags(text: Option<string>): seq<TcpFlag> { match text case Some(t) => DecodeFlags(t) case None => [] }

  // Only FORWARD in any case is an accept
  function ReadAction(text: Option<string>): Action {
    match text case None => NoAction case Some(t) => if Upper(t) == "FORWARD" then Accept else Drop
  }

  function Upper(s: string): string {
    seq(|s|, i requires 0 <= i < |s| => if 'a' <= s[i] <= 'z' then s[i] - 'a' + 'A' else s[i])
  }

  function Decode(row: Row): Rule {
    Rule(SeqId(Or(Lookup(row, PRIORITY), "")), ReadProtocol(Lookup(row, IP_PROTOCOL)), ReadDscp(Lookup(row, DSCP)),
      Lookup(row, SRC_IP), Lookup(row, DST_IP),
      ReadPort(Lookup(row, L4_SRC_PORT), Lookup(row, L4_SRC_PORT_RANGE)),
      ReadPort(Lookup(row, L4_DST_PORT), Lookup(row, L4_DST_PORT_RANGE)),
      ReadFlags(Lookup(row, TCP_FLAGS)), ReadAction(Lookup(row, PACKET_ACTION)))
  }

  lemma EncodeAt(r: Rule, k: Key)
    ensures Lookup(Encode(r), k) == FieldOf(r, k)
  {
    hide FieldOf;
    assert k in Keys || k.Other?;
    assert k.Other? ==> FieldOf(r, k) == None by { OtherNone(r, k); }
  }

  lemma OtherNone(r: Rule, k: Key)
    ensures k.Other? ==> FieldOf(r, k) == None
  {
  }

  lemma ReadDecimal(n: nat)
    requires n < 0x100
    ensures ReadInt(Decimal(n)) == n
  {
    ParseDecimal(n, 0x8000_0000_0000_0000);
  }

  lemma ProtocolAgain(p: Protocol)
    requires p.Number? ==> p.n < 0x100
    ensures ProtocolNumber(GetIpProtocol(ReadInt(Decimal(ProtocolNumber(p))))) == ProtocolNumber(p)
  {
    ReadDecimal(ProtocolNumber(p));
    hide ReadInt, Decimal;
  }

  // What an encoded rule decodes to
  lemma DecodedFields(r: Rule)
    ensures Decode(Encode(r)) ==
      Rule(SeqId(Or(FieldOf(r, PRIORITY), "")), ReadProtocol(FieldOf(r, IP_PROTOCOL)), ReadDscp(FieldOf(r, DSCP)),
        r.src, r.dst,
        ReadPort(FieldOf(r, L4_SRC_PORT), FieldOf(r, L4_SRC_PORT_RANGE)),
        ReadPort(FieldOf(r, L4_DST_PORT), FieldOf(r, L4_DST_PORT_RANGE)),
        ReadFlags(FieldOf(r, TCP_FLAGS)), ReadAction(FieldOf(r, PACKET_ACTION)))
  {
    EncodeAt(r, PRIORITY);
    EncodeAt(r, IP_PROTOCOL);
    EncodeAt(r, DSCP);
    EncodeAt(r, SRC_IP);
    EncodeAt(r, DST_IP);
    EncodeAt(r, L4_SRC_PORT);
    EncodeAt(r, L4_SRC_PORT_RANGE);
    EncodeAt(r, L4_DST_PORT);
    EncodeAt(r, L4_DST_PORT_RANGE);
    EncodeAt(r, TCP_FLAGS);
    EncodeAt(r, PACKET_ACTION);
    assert FieldOf(r, SRC_IP) == r.src && FieldOf(r, DST_IP) == r.dst;
    hide Encode, FieldOf, SeqId, ReadProtocol, ReadDscp, ReadPort, ReadFlags, ReadAction, Or, Lookup;
  }

  // An assigned number comes back as its name, and an unset protocol as the number 0
  predicate ProtocolKept(p: Protocol) {
    match p
    case Named(ip) => ip != NO_PROTOCOL
    case Number(n) => n !in {1, 2, 6, 17, 46, 47, 51, 103, 115}
  }

  lemma NumberBack(n: nat)
    requires n < 0x100
    ensures GetIpProtocol(n) == Number(n) <==> ProtocolKept(Number(n))
  {
  }

  lemma NameBack(ip: IpProtocol)
    ensures GetIpProtocol(ProtocolNumber(Named(ip))) == Named(ip) <==> ip != NO_PROTOCOL
  {
  }

  lemma ProtocolBack(p: Protocol)
    requires p.Number? ==> p.n < 0x100
    ensures GetIpProtocol(ReadInt(Decimal(ProtocolNumber(p)))) == p <==> ProtocolKept(p)
  {
    hide ReadInt, Decimal, GetIpProtocol;
    ReadDecimal(ProtocolNumber(p));
    match p case Named(ip) => NameBack(ip); case Number(n) => NumberBack(n);
  }

  predicate PortKept(p: Port) {
    match p
    case Any => true
    case Num(n) => n != 0
    case Range(text) => ParseInt(text, 0x8000_0000_0000_0000).err && '-' in text && !Contains(text, "..")
  }

  lemma PortBack(p: Port)
    requires p.Num? ==> p.port < 0x1_0000
    ensures DecodePort(EncodePort(p).text) == p <==> PortKept(p)
  {
    hide ParseInt, ReplaceFirst, Contains;
    match p {
      case Any => AnyAgain();
      case Num(n) => NumAgain(n);
      case Range(t) =>
        NothingToReplace(t, "..", "-");
        assert |".."| != |"-"|;
    }
  }

  // The flags in the order of their bits, each once, and none unset
  ghost predicate FlagsKeptAll(flags: seq<TcpFlag>) {
    UNSET !in flags && forall a, b :: 0 <= a < b < |flags| ==> Precedes(flags[a], flags[b])
  }

  lemma BothEmpty(a: seq<TcpFlag>, b: seq<TcpFlag>)
    requires forall f :: f in a <==> f in b
    ensures a == [] <==> b == []
  {
    if a != [] { assert a[0] in a; }
    if b != [] { assert b[0] in b; }
  }

  lemma {:induction false} OneOrder(a: seq<TcpFlag>, b: seq<TcpFlag>)
    requires forall f :: f in a <==> f in b
    requires forall i, j :: 0 <= i < j < |a| ==> Precedes(a[i], a[j])
    requires forall i, j :: 0 <= i < j < |b| ==> Precedes(b[i], b[j])
    ensures a == b
  {
    BothEmpty(a, b);
    hide Bit;
    if a != [] {
      assert a[0] in b;
      assert b[0] in a;
      assert a[0] == b[0];
      TailMembers(a, b);
      OneOrder(a[1..], b[1..]);
    }
  }

  lemma BehindFirst(a: seq<TcpFlag>, f: TcpFlag)
    requires a != [] && forall i, j :: 0 <= i < j < |a| ==> Precedes(a[i], a[j])
    ensures f in a[1..] <==> f in a && f != a[0]
  {
    hide Bit;
    assert a == [a[0]] + a[1..];
    if f in a[1..] {
      var j :| 0 < j < |a| && a[j] == f;
      assert Precedes(a[0], a[j]);
    }
  }

  lemma TailMembers(a: seq<TcpFlag>, b: seq<TcpFlag>)
    requires a != [] && b != [] && a[0] == b[0] && forall f :: f in a <==> f in b
    requires forall i, j :: 0 <= i < j < |a| ==> Precedes(a[i], a[j])
    requires forall i, j :: 0 <= i < j < |b| ==> Precedes(b[i], b[j])
    ensures forall f :: f in a[1..] <==> f in b[1..]
  {
    hide Bit;
    forall f ensures (f in a[1..] <==> f in a && f != a[0]) && (f in b[1..] <==> f in b && f != b[0]) {
      BehindFirst(a, f);
      BehindFirst(b, f);
    }
  }

  lemma FlagsBack(flags: seq<TcpFlag>)
    requires flags != []
    ensures DecodeFlags(FlagsText(Mask(flags))) == flags <==> FlagsKeptAll(flags)
  {
    FlagsRoundTrip(flags);
    hide Mask, DecodeFlags, FlagsText, Precedes;
    var r := DecodeFlags(FlagsText(Mask(flags)));
    if FlagsKeptAll(flags) { OneOrder(r, flags); }
  }

  lemma ActionBack(a: Action)
    ensures ReadAction(ActionText(a)) == a <==> a != Reject
  {
    assert Upper("FORWARD") == "FORWARD";
    assert Upper("DROP")[0] == 'D';
    assert "FORWARD"[0] == 'F';
  }

  lemma PortsBack(r: Rule, d: Rule)
    requires Fits(r) && d == Decode(Encode(r))
    ensures d.srcPort == r.srcPort <==> (r.srcPort.Some? ==> PortKept(r.srcPort.value))
    ensures d.dstPort == r.dstPort <==> (r.dstPort.Some? ==> PortKept(r.dstPort.value))
  {
    hide Encode, Decode, DecodePort, EncodePort, PortKept;
    DecodedFields(r);
    if r.srcPort.Some? { PortBack(r.srcPort.value); }
    if r.dstPort.Some? { PortBack(r.dstPort.value); }
  }

  lemma OthersBack(r: Rule, d: Rule)
    requires Fits(r) && d == Decode(Encode(r))
    ensures d.protocol == r.protocol <==> (r.protocol.Some? ==> ProtocolKept(r.protocol.value))
    ensures d.dscp == r.dscp && d.src == r.src && d.dst == r.dst
    ensures d.tcpFlags == r.tcpFlags <==> FlagsKeptAll(r.tcpFlags)
    ensures d.action == r.action <==> r.action != Reject
    ensures d.seqId == r.seqId <==> SeqIdFits(r.seqId)
  {
    hide Encode, Decode, Decimal, ReadInt, GetIpProtocol, ProtocolNumber, ReadAction, ActionText, SeqId, Priority,
      ReadPort,
      DecodeFlags, FlagsText, Mask, ProtocolKept;
    DecodedFields(r);
    SeqIdRoundTrip(r.seqId);
    if r.protocol.Some? { ProtocolBack(r.protocol.value); }
    if r.dscp.Some? { ReadDecimal(r.dscp.value); }
    if r.tcpFlags != [] { FlagsBack(r.tcpFlags); }
    ActionBack(r.action);
  }

  // The rules that come back as they were written
  ghost predicate Kept(r: Rule) {
    SeqIdFits(r.seqId) && (r.protocol.Some? ==> ProtocolKept(r.protocol.value))
    && (r.srcPort.Some? ==> PortKept(r.srcPort.value)) && (r.dstPort.Some? ==> PortKept(r.dstPort.value))
    && FlagsKeptAll(r.tcpFlags) && r.action != Reject
  }

  lemma DecodeEncoded(r: Rule)
    requires Fits(r)
    ensures Decode(Encode(r)) == r <==> Kept(r)
  {
    hide Encode, Decode, Fits, SeqIdFits, ProtocolKept, PortKept, FlagsKeptAll;
    var d := Decode(Encode(r));
    PortsBack(r, d);
    OthersBack(r, d);
  }

  predicate PortFits(p: Option<Port>) { p.Some? ==> PortOk(p.value) }

  predicate FlagsFit(flags: seq<TcpFlag>) { flags == [] || exists f :: f in flags && f != UNSET }

  predicate SeqIdFits(seqId: nat) { seqId <= MAX_PRIORITY || seqId >= 2147549185 }

  predicate Same(d: Rule, r: Rule, k: Key) { FieldOf(d, k) == FieldOf(r, k) }

  lemma EncodeSame(d: Rule, r: Rule)
    ensures Encode(d) == Encode(r) <==> forall k :: Same(d, r, k)
  {
    hide Encode, FieldOf;
    forall k ensures Lookup(Encode(d), k) == FieldOf(d, k) && Lookup(Encode(r), k) == FieldOf(r, k) {
      EncodeAt(d, k);
      EncodeAt(r, k);
    }
    if forall k :: Same(d, r, k) {
      forall k ensures Lookup(Encode(d), k) == Lookup(Encode(r), k) { assert Same(d, r, k); }
      SameMaps(Encode(d), Encode(r));
    } else {
      var k :| !Same(d, r, k);
      assert Lookup(Encode(d), k) != Lookup(Encode(r), k);
    }
  }

  lemma SeqIdRange(text: string)
    ensures SeqId(text) < 0x1_0000_0000
  {
  }

  lemma PriorityInjective(a: nat, b: nat)
    requires a < 0x1_0000_0000 && b < 0x1_0000_0000 && Priority(a) == Priority(b)
    ensures a == b
  {
    assert Priority(a) == if a <= MAX_PRIORITY then MAX_PRIORITY - a else MAX_PRIORITY - a + 0x1_0000_0000;
    assert Priority(b) == if b <= MAX_PRIORITY then MAX_PRIORITY - b else MAX_PRIORITY - b + 0x1_0000_0000;
  }

  lemma SeqIdAgain(r: Rule, d: Rule)
    requires Fits(r) && d == Decode(Encode(r))
    ensures Same(d, r, PRIORITY) <==> SeqIdFits(r.seqId)
  {
    hide Encode, Decode, Decimal, Priority, SeqId, ReadProtocol, ReadDscp, ReadPort, ReadFlags, ReadAction;
    DecodedFields(r);
    SeqIdRoundTrip(r.seqId);
    assert d.seqId == SeqId(Decimal(Priority(r.seqId)));
    SeqIdRange(Decimal(Priority(r.seqId)));
    if Decimal(Priority(d.seqId)) == Decimal(Priority(r.seqId)) {
      DecimalInjective(Priority(d.seqId), Priority(r.seqId));
      PriorityInjective(d.seqId, r.seqId);
    }
  }

  lemma OthersAgain(r: Rule, d: Rule)
    requires Fits(r) && d == Decode(Encode(r))
    ensures Same(d, r, IP_PROTOCOL) && Same(d, r, DSCP) && Same(d, r, SRC_IP) && Same(d, r, DST_IP)
      && Same(d, r, PACKET_ACTION)
  {
    hide Encode, Decode, Decimal, ReadInt, GetIpProtocol, ProtocolNumber, ReadAction, ActionText, SeqId, ReadPort,
      ReadFlags;
    DecodedFields(r);
    if r.protocol.Some? { ProtocolAgain(r.protocol.value); }
    if r.dscp.Some? { ReadDecimal(r.dscp.value); }
    ActionAgain(r.action);
  }

  lemma ActionAgain(a: Action)
    ensures ActionText(ReadAction(ActionText(a))) == ActionText(a)
  {
    assert Upper("FORWARD") == "FORWARD";
    assert Upper("DROP")[0] == 'D';
    assert "FORWARD"[0] == 'F';
  }

  lemma PortsAgain(r: Rule, d: Rule)
    requires Fits(r) && d == Decode(Encode(r))
    ensures Same(d, r, L4_SRC_PORT) && Same(d, r, L4_SRC_PORT_RANGE) <==> PortFits(r.srcPort)
    ensures Same(d, r, L4_DST_PORT) && Same(d, r, L4_DST_PORT_RANGE) <==> PortFits(r.dstPort)
  {
    hide Encode, Decode, DecodePort, EncodePort, PortOk;
    DecodedFields(r);
    if r.srcPort.Some? { PortAgain(r.srcPort.value); }
    if r.dstPort.Some? { PortAgain(r.dstPort.value); }
  }

  lemma FlagsFieldAgain(r: Rule, d: Rule)
    requires d == Decode(Encode(r))
    ensures Same(d, r, TCP_FLAGS) <==> FlagsFit(r.tcpFlags)
  {
    hide Encode, Decode, DecodeFlags, FlagsText, Mask;
    DecodedFields(r);
    if r.tcpFlags != [] {
      FlagsKept(r.tcpFlags);
      FlagsAgain(r.tcpFlags);
    }
  }

  // A rule written, read and written again is the same row exactly for these sequence ids, ports and flags
  lemma EncodeAgain(r: Rule)
    requires Fits(r)
    ensures Encode(Decode(Encode(r))) == Encode(r)
      <==> SeqIdFits(r.seqId) && PortFits(r.srcPort) && PortFits(r.dstPort) && FlagsFit(r.tcpFlags)
  {
    hide Encode, Decode, Fits, FlagsFit, PortFits, SeqIdFits, Same;
    var d := Decode(Encode(r));
    SeqIdAgain(r, d);
    OthersAgain(r, d);
    PortsAgain(r, d);
    FlagsFieldAgain(r, d);
    EncodeSame(d, r);
    forall k: Key | k.Other? ensures Same(d, r, k) { OtherSame(d, r, k); }
    if SeqIdFits(r.seqId) && PortFits(r.srcPort) && PortFits(r.dstPort) && FlagsFit(r.tcpFlags) {
      forall k ensures Same(d, r, k) {
        match k case PRIORITY => case IP_PROTOCOL => case DSCP => case SRC_IP => case DST_IP => case L4_SRC_PORT =>
        case L4_SRC_PORT_RANGE =>
          case L4_DST_PORT => case L4_DST_PORT_RANGE => case TCP_FLAGS => case PACKET_ACTION => case Other(_) =>
      }
    }
  }

  lemma OtherSame(d: Rule, r: Rule, k: Key)
    requires k.Other?
    ensures Same(d, r, k)
  {
  }

  // ---- the converters ----

  const Ipv4Keys: set<Key> := {IP_PROTOCOL, DSCP, SRC_IP, DST_IP}
  const TransportKeys: set<Key> := {L4_SRC_PORT, L4_SRC_PORT_RANGE, L4_DST_PORT, L4_DST_PORT_RANGE, TCP_FLAGS}

  // row2 is row with the fields of the rule under some keys
  ghost predicate Filled(r: Rule, keys: set<Key>, row: Row, row2: Row) {
    forall k :: Lookup(row2, k) == if k in keys && FieldOf(r, k).Some? then FieldOf(r, k) else Lookup(row, k)
  }

  method ConvertOCToInternalIPv4(r: Rule, ruleData: Row) returns (row: Row)
    ensures Filled(r, Ipv4Keys, ruleData, row)
  {
    hide Decimal;
    row := ruleData;
    if r.protocol.Some? { row := row[IP_PROTOCOL := Decimal(ProtocolNumber(r.protocol.value))]; }
    if r.dscp.Some? { row := row[DSCP := Decimal(r.dscp.value)]; }
    if r.src.Some? { row := row[SRC_IP := r.src.value]; }
    if r.dst.Some? { row := row[DST_IP := r.dst.value]; }
  }

  function WithPort(p: Option<Port>, key: Key, rangeKey: Key, row: Row): Row {
    match p
    case None => row
    case Some(q) => row[(if EncodePort(q).isRange then rangeKey else key) := EncodePort(q).text]
  }

  lemma WithForm(q: Port, key: Key, rangeKey: Key, row: Row)
    ensures match q
      case Any => WithPort(Some(q), key, rangeKey, row) == row[key := "ANY"]
      case Range(text) => WithPort(Some(q), key, rangeKey, row) == row[rangeKey := ReplaceFirst(text, "..", "-")]
      case Num(n) => WithPort(Some(q), key, rangeKey, row) == row[key := Decimal(n)]
  {
    hide Decimal, ReplaceFirst;
  }

  method ConvertPort(p: Option<Port>, key: Key, rangeKey: Key, ruleData: Row) returns (row: Row)
    ensures row == WithPort(p, key, rangeKey, ruleData)
  {
    row := ruleData;
    if p.Some? {
      WithForm(p.value, key, rangeKey, ruleData);
      hide Decimal, ReplaceFirst, EncodePort;
      match p.value {
        case Any => row := row[key := "ANY"];
        case Range(text) => row := row[rangeKey := ReplaceFirst(text, "..", "-")];
        case Num(n) => row := row[key := Decimal(n)];
      }
    }
  }

  lemma FilledTwice(r: Rule, keys: set<Key>, keys2: set<Key>, row: Row, row1: Row, row2: Row)
    requires Filled(r, keys, row, row1) && Filled(r, keys2, row1, row2)
    ensures Filled(r, keys + keys2, row, row2)
  {
    hide FieldOf;
    forall k ensures Lookup(row2, k) == if k in keys + keys2 && FieldOf(r, k).Some? then FieldOf(r, k)
      else Lookup(row, k) {
      assert Lookup(row2, k) == if k in keys2 && FieldOf(r, k).Some? then FieldOf(r, k) else Lookup(row1, k);
    }
  }

  lemma PortsFilled(r: Rule, row: Row)
    ensures Filled(r, {L4_SRC_PORT, L4_SRC_PORT_RANGE}, row, WithPort(r.srcPort, L4_SRC_PORT, L4_SRC_PORT_RANGE, row))
    ensures Filled(r, {L4_DST_PORT, L4_DST_PORT_RANGE}, row, WithPort(r.dstPort, L4_DST_PORT, L4_DST_PORT_RANGE, row))
  {
    hide EncodePort;
  }

  method ConvertOCToInternalTransport(r: Rule, ruleData: Row) returns (row: Row)
    ensures Filled(r, TransportKeys, ruleData, row)
  {
    hide EncodePort, Mask, FlagsText, Filled;
    row := ConvertPort(r.srcPort, L4_SRC_PORT, L4_SRC_PORT_RANGE, ruleData);
    PortsFilled(r, ruleData);
    ghost var row1 := row;
    row := ConvertPort(r.dstPort, L4_DST_PORT, L4_DST_PORT_RANGE, row);
    PortsFilled(r, row1);
    FilledTwice(r, {L4_SRC_PORT, L4_SRC_PORT_RANGE}, {L4_DST_PORT, L4_DST_PORT_RANGE}, ruleData, row1, row);
    ghost var row2 := row;
    if |r.tcpFlags| > 0 {
      var tcpFlags := EncodeFlags(r.tcpFlags);
      row := row[TCP_FLAGS := FlagsText(tcpFlags)];
    }
    FlagsFilled(r, row2, row);
    FilledTwice(r, {L4_SRC_PORT, L4_SRC_PORT_RANGE} + {L4_DST_PORT, L4_DST_PORT_RANGE}, {TCP_FLAGS}, ruleData, row2,
      row);
    assert {L4_SRC_PORT, L4_SRC_PORT_RANGE} + {L4_DST_PORT, L4_DST_PORT_RANGE} + {TCP_FLAGS} == TransportKeys;
  }

  lemma FlagsFilled(r: Rule, row: Row, row2: Row)
    requires row2 == if r.tcpFlags != [] then row[TCP_FLAGS := FlagsText(Mask(r.tcpFlags))] else row
    ensures Filled(r, {TCP_FLAGS}, row, row2)
  {
    hide Mask, FlagsText;
  }

  method ConvertOCAclRuleToInternalAclRule(r: Rule) returns (row: Row)
    ensures row == Encode(r)
  {
    hide Filled, FieldOf, Decimal;
    ghost var row0: Row := map[PRIORITY := Decimal(Priority(r.seqId))];
    row := map[PRIORITY := Decimal(Priority(r.seqId))];
    row := ConvertOCToInternalIPv4(r, row);
    ghost var row1 := row;
    row := ConvertOCToInternalTransport(r, row);
    ghost var row2 := row;
    match r.action {
      case Accept => row := row[PACKET_ACTION := "FORWARD"];
      case Drop => row := row[PACKET_ACTION := "DROP"];
      case Reject => row := row[PACKET_ACTION := "DROP"];
      case NoAction =>
    }
    AllFilled(r, row0, row1, row2, row);
  }

  lemma AllFilled(r: Rule, row0: Row, row1: Row, row2: Row, row3: Row)
    requires row0 == map[PRIORITY := Decimal(Priority(r.seqId))]
    requires Filled(r, Ipv4Keys, row0, row1) && Filled(r, TransportKeys, row1, row2)
    requires row3 == if ActionText(r.action).Some? then row2[PACKET_ACTION := ActionText(r.action).value] else row2
    ensures row3 == Encode(r)
  {
    hide Decimal, Priority, ProtocolNumber, FlagsText, Mask, PortText, ActionText;
    forall k ensures Lookup(row3, k) == Lookup(Encode(r), k) {
      EncodeAt(r, k);
      hide Encode;
      assert Lookup(row2, k) == if k in TransportKeys && FieldOf(r, k).Some? then FieldOf(r, k) else Lookup(row1, k);
    }
    hide Encode, FieldOf;
    SameMaps(row3, Encode(r));
  }

  function Seen(row: Row, left: set<Key>, k: Key): Option<string> { if k in left then None else Lookup(row, k) }

  // The port is read from one of the fields that are there
  ghost predicate PortSeen(port: Option<string>, range: Option<string>, p: Option<Port>) {
    if port == None && range == None then p == None
    else (port.Some? && p == Some(DecodePort(port.value))) || (range.Some? && p == Some(DecodePort(range.value)))
  }

  // e is what a row can be read as: where it holds both forms of a port, either may win
  ghost predicate Decodes(row: Row, e: Rule) {
    e == Decode(row).(srcPort := e.srcPort, dstPort := e.dstPort)
    && PortSeen(Lookup(row, L4_SRC_PORT), Lookup(row, L4_SRC_PORT_RANGE), e.srcPort)
    && PortSeen(Lookup(row, L4_DST_PORT), Lookup(row, L4_DST_PORT_RANGE), e.dstPort)
  }

  // A port that the row holds in both forms is the same in both
  predicate PortsAgree(row: Row) {
    Agree(row, L4_SRC_PORT, L4_SRC_PORT_RANGE) && Agree(row, L4_DST_PORT, L4_DST_PORT_RANGE)
  }

  predicate Agree(row: Row, key: Key, rangeKey: Key) {
    key in row && rangeKey in row ==> DecodePort(row[key]) == DecodePort(row[rangeKey])
  }

  lemma DecodesSelf(row: Row)
    ensures Decodes(row, Decode(row))
  {
    hide DecodePort, DecodeFlags, SeqId, ReadProtocol, ReadDscp, ReadAction;
  }

  lemma DecodesOnce(row: Row, e: Rule)
    requires PortsAgree(row) && Decodes(row, e)
    ensures e == Decode(row)
  {
    hide DecodePort, DecodeFlags, SeqId, ReadProtocol, ReadDscp, ReadAction;
  }

  // Either form of a port can win
  lemma EitherForm(row: Row, k: Key)
    requires k in row
    ensures k == L4_SRC_PORT || k == L4_SRC_PORT_RANGE ==>
      Decodes(row, Decode(row).(srcPort := Some(DecodePort(row[k]))))
    ensures k == L4_DST_PORT || k == L4_DST_PORT_RANGE ==>
      Decodes(row, Decode(row).(dstPort := Some(DecodePort(row[k]))))
  {
    DecodesSelf(row);
    hide DecodePort, Decode;
  }

  // A row is read in one way exactly when no port has two forms that differ
  lemma OneReading(row: Row)
    ensures (forall d, e :: Decodes(row, d) && Decodes(row, e) ==> d == e) <==> PortsAgree(row)
  {
    hide DecodePort, Decode, Decodes;
    if PortsAgree(row) {
      forall d, e | Decodes(row, d) && Decodes(row, e) ensures d == e {
        DecodesOnce(row, d);
        DecodesOnce(row, e);
      }
    } else if !Agree(row, L4_SRC_PORT, L4_SRC_PORT_RANGE) {
      EitherForm(row, L4_SRC_PORT);
      EitherForm(row, L4_SRC_PORT_RANGE);
    } else {
      EitherForm(row, L4_DST_PORT);
      EitherForm(row, L4_DST_PORT_RANGE);
    }
  }

  // The transport and action fields seen so far
  ghost predicate Part(row: Row, left: set<Key>, e: Rule) {
    e.protocol == None && e.dscp == None && e.src == None && e.dst == None
      && e.seqId == SeqId(Or(Lookup(row, PRIORITY), ""))
    && PortSeen(Seen(row, left, L4_SRC_PORT), Seen(row, left, L4_SRC_PORT_RANGE), e.srcPort)
    && PortSeen(Seen(row, left, L4_DST_PORT), Seen(row, left, L4_DST_PORT_RANGE), e.dstPort)
    && e.tcpFlags == ReadFlags(Seen(row, left, TCP_FLAGS)) && e.action == ReadAction(Seen(row, left, PACKET_ACTION))
  }

  function Taken(e: Rule, k: Key, text: string): Rule {
    match k
    case L4_SRC_PORT => e.(srcPort := Some(DecodePort(text)))
    case L4_SRC_PORT_RANGE => e.(srcPort := Some(DecodePort(text)))
    case L4_DST_PORT => e.(dstPort := Some(DecodePort(text)))
    case L4_DST_PORT_RANGE => e.(dstPort := Some(DecodePort(text)))
    case TCP_FLAGS => e.(tcpFlags := DecodeFlags(text))
    case PACKET_ACTION => e.(action := if Upper(text) == "FORWARD" then Accept else Drop)
    case _ => e
  }

  lemma PartStep(row: Row, left: set<Key>, e: Rule, k: Key)
    requires k in left && left <= row.Keys && Part(row, left, e)
    ensures Part(row, left - {k}, Taken(e, k, row[k]))
  {
    hide DecodePort, DecodeFlags, Upper, SeqId;
    match k case L4_SRC_PORT => case L4_SRC_PORT_RANGE => case L4_DST_PORT => case L4_DST_PORT_RANGE =>
    case TCP_FLAGS =>
      case PACKET_ACTION => case _ =>
  }

  lemma PartEnds(row: Row, e: Rule)
    ensures Part(row, row.Keys,
      Rule(SeqId(Or(Lookup(row, PRIORITY), "")), None, None, None, None, None, None, [], NoAction))
    ensures Part(row, {}, e) ==>
      Decodes(row, e.(protocol := ReadProtocol(Lookup(row, IP_PROTOCOL)), dscp := ReadDscp(Lookup(row, DSCP)),
        src := Lookup(row, SRC_IP), dst := Lookup(row, DST_IP)))
  {
    hide SeqId, DecodePort, DecodeFlags, ReadProtocol, ReadDscp;
  }

  // The fields in any order
  method ConvertInternalToOCAclRuleProperties(row: Row) returns (e: Rule)
    ensures Decodes(row, e) && (PortsAgree(row) ==> e == Decode(row))
  {
    hide SeqId, DecodePort, DecodeFlags, Upper, Part, PortsAgree, Decode, Decodes, ReadProtocol, ReadDscp;
    e := Rule(SeqId(if PRIORITY in row then row[PRIORITY] else ""), None, None, None, None, None, None, [], NoAction);
    PartEnds(row, e);
    var left := row.Keys;
    while left != {}
      invariant left <= row.Keys && Part(row, left, e)
    {
      var ruleKey :| ruleKey in left;
      PartStep(row, left, e, ruleKey);
      if ruleKey == L4_SRC_PORT || ruleKey == L4_SRC_PORT_RANGE {
        e := e.(srcPort := Some(DecodePort(row[ruleKey])));
      } else if ruleKey == L4_DST_PORT || ruleKey == L4_DST_PORT_RANGE {
        e := e.(dstPort := Some(DecodePort(row[ruleKey])));
      } else if ruleKey == TCP_FLAGS {
        var flags := GetTransportConfigTcpFlags(row[ruleKey]);
        e := e.(tcpFlags := flags);
      } else if ruleKey == PACKET_ACTION {
        e := e.(action := if Upper(row[ruleKey]) == "FORWARD" then Accept else Drop);
      }
      left := left - {ruleKey};
    }
    PartEnds(row, e);
    PartPlain(row, e);
    e := ConvertIpv4(row, e);
    if PortsAgree(row) { DecodesOnce(row, e); }
  }

  lemma PartPlain(row: Row, e: Rule)
    requires Part(row, {}, e)
    ensures e.protocol == None && e.dscp == None && e.src == None && e.dst == None
  {
  }

  method ConvertIpv4(row: Row, e0: Rule) returns (e: Rule)
    requires e0.protocol == None && e0.dscp == None && e0.src == None && e0.dst == None
    ensures e == e0.(protocol := ReadProtocol(Lookup(row, IP_PROTOCOL)), dscp := ReadDscp(Lookup(row, DSCP)),
      src := Lookup(row, SRC_IP), dst := Lookup(row, DST_IP))
  {
    hide GetIpProtocol, ReadInt;
    e := e0;
    var left := row.Keys;
    while left != {}
      invariant left <= row.Keys
      invariant e == e0.(protocol := ReadProtocol(Seen(row, left, IP_PROTOCOL)),
        dscp := ReadDscp(Seen(row, left, DSCP)),
        src := Seen(row, left, SRC_IP), dst := Seen(row, left, DST_IP))
    {
      var ruleKey :| ruleKey in left;
      match ruleKey {
        case IP_PROTOCOL => e := e.(protocol := Some(GetIpProtocol(ReadInt(row[ruleKey]))));
        case DSCP => e := e.(dscp := Some(ReadInt(row[ruleKey]) % 0x100));
        case SRC_IP => e := e.(src := Some(row[ruleKey]));
        case DST_IP => e := e.(dst := Some(row[ruleKey]));
        case _ =>
      }
      left := left - {ruleKey};
    }
  }
}
