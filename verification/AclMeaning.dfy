// What the codec of ACL rules writes and reads, value by value.
module AclMeaning {
  import opened Wrappers
  import opened Text
  import opened Numbers
  import opened AclRule

  // ---- what is written ----

  // The IANA number of a protocol, and 0 for one that is not set
  ghost predicate HasNumber(p: Protocol, n: nat) {
    match p
    case Number(m) => n == m
    case Named(ip) =>
      (ip == ICMP && n == 1) || (ip == IGMP && n == 2) || (ip == TCP && n == 6) || (ip == UDP && n == 17)
      || (ip == RSVP && n == 46) || (ip == GRE && n == 47) || (ip == AUTH && n == 51) || (ip == PIM && n == 103)
      || (ip == L2TP && n == 115) || (ip == NO_PROTOCOL && n == 0)
  }

  // The row holds this port: ANY and numbers under one key, a range under the other, with its first dots as a dash
  ghost predicate HasPort(row: Row, key: Key, rangeKey: Key, p: Option<Port>) {
    match p
    case None => key !in row && rangeKey !in row
    case Some(Any) => Lookup(row, key) == Some("ANY") && rangeKey !in row
    case Some(Num(n)) => Lookup(row, key) == Some(Decimal(n)) && rangeKey !in row
    case Some(Range(text)) =>
      key !in row
      && (!Contains(text, "..") ==> Lookup(row, rangeKey) == Some(text))
      && forall a: string, b: string :: text == a + ".." + b && !Contains(a + ".", "..") ==>
        Lookup(row, rangeKey) == Some(a + "-" + b)
  }

  lemma RangeText(text: string)
    ensures !Contains(text, "..") ==> ReplaceFirst(text, "..", "-") == text
    ensures forall a: string, b: string :: text == a + ".." + b && !Contains(a + ".", "..") ==>
      ReplaceFirst(text, "..", "-") == a + "-" + b
  {
    NothingToReplace(text, "..", "-");
    forall a: string, b: string | text == a + ".." + b && !Contains(a + ".", "..")
      ensures ReplaceFirst(text, "..", "-") == a + "-" + b
    {
      assert ".."[..|".."| - 1] == ".";
      FirstReplaced(a, "..", b, "-");
    }
  }

  // The bit of each flag
  ghost predicate HasBit(f: TcpFlag, i: nat) {
    (f == FIN && i == 0) || (f == SYN && i == 1) || (f == RST && i == 2) || (f == PSH && i == 3) || (f == ACK && i == 4)
    || (f == URG && i == 5) || (f == ECE && i == 6) || (f == CWR && i == 7)
  }

  const POWERS := [1, 2, 4, 8, 16, 32, 64, 128]

  // Bit i of n
  predicate BitSet(n: nat, i: nat)
    requires i < 8
  {
    n / POWERS[i] % 2 == 1
  }

  lemma BitIs(m: bv8, f: TcpFlag, i: nat)
    requires HasBit(f, i)
    ensures (m & Bit(f)) > 0 <==> BitSet(m as int, i)
  {
    match i
    case 0 => Bit0(m); case 1 => Bit1(m); case 2 => Bit2(m); case 3 => Bit3(m); case 4 => Bit4(m); case 5 => Bit5(m);
    case 6 => Bit6(m); case _ => Bit7(m);
  }

  lemma Bit0(m: bv8)
    ensures (m & 0x01) > 0 <==> m as int % 2 == 1
  {
  }

  lemma Bit1(m: bv8)
    ensures (m & 0x02) > 0 <==> m as int / 2 % 2 == 1
  {
  }

  lemma Bit2(m: bv8)
    ensures (m & 0x04) > 0 <==> m as int / 4 % 2 == 1
  {
  }

  lemma Bit3(m: bv8)
    ensures (m & 0x08) > 0 <==> m as int / 8 % 2 == 1
  {
  }

  lemma Bit4(m: bv8)
    ensures (m & 0x10) > 0 <==> m as int / 16 % 2 == 1
  {
  }

  lemma Bit5(m: bv8)
    ensures (m & 0x20) > 0 <==> m as int / 32 % 2 == 1
  {
  }

  lemma Bit6(m: bv8)
    ensures (m & 0x40) > 0 <==> m as int / 64 % 2 == 1
  {
  }

  lemma Bit7(m: bv8)
    ensures (m & 0x80) > 0 <==> m as int / 128 % 2 == 1
  {
  }

  // Two hexadecimal digits
  function Hex(m: nat): string
    requires m < 256
  {
    ["0123456789abcdef"[m / 16], "0123456789abcdef"[m % 16]]
  }

  lemma FlagsWritten(flags: seq<TcpFlag>) returns (m: nat)
    ensures m < 256 && FlagsText(Mask(flags)) == "0x" + Hex(m) + "/0x" + Hex(m)
    ensures forall f, i :: HasBit(f, i) ==> (BitSet(m, i) <==> f in flags)
  {
    ByteBack(Mask(flags));
    m := Mask(flags) as int;
    HexByteDigits(m);
    hide Mask, BitSet;
    forall f, i | HasBit(f, i) ensures BitSet(m, i) <==> f in flags {
      BitIs(Mask(flags), f, i);
      MaskBit(flags, f);
    }
  }

  // Sequence id, protocol, DSCP, addresses and action
  lemma EncodedRow(r: Rule)
    requires r.seqId < 4294967296
    ensures var row := Encode(r);
      Lookup(row, PRIORITY) == Some(Decimal(if r.seqId <= 65536 then 65536 - r.seqId else 4295032832 - r.seqId))
      && (if r.protocol.Some? then
        forall n :: HasNumber(r.protocol.value, n) ==> Lookup(row, IP_PROTOCOL) == Some(Decimal(n))
        else IP_PROTOCOL !in row)
      && Lookup(row, DSCP) == (if r.dscp.Some? then Some(Decimal(r.dscp.value)) else None)
      && Lookup(row, SRC_IP) == r.src && Lookup(row, DST_IP) == r.dst
      && Lookup(row, PACKET_ACTION) == (if r.action == Accept then Some("FORWARD")
        else if r.action == Drop || r.action == Reject then Some("DROP") else None)
      && forall name :: Other(name) !in row
  {
    EncodeAt(r, PRIORITY); EncodeAt(r, IP_PROTOCOL); EncodeAt(r, DSCP); EncodeAt(r, SRC_IP); EncodeAt(r, DST_IP);
    EncodeAt(r, PACKET_ACTION);
    forall name ensures Other(name) !in Encode(r) { EncodeAt(r, Other(name)); }
    hide Decimal, Encode;
    assert Priority(r.seqId) == if r.seqId <= 65536 then 65536 - r.seqId else 4295032832 - r.seqId;
  }

  lemma EncodedPorts(r: Rule)
    ensures HasPort(Encode(r), L4_SRC_PORT, L4_SRC_PORT_RANGE, r.srcPort)
    ensures HasPort(Encode(r), L4_DST_PORT, L4_DST_PORT_RANGE, r.dstPort)
  {
    EncodeAt(r, L4_SRC_PORT); EncodeAt(r, L4_SRC_PORT_RANGE); EncodeAt(r, L4_DST_PORT); EncodeAt(r, L4_DST_PORT_RANGE);
    if r.srcPort.Some? && r.srcPort.value.Range? { RangeText(r.srcPort.value.text); }
    if r.dstPort.Some? && r.dstPort.value.Range? { RangeText(r.dstPort.value.text); }
    hide Encode, Decimal, ReplaceFirst, Contains;
  }

  lemma EncodedFlags(r: Rule)
    ensures r.tcpFlags == [] ==> TCP_FLAGS !in Encode(r)
    ensures r.tcpFlags != [] ==> exists m: nat ::
      m < 256 && Lookup(Encode(r), TCP_FLAGS) == Some("0x" + Hex(m) + "/0x" + Hex(m))
      && forall f, i :: HasBit(f, i) ==> (BitSet(m, i) <==> f in r.tcpFlags)
  {
    EncodeAt(r, TCP_FLAGS);
    var m := FlagsWritten(r.tcpFlags);
    hide Encode, Hex, HasBit, BitSet, Mask, FlagsText;
  }

  // ---- what is read ----

  lemma DecodedRow(row: Row)
    ensures var d := Decode(row);
      (forall p: nat :: p < 2147483648 && Lookup(row, PRIORITY) == Some(Decimal(p)) ==>
        d.seqId == if p <= 65536 then 65536 - p else 4295032832 - p)
      && (PRIORITY !in row ==> d.seqId == 65536)
      && (d.dscp.Some? <==> DSCP in row)
      && (forall n: nat :: n < 256 && Lookup(row, DSCP) == Some(Decimal(n)) ==> d.dscp == Some(n))
      && d.src == Lookup(row, SRC_IP) && d.dst == Lookup(row, DST_IP)
  {
    hide Decimal;
    forall p: nat | p < 2147483648 && Lookup(row, PRIORITY) == Some(Decimal(p))
      ensures Decode(row).seqId == if p <= 65536 then 65536 - p else 4295032832 - p
    {
      ParseDecimal(p, 0x8000_0000);
    }
    forall n: nat | n < 256 && Lookup(row, DSCP) == Some(Decimal(n)) ensures Decode(row).dscp == Some(n) {
      ReadDecimal(n);
    }
    ParseNothing(0x8000_0000);
  }

  // A number of the table reads as its protocol, any other as itself
  lemma DecodedProtocol(row: Row)
    ensures Decode(row).protocol.Some? <==> IP_PROTOCOL in row
    ensures forall n: nat, p :: n < 256 && Lookup(row, IP_PROTOCOL) == Some(Decimal(n)) && HasNumber(p, n) ==>
      (p.Named? && n != 0 ==> Decode(row).protocol == Some(p))
      && (p.Number? && n !in {1, 2, 6, 17, 46, 47, 51, 103, 115} ==> Decode(row).protocol == Some(p))
  {
    ReadAs(row);
    hide Decimal, Decode, GetIpProtocol, HasNumber;
    forall n: nat, p | n < 256 && Lookup(row, IP_PROTOCOL) == Some(Decimal(n)) && HasNumber(p, n)
      ensures Decode(row).protocol == Some(GetIpProtocol(n))
      ensures p.Named? && n != 0 ==> GetIpProtocol(n) == p
      ensures p.Number? && n !in {1, 2, 6, 17, 46, 47, 51, 103, 115} ==> GetIpProtocol(n) == p
    {
      NamedBack(p, n);
    }
  }

  lemma ReadAs(row: Row)
    ensures Decode(row).protocol.Some? <==> IP_PROTOCOL in row
    ensures forall n: nat :: n < 256 && Lookup(row, IP_PROTOCOL) == Some(Decimal(n)) ==>
      Decode(row).protocol == Some(GetIpProtocol(n))
  {
    hide Decimal, ReadInt, GetIpProtocol;
    forall n: nat | n < 256 && Lookup(row, IP_PROTOCOL) == Some(Decimal(n)) ensures ReadInt(Decimal(n)) == n {
      ReadDecimal(n);
    }
  }

  lemma NamedBack(p: Protocol, n: nat)
    requires HasNumber(p, n) && n < 256
    ensures p.Named? && n != 0 ==> GetIpProtocol(n) == p
    ensures p.Number? && n !in {1, 2, 6, 17, 46, 47, 51, 103, 115} ==> GetIpProtocol(n) == p
  {
  }

  lemma DecodedAction(row: Row)
    ensures PACKET_ACTION !in row ==> Decode(row).action == NoAction
    ensures Lookup(row, PACKET_ACTION) == Some("FORWARD") || Lookup(row, PACKET_ACTION) == Some("forward") ==>
      Decode(row).action == Accept
    ensures PACKET_ACTION in row && |row[PACKET_ACTION]| != 7 ==> Decode(row).action == Drop
    ensures Lookup(row, PACKET_ACTION) == Some("DROP") ==> Decode(row).action == Drop
  {
    assert Upper("FORWARD") == "FORWARD" == Upper("forward");
    assert |Upper("DROP")| == 4;
  }

  // A port that the row has in one form
  lemma DecodedPort(text: string)
    ensures forall n: nat :: text == Decimal(n) && n < 65536 ==> DecodePort(text) == if n == 0 then Any else Num(n)
    ensures forall i: nat, j: nat :: i < |text| && j < |text| && text[i] == '-' && 0 < j && text[j] !in "0123456789" ==>
      DecodePort(text) == Range(text)
    ensures text == "ANY" ==> DecodePort(text) == Any
  {
    forall n: nat | text == Decimal(n) && n < 65536 ensures DecodePort(text) == if n == 0 then Any else Num(n) {
      NumAgain(n);
    }
    forall i: nat, j: nat | i < |text| && j < |text| && text[i] == '-' && 0 < j && text[j] !in "0123456789"
      ensures DecodePort(text) == Range(text)
    {
      ParseMalformed(text, 0x8000_0000_0000_0000, j);
    }
    AnyAgain();
  }

  lemma DecodedPorts(row: Row)
    ensures L4_SRC_PORT in row ==> Decode(row).srcPort == Some(DecodePort(row[L4_SRC_PORT]))
    ensures L4_SRC_PORT !in row ==>
      Decode(row).srcPort == if L4_SRC_PORT_RANGE in row then Some(DecodePort(row[L4_SRC_PORT_RANGE])) else None
    ensures L4_DST_PORT in row ==> Decode(row).dstPort == Some(DecodePort(row[L4_DST_PORT]))
    ensures L4_DST_PORT !in row ==>
      Decode(row).dstPort == if L4_DST_PORT_RANGE in row then Some(DecodePort(row[L4_DST_PORT_RANGE])) else None
  {
    hide DecodePort;
  }

  lemma FlagsRead(m: bv8, rest: string)
    ensures m as int < 256 && DecodeFlags("0x" + Hex(m as int) + "/" + rest) == InOrder(m, 0)
  {
    hide InOrder, FlagNumber, HexByte, DecodeFlags;
    var n := m as int;
    ByteBack(m);
    HexByteDigits(n);
    FlagNumberOf(n, rest);
    var text := "0x" + Hex(n) + "/" + rest;
    assert "0x" + HexByte(n) + ['/'] + rest == text;
    OfNumber(text, n);
  }

  lemma OfNumber(text: string, n: nat)
    requires text != "" && n < 256 && FlagNumber(text) == n
    ensures DecodeFlags(text) == InOrder(n as bv8, 0)
  {
    hide InOrder, FlagNumber;
    assert n % 256 == n;
  }

  predicate InBitOrder(fs: seq<TcpFlag>) { forall a, b :: 0 <= a < b < |fs| ==> Precedes(fs[a], fs[b]) }

  lemma OneFlag(n: bv8, f: TcpFlag, i: nat)
    requires HasBit(f, i)
    ensures f in InOrder(n, 0) <==> BitSet(n as int, i)
  {
    hide InOrder, BitSet, Bit;
    InOrderMembers(n, 0, f);
    FlagListed(f);
    BitIs(n, f, i);
  }

  lemma FlagsOf(n: bv8)
    ensures forall f, i :: HasBit(f, i) ==> (f in InOrder(n, 0) <==> BitSet(n as int, i))
    ensures InBitOrder(InOrder(n, 0))
  {
    InOrderSorted(n, 0);
    hide InOrder, BitSet, Precedes, HasBit, Bit;
    forall f, i | HasBit(f, i) ensures f in InOrder(n, 0) <==> BitSet(n as int, i) { OneFlag(n, f, i); }
  }

  lemma BitOrder(f: TcpFlag, g: TcpFlag, i: nat, j: nat)
    requires HasBit(f, i) && HasBit(g, j) && Precedes(f, g)
    ensures i < j
  {
  }

  // The flags of the number in front of the slash, in the order of their bits
  lemma DecodedFlags(row: Row, m: bv8, rest: string)
    requires m as int < 256 && Lookup(row, TCP_FLAGS) == Some("0x" + Hex(m as int) + "/" + rest)
    ensures forall f, i :: HasBit(f, i) ==> (f in Decode(row).tcpFlags <==> BitSet(m as int, i))
    ensures forall a, b, i, j ::
      (0 <= a < b < |Decode(row).tcpFlags|
        && HasBit(Decode(row).tcpFlags[a], i) && HasBit(Decode(row).tcpFlags[b], j)) ==> i < j
  {
    FlagsRead(m, rest);
    FlagsOf(m);
    assert Decode(row).tcpFlags == DecodeFlags(row[TCP_FLAGS]);
    var flags := Decode(row).tcpFlags;
    hide DecodeFlags, Decode, BitSet, InOrder, Precedes, HasBit, Hex;
    forall a, b, i, j | 0 <= a < b < |flags| && HasBit(flags[a], i) && HasBit(flags[b], j) ensures i < j {
      BitOrder(flags[a], flags[b], i, j);
    }
  }
}
