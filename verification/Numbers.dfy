// strconv and strings.Replace of Go: decimal and hexadecimal numbers, with the clamping of numbers out of range.
module Numbers {
  import opened Text

  function Digit(d: nat): char
    requires d < 16
  {
    if d < 10 then '0' + d as char else 'a' + (d - 10) as char
  }

  // FormatInt(n, 10)
  function Decimal(n: nat): (s: string)
    ensures s != []
  {
    if n < 10 then [Digit(n)] else Decimal(n / 10) + [Digit(n % 10)]
  }

  predicate IsDigit(c: char) { '0' <= c <= '9' }

  predicate AllDigits(s: string) { forall i :: 0 <= i < |s| ==> IsDigit(s[i]) }

  function Value(s: string): nat
    requires AllDigits(s)
  {
    if s == [] then 0 else 10 * Value(s[..|s| - 1]) + (s[|s| - 1] as int - '0' as int)
  }

  // ParseInt with its error: a malformed number reads as 0, one out of range as the limit
  datatype Parsed = Parsed(value: int, err: bool)

  function Magnitude(s: string): Parsed {
    if s == [] || !AllDigits(s) then Parsed(0, true) else Parsed(Value(s), false)
  }

  // limit: one more than the greatest number
  function ParseInt(s: string, limit: nat): Parsed
    requires limit > 0
  {
    if s != [] && s[0] == '-' then
      var m := Magnitude(s[1..]);
      if m.err then m else if m.value > limit then Parsed(0 - limit, true) else Parsed(-m.value, false)
    else
      var m := Magnitude(if s != [] && s[0] == '+' then s[1..] else s);
      if m.err then m else if m.value > limit - 1 then Parsed(limit - 1, true) else m
  }

  lemma {:induction false} DecimalValue(n: nat)
    ensures AllDigits(Decimal(n)) && Value(Decimal(n)) == n
  {
    if n >= 10 {
      DecimalValue(n / 10);
      assert Decimal(n)[..|Decimal(n)| - 1] == Decimal(n / 10);
    }
  }

  lemma ParseDecimal(n: nat, limit: nat)
    requires limit > 0
    ensures ParseInt(Decimal(n), limit) == if n < limit then Parsed(n, false) else Parsed(limit - 1, true)
    ensures '-' !in Decimal(n)
  {
    DecimalValue(n);
    assert IsDigit(Decimal(n)[0]);
    forall i | 0 <= i < |Decimal(n)| ensures Decimal(n)[i] != '-' { assert IsDigit(Decimal(n)[i]); }
  }

  lemma DecimalInjective(a: nat, b: nat)
    requires Decimal(a) == Decimal(b)
    ensures a == b
  {
    DecimalValue(a);
    DecimalValue(b);
  }

  // ---- hexadecimal bytes ----

  function HexByte(n: nat): string
    requires n < 256
  {
    [Digit(n / 16), Digit(n % 16)]
  }

  function HexDigit(c: char): int {
    if '0' <= c <= '9' then c as int - '0' as int
    else if 'a' <= c <= 'f' then c as int - 'a' as int + 10
    else if 'A' <= c <= 'F' then c as int - 'A' as int + 10
    else -1
  }

  predicate AllHex(s: string) { forall i :: 0 <= i < |s| ==> HexDigit(s[i]) >= 0 }

  function HexValue(s: string): nat
    requires AllHex(s)
  {
    if s == [] then 0 else 16 * HexValue(s[..|s| - 1]) + HexDigit(s[|s| - 1])
  }

  // ParseUint(s, 16, 32)
  function ParseHex(s: string): nat {
    if s == [] || !AllHex(s) then 0 else if HexValue(s) > 0xffffffff then 0xffffffff else HexValue(s)
  }

  lemma ParseHexByte(n: nat)
    requires n < 256
    ensures ParseHex(HexByte(n)) == n
  {
    var s := HexByte(n);
    assert HexDigit(s[0]) == n / 16 && HexDigit(s[1]) == n % 16;
    assert s[..1] == [s[0]] && s[..1][..0] == [];
    assert HexValue(s[..1]) == n / 16;
  }

  // ---- strings.Replace ----

  // The first occurrence of old_ becomes new_
  function ReplaceFirst(s: string, old_: string, new_: string): string {
    if s == [] then []
    else if HasPrefix(s, old_) then new_ + s[|old_|..]
    else [s[0]] + ReplaceFirst(s[1..], old_, new_)
  }

  function RemoveAll(s: string, old_: string): string
    requires old_ != []
    decreases |s|
  {
    if s == [] then [] else if HasPrefix(s, old_) then RemoveAll(s[|old_|..], old_)
      else [s[0]] + RemoveAll(s[1..], old_)
  }

  lemma {:induction false} NothingToReplace(s: string, old_: string, new_: string)
    requires old_ != []
    ensures ReplaceFirst(s, old_, new_) == s <==> !Contains(s, old_) || new_ == old_
  {
    if s != [] {
      if HasPrefix(s, old_) {
        assert s == s[..|old_|] + s[|old_|..];
        if new_ + s[|old_|..] == s {
          assert |new_| == |old_|;
          assert (new_ + s[|old_|..])[..|old_|] == new_;
        }
      } else {
        NothingToReplace(s[1..], old_, new_);
        assert s == [s[0]] + s[1..];
      }
    }
  }

  // ---- digit by digit ----

  lemma DecimalDigits(n: nat, d: nat)
    requires d < 10
    ensures Decimal(d) == ["0123456789"[d]]
    ensures n > 0 ==> Decimal(10 * n + d) == Decimal(n) + ["0123456789"[d]]
  {
    var m := 10 * n + d;
    assert m / 10 == n && m % 10 == d;
  }

  lemma HexByteDigits(n: nat)
    requires n < 256
    ensures HexByte(n) == ["0123456789abcdef"[n / 16], "0123456789abcdef"[n % 16]]
  {
  }

  // Hexadecimal digits are read in either case
  lemma HexDigits(d: nat)
    requires d < 16
    ensures HexDigit("0123456789abcdef"[d]) == d && HexDigit("0123456789ABCDEF"[d]) == d
  {
  }

  lemma HexDigitIs(c: char)
    ensures HexDigit(c) >= 0 <==> c in "0123456789abcdefABCDEF"
    ensures HexDigit(c) >= -1
  {
    var i := HexDigit(c);
    if i >= 0 {
      assert "0123456789abcdefABCDEF"[if 'A' <= c <= 'F' then i + 6 else i] == c;
    }
  }

  // A sign is read, and clamped to the limit
  lemma ParseSigned(n: nat, limit: nat)
    requires limit > 0
    ensures ParseInt("+" + Decimal(n), limit) == ParseInt(Decimal(n), limit)
    ensures ParseInt("-" + Decimal(n), limit) == if n <= limit then Parsed(0 - n, false) else Parsed(0 - limit, true)
  {
    DecimalValue(n);
    assert IsDigit(Decimal(n)[0]);
    assert ("+" + Decimal(n))[1..] == Decimal(n) && ("-" + Decimal(n))[1..] == Decimal(n);
  }

  lemma DigitIs(c: char)
    ensures IsDigit(c) <==> c in "0123456789"
  {
    if IsDigit(c) { assert "0123456789"[c as int - '0' as int] == c; }
  }

  // Anything but digits behind the sign is malformed
  lemma ParseMalformed(s: string, limit: nat, i: nat)
    requires limit > 0 && i < |s| && s[i] !in "0123456789" && (i == 0 ==> s[0] != '-' && s[0] != '+')
    ensures ParseInt(s, limit) == Parsed(0, true)
  {
    var signed := s[0] == '-' || s[0] == '+';
    var t := if signed then s[1..] else s;
    var k := if signed then i - 1 else i;
    DigitIs(s[i]);
    assert 0 <= k < |t| && t[k] == s[i] && !IsDigit(t[k]);
    assert !AllDigits(t);
  }

  lemma ParseNothing(limit: nat)
    requires limit > 0
    ensures ParseInt("", limit) == ParseInt("-", limit) == ParseInt("+", limit) == Parsed(0, true)
  {
    assert "-"[1..] == "" && "+"[1..] == "";
  }

  // The first occurrence is replaced and no other
  lemma {:induction false} FirstReplaced(a: string, old_: string, b: string, new_: string)
    requires old_ != "" && !Contains(a + old_[..|old_| - 1], old_)
    ensures ReplaceFirst(a + old_ + b, old_, new_) == a + new_ + b
  {
    hide Contains, HasPrefix, ReplaceFirst;
    if a == "" {
      InFront(old_, b, new_);
      assert a + old_ + b == old_ + b && a + new_ + b == new_ + b;
    } else {
      var s, o := a + old_ + b, old_[..|old_| - 1];
      Behind(a, old_, b);
      Behind(a, o, "");
      assert a + o + "" == a + o && a[1..] + o + "" == a[1..] + o;
      assert s[..|a + o|] == a + o;
      NotInFront(s, a + o, old_);
      FirstReplaced(a[1..], old_, b, new_);
      Skipped(s, old_, new_);
      assert [a[0]] + (a[1..] + new_ + b) == a + new_ + b;
    }
  }

  lemma Behind(a: string, o: string, b: string)
    requires a != ""
    ensures (a + o + b)[0] == a[0] && (a + o + b)[1..] == a[1..] + o + b
  {
  }

  lemma InFront(old_: string, b: string, new_: string)
    requires old_ != ""
    ensures ReplaceFirst(old_ + b, old_, new_) == new_ + b
  {
    assert (old_ + b)[..|old_|] == old_ && (old_ + b)[|old_|..] == b;
  }

  lemma NotInFront(s: string, t: string, old_: string)
    requires |old_| <= |t| <= |s| && t == s[..|t|] && t != "" && !Contains(t, old_)
    ensures !HasPrefix(s, old_) && !Contains(t[1..], old_)
  {
    assert t[..|old_|] == s[..|old_|];
  }

  lemma Skipped(s: string, old_: string, new_: string)
    requires s != "" && !HasPrefix(s, old_)
    ensures ReplaceFirst(s, old_, new_) == [s[0]] + ReplaceFirst(s[1..], old_, new_)
  {
  }
}
