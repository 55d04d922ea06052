// fixYangRegexp keeps the meaning of a pattern (section 9.4.6 of RFC 6020).
module PatternMeaning {
  import opened Wrappers
  import opened PatternSyntax
  import opened FixYangRegexp
  import opened PatternTokens

  // ---- the parser reads no Bad token ----

  ghost predicate Consumed(ts: seq<Token>, rest: seq<Token>) {
    |rest| <= |ts| && rest == ts[|ts| - |rest|..] && Bad !in ts[..|ts| - |rest|]
  }

  lemma ConsumedTrans(ts: seq<Token>, mid: seq<Token>, rest: seq<Token>)
    requires Consumed(ts, mid) && Consumed(mid, rest)
    ensures Consumed(ts, rest)
  {
    assert ts[..|ts| - |rest|] == ts[..|ts| - |mid|] + mid[..|mid| - |rest|];
  }

  lemma ConsumedOne(ts: seq<Token>)
    requires ts != [] && ts[0] != Bad
    ensures Consumed(ts, ts[1..])
  {
  }

  lemma {:induction false} ReadAlt(ts: seq<Token>)
    requires ParseAlt(ts).Some?
    ensures Consumed(ts, ParseAlt(ts).value.1)
    decreases |ts|, 3
  {
    ReadCat(ts);
    var rest := ParseCat(ts).value.1;
    if rest != [] && rest[0] == Op('|') {
      ReadAlt(rest[1..]);
      ConsumedOne(rest);
      hide Consumed;
      ConsumedTrans(rest, rest[1..], ParseAlt(ts).value.1);
      ConsumedTrans(ts, rest, ParseAlt(ts).value.1);
    }
  }

  lemma {:induction false} ReadCat(ts: seq<Token>)
    requires ParseCat(ts).Some?
    ensures Consumed(ts, ParseCat(ts).value.1)
    decreases |ts|, 2
  {
    if !Stops(ts) {
      ReadPiece(ts);
      var rest := ParsePiece(ts).value.1;
      ReadCat(rest);
      ConsumedTrans(ts, rest, ParseCat(rest).value.1);
    }
  }

  lemma {:induction false} ReadPiece(ts: seq<Token>)
    requires ParsePiece(ts).Some?
    ensures Consumed(ts, ParsePiece(ts).value.1)
    decreases |ts|, 1
  {
    ReadAtom(ts);
    var (a, rest) := ParseAtom(ts).value;
    ReadQuantifier(a, rest);
    ConsumedTrans(ts, rest, Quantify(a, rest).value.1);
  }

  lemma {:induction false} ReadNumber(ts: seq<Token>, n: nat)
    ensures Consumed(ts, Number(ts, n).1)
  {
    if ts != [] && ts[0].Lit? && '0' <= ts[0].c <= '9' {
      var m := 10 * n + (ts[0].c as int - '0' as int);
      ReadNumber(ts[1..], m);
      ConsumedOne(ts);
      ConsumedTrans(ts, ts[1..], Number(ts[1..], m).1);
    }
  }

  lemma ReadBounds(a: Regex, ts: seq<Token>)
    requires ts != [] && ts[0] == Op('{') && Quantify(a, ts).Some?
    ensures Consumed(ts, Quantify(a, ts).value.1)
  {
    var t1 := Number(ts[1..], 0).1;
    var t2 := Number(t1[1..], 0).1;
    assert Quantify(a, ts).value.1 == if t1[0] == Op('}') then t1[1..] else t2[1..];
    assert t1[0] != Op('}') ==> t1[0] == Lit(',') && t2[0] == Op('}');
    ConsumedOne(ts);
    ReadNumber(ts[1..], 0);
    hide Consumed, Number, Quantify;
    ConsumedTrans(ts, ts[1..], t1);
    ConsumedOne(t1);
    ConsumedTrans(ts, t1, t1[1..]);
    if t1[0] != Op('}') {
      ReadNumber(t1[1..], 0);
      ConsumedTrans(ts, t1[1..], t2);
      ConsumedOne(t2);
      ConsumedTrans(ts, t2, t2[1..]);
    }
  }

  lemma ReadQuantifier(a: Regex, ts: seq<Token>)
    requires Quantify(a, ts).Some?
    ensures Consumed(ts, Quantify(a, ts).value.1)
  {
    if ts != [] && ts[0] == Op('{') {
      ReadBounds(a, ts);
    } else if ts != [] && ts[0].Op? && ts[0].c in "*+?" {
      ConsumedOne(ts);
    }
  }

  predicate Braced(ts: seq<Token>) { |ts| > 1 && ts[0].Esc? && IsCategory(ts[0].c) && ts[1] == Op('{') }

  lemma {:induction false} ReadName(ts: seq<Token>)
    requires ParseName(ts).Some?
    ensures Consumed(ts, ParseName(ts).value.1)
  {
    ConsumedOne(ts);
    if ts[0] != Op('}') {
      ReadName(ts[1..]);
      ConsumedTrans(ts, ts[1..], ParseName(ts).value.1);
    }
  }

  lemma {:induction false} ReadAtom(ts: seq<Token>)
    requires ParseAtom(ts).Some?
    ensures Consumed(ts, ParseAtom(ts).value.1)
    decreases |ts|, 0
  {
    hide Consumed;
    ConsumedOne(ts);
    var rest := ParseAtom(ts).value.1;
    if ts[0].Open? {
      ReadItems(ts[1..]);
      ConsumedTrans(ts, ts[1..], rest);
    } else if Braced(ts) {
      ReadName(ts[2..]);
      assert ts[1..][1..] == ts[2..];
      ConsumedOne(ts[1..]);
      ConsumedTrans(ts, ts[1..], ts[2..]);
      ConsumedTrans(ts, ts[2..], rest);
    } else if ts[0] == Op('(') {
      ReadAlt(ts[1..]);
      var mid := ParseAlt(ts[1..]).value.1;
      ConsumedTrans(ts, ts[1..], mid);
      ConsumedOne(mid);
      ConsumedTrans(ts, mid, rest);
    }
  }

  lemma {:induction false} ReadItems(ts: seq<Token>)
    requires ParseItems(ts).Some?
    ensures Consumed(ts, ParseItems(ts).value.1)
  {
    ConsumedOne(ts);
    if ts[0] != Close {
      ReadItems(ts[1..]);
      ConsumedTrans(ts, ts[1..], ParseItems(ts).value.1);
    }
  }

  lemma ParsedNoBad(ts: seq<Token>)
    requires Parse(ts).Some?
    ensures NoBad(ts)
  {
    ReadAlt(ts);
    assert ts[..|ts|] == ts;
  }

  // ---- a closing parenthesis or an anchor behind the tokens changes nothing before it ----

  ghost predicate Shut(suf: seq<Token>) { suf != [] && suf[0] == Op(')') }

  ghost predicate Soft(suf: seq<Token>) { suf != [] && (suf[0] == Op(')') || suf[0] == End) }

  lemma TailApp(ts: seq<Token>, suf: seq<Token>)
    requires ts != []
    ensures (ts + suf)[0] == ts[0] && (ts + suf)[1..] == ts[1..] + suf
  {
  }

  lemma {:induction false} ShutAlt(ts: seq<Token>, suf: seq<Token>)
    requires ParseAlt(ts).Some? && Soft(suf) && (Shut(suf) || ParseAlt(ts).value.1 != [])
    ensures var (r, rest) := ParseAlt(ts).value; ParseAlt(ts + suf) == Some((r, rest + suf))
    decreases |ts|, 3
  {
    ShutCat(ts, suf);
    var rest := ParseCat(ts).value.1;
    if rest != [] { TailApp(rest, suf); } else { assert rest + suf == suf; }
    if rest != [] && rest[0] == Op('|') {
      ShutAlt(rest[1..], suf);
    }
  }

  lemma {:induction false} ShutCat(ts: seq<Token>, suf: seq<Token>)
    requires ParseCat(ts).Some? && Soft(suf) && (Shut(suf) || ParseCat(ts).value.1 != [])
    ensures var (r, rest) := ParseCat(ts).value; ParseCat(ts + suf) == Some((r, rest + suf))
    decreases |ts|, 2
  {
    if ts == [] { assert ts + suf == suf; } else { TailApp(ts, suf); }
    if !Stops(ts) {
      ShutPiece(ts, suf);
      ShutCat(ParsePiece(ts).value.1, suf);
    }
  }

  lemma {:induction false} ShutPiece(ts: seq<Token>, suf: seq<Token>)
    requires ParsePiece(ts).Some? && Soft(suf)
    ensures var (r, rest) := ParsePiece(ts).value; ParsePiece(ts + suf) == Some((r, rest + suf))
    decreases |ts|, 1
  {
    ShutAtom(ts, suf);
    var (a, rest) := ParseAtom(ts).value;
    ShutQuantifier(a, rest, suf);
  }

  lemma {:induction false} ShutNumber(ts: seq<Token>, n: nat, suf: seq<Token>)
    requires Soft(suf)
    ensures Number(ts + suf, n) == (Number(ts, n).0, Number(ts, n).1 + suf)
  {
    if ts == [] { assert ts + suf == suf; } else {
      TailApp(ts, suf);
      if ts[0].Lit? && '0' <= ts[0].c <= '9' { ShutNumber(ts[1..], 10 * n + (ts[0].c as int - '0' as int), suf); }
    }
  }

  lemma ShutBounds(a: Regex, ts: seq<Token>, suf: seq<Token>)
    requires ts != [] && ts[0] == Op('{') && Quantify(a, ts).Some? && Soft(suf)
    ensures var (r, rest) := Quantify(a, ts).value; Quantify(a, ts + suf) == Some((r, rest + suf))
  {
    var us := ts + suf;
    TailApp(ts, suf);
    ShutNumber(ts[1..], 0, suf);
    var (lo, t1) := Number(ts[1..], 0);
    TailApp(t1, suf);
    if t1[0] == Op('}') {
    } else {
      ShutNumber(t1[1..], 0, suf);
      TailApp(Number(t1[1..], 0).1, suf);
    }
  }

  lemma ShutQuantifier(a: Regex, ts: seq<Token>, suf: seq<Token>)
    requires Quantify(a, ts).Some? && Soft(suf)
    ensures var (r, rest) := Quantify(a, ts).value; Quantify(a, ts + suf) == Some((r, rest + suf))
  {
    if ts == [] {
      assert ts + suf == suf;
    } else if ts[0] == Op('{') {
      hide Quantify;
      ShutBounds(a, ts, suf);
    } else {
      TailApp(ts, suf);
    }
  }

  lemma {:induction false} ShutAtom(ts: seq<Token>, suf: seq<Token>)
    requires ParseAtom(ts).Some? && Soft(suf)
    ensures var (r, rest) := ParseAtom(ts).value; ParseAtom(ts + suf) == Some((r, rest + suf))
    decreases |ts|, 0
  {
    TailApp(ts, suf);
    if ts[0].Open? {
      ShutItems(ts[1..], suf);
    } else if ts[0].Esc? && IsCategory(ts[0].c) {
      if |ts| == 1 { assert (ts + suf)[1] == suf[0]; } else { TailApp(ts[1..], suf); }
      if Braced(ts) {
        assert (ts + suf)[2..] == ts[2..] + suf;
        ShutName(ts[2..], suf);
      }
    } else if ts[0] == Op('(') {
      ShutAlt(ts[1..], suf);
      TailApp(ParseAlt(ts[1..]).value.1, suf);
    }
  }

  lemma {:induction false} ShutName(ts: seq<Token>, suf: seq<Token>)
    requires ParseName(ts).Some?
    ensures var (name, rest) := ParseName(ts).value; ParseName(ts + suf) == Some((name, rest + suf))
  {
    TailApp(ts, suf);
    if ts[0] != Op('}') { ShutName(ts[1..], suf); }
  }

  lemma {:induction false} ShutItems(ts: seq<Token>, suf: seq<Token>)
    requires ParseItems(ts).Some?
    ensures var (items, rest) := ParseItems(ts).value; ParseItems(ts + suf) == Some((items, rest + suf))
  {
    TailApp(ts, suf);
    if ts[0] != Close { ShutItems(ts[1..], suf); }
  }

  // ---- the anchored pattern ----

  function Anchored(r: Regex): Regex { Cat(AtBegin, Cat(r, Cat(AtEnd, Empty))) }

  lemma ParseEnd(r: Regex)
    ensures ParseCat([End]) == Some((Cat(AtEnd, Empty), []))
    ensures Quantify(r, [End]) == Some((r, [End]))
  {
    assert [End][1..] == [];
    assert ParseAtom([End]) == Some((AtEnd, []));
    assert ParsePiece([End]) == Some((AtEnd, []));
    assert ParseCat([]) == Some((Empty, []));
  }

  lemma ParseGroup(inner: seq<Token>, r: Regex)
    requires ParseAlt(inner) == Some((r, [Op(')'), End]))
    ensures ParseCat([Op('(')] + inner) == Some((Cat(r, Cat(AtEnd, Empty)), []))
  {
    var group, suf := [Op('(')] + inner, [Op(')'), End];
    assert group[1..] == inner && suf[1..] == [End];
    ParseEnd(r);
    assert ParseAtom(group) == Some((r, [End]));
    hide ParseAtom, ParseAlt;
    assert ParsePiece(group) == Some((r, [End]));
  }

  lemma ParseBegin(group: seq<Token>, r: Regex)
    requires group != [] && group[0] == Op('(') && ParseCat(group) == Some((r, []))
    ensures Parse([Begin] + group) == Some(Cat(AtBegin, r))
  {
    var all := [Begin] + group;
    assert all[1..] == group;
    assert ParseAtom(all) == Some((AtBegin, group));
    assert Quantify(AtBegin, group) == Some((AtBegin, group));
    assert ParsePiece(all) == Some((AtBegin, group));
    assert ParseCat(all) == Some((Cat(AtBegin, r), []));
  }

  lemma ParseAnchored(ts: seq<Token>, r: Regex)
    requires Parse(ts) == Some(r)
    ensures Parse([Begin, Op('(')] + (ts + [Op(')'), End])) == Some(Anchored(r))
  {
    var suf := [Op(')'), End];
    var inner := ts + suf;
    ShutAlt(ts, suf);
    assert [] + suf == suf;
    hide Parse, ParseAlt, ParseCat;
    ParseGroup(inner, r);
    ParseBegin([Op('(')] + inner, Cat(r, Cat(AtEnd, Empty)));
    assert [Begin] + ([Op('(')] + inner) == [Begin, Op('(')] + inner;
  }

  lemma SplitCat(t: Tables, a: Regex, b: Regex, s: string, i: nat, j: nat) returns (k: nat)
    requires i <= j <= |s| && Matches(t, Cat(a, b), s, i, j)
    ensures i <= k <= j && Matches(t, a, s, i, k) && Matches(t, b, s, k, j)
  {
    k :| i <= k <= j && Matches(t, a, s, i, k) && Matches(t, b, s, k, j);
  }

  lemma AnchoredMeaning(t: Tables, r: Regex, s: string)
    ensures GoAccepts(t, Anchored(r), s) <==> YangAccepts(t, r, s)
  {
    var e := Cat(AtEnd, Empty);
    var q := Cat(r, e);
    if GoAccepts(t, Anchored(r), s) {
      var i: nat, j: nat :| i <= j <= |s| && Matches(t, Anchored(r), s, i, j);
      var k := SplitCat(t, AtBegin, q, s, i, j);
      var m := SplitCat(t, r, e, s, k, j);
      var n := SplitCat(t, AtEnd, Empty, s, m, j);
    }
    if YangAccepts(t, r, s) {
      var n := |s|;
      assert Matches(t, AtEnd, s, n, n) && Matches(t, Empty, s, n, n);
      assert Matches(t, e, s, n, n);
      assert Matches(t, q, s, 0, n);
      assert Matches(t, AtBegin, s, 0, 0);
      assert Matches(t, Anchored(r), s, 0, n);
    }
  }

  // A good pattern accepts after the translation, as Go reads it, exactly the strings it accepts as a YANG pattern
  lemma FixKeepsMeaning(p: string, t: Tables, s: string)
    requires Good(p) && ParseYang(p).Some?
    ensures ParseGo(Fix(p)).Some? && (GoAccepts(t, ParseGo(Fix(p)).value, s) <==> YangAccepts(t, ParseYang(p).value, s))
  {
    ParsedNoBad(Lex(false, Top, p));
    FixIsAnchoring(p);
    ParseAnchored(Lex(false, Top, p), ParseYang(p).value);
    AnchoredMeaning(t, ParseYang(p).value, s);
  }

  // Categories are among the patterns of this theorem
  lemma CategoryPattern(t: Tables, s: string)
    ensures ParseYang("\\p{L}") == Some(Cat(Category(false, "L"), Empty)) && Good("\\p{L}")
    ensures YangAccepts(t, Cat(Category(false, "L"), Empty), s) <==> |s| == 1 && t.cat("L", s[0])
  {
    CategoryTokens();
    var a, b, c := [Esc('p'), Op('{'), Lit('L'), Op('}')], [Lit('L'), Op('}')], [Op('}')];
    assert a[2..] == b && b[1..] == c && c[1..] == [];
    assert ParseName(c) == Some(("", []));
    assert ParseName(b) == Some(([b[0].c] + "", [])) && [b[0].c] + "" == "L";
    assert ParseAtom(a) == Some((Category(false, "L"), []));
    assert ParseCat([]) == Some((Empty, []));
    assert ParseCat(a) == Some((Cat(Category(false, "L"), Empty), [])) by {
      assert ParsePiece(a) == Some((Category(false, "L"), []));
    }
    if |s| == 1 && t.cat("L", s[0]) { assert Matches(t, Category(false, "L"), s, 0, 1) && Matches(t, Empty, s, 1, 1); }
  }

  lemma CategoryTokens()
    ensures Lex(false, Top, "\\p{L}") == [Esc('p'), Op('{'), Lit('L'), Op('}')] && Good("\\p{L}")
  {
    var p := "\\p{L}";
    assert p[2..] == "{L}" && "{L}"[1..] == "L}" && "L}"[1..] == "}" && "}"[1..] == "";
    assert Lex(false, Top, "}") == [Op('}')] + Lex(false, Top, "");
    assert Lex(false, Top, "L}") == [Lit('L')] + Lex(false, Top, "}");
    assert Lex(false, Top, "{L}") == [Op('{')] + Lex(false, Top, "L}");
    assert Lex(false, Top, p) == [Esc('p')] + Lex(false, Top, "{L}");
  }
}
