// Each condition of a good pattern is needed: what becomes of the patterns that break one.
module PatternLimits {
  import opened Wrappers
  import opened PatternSyntax
  import opened FixYangRegexp
  import opened PatternTokens
  import opened PatternMeaning

  // The empty pattern is not anchored: it accepts every string, and not just the empty one
  lemma EmptyPattern(t: Tables, s: string)
    ensures ParseYang("") == Some(Empty) && ParseGo(Fix("")) == Some(Empty)
    ensures GoAccepts(t, Empty, s) && (YangAccepts(t, Empty, s) <==> s == "")
  {
    assert Matches(t, Empty, s, 0, 0);
  }

  // ---- a leading ^ ----

  // The end of a chain of pieces
  function Then(r: Regex, e: Regex): Regex { match r case Cat(a, b) => Cat(a, Then(b, e)) case _ => e }

  predicate Chain(r: Regex) { r == Empty || (r.Cat? && Chain(r.rest)) }

  lemma {:induction false} EndCat(ts: seq<Token>, r: Regex)
    requires ParseCat(ts) == Some((r, []))
    ensures ParseCat(ts + [End]) == Some((Then(r, Cat(AtEnd, Empty)), [])) && Chain(r)
    decreases |ts|
  {
    if ts == [] {
      assert ts + [End] == [End];
      ParseEnd(Empty);
    } else {
      TailApp(ts, [End]);
      ShutPiece(ts, [End]);
      EndCat(ParsePiece(ts).value.1, ParseCat(ParsePiece(ts).value.1).value.0);
    }
  }

  lemma {:induction false} ThenEnd(t: Tables, r: Regex, s: string, i: nat, j: nat)
    requires i <= j <= |s| && Chain(r)
    ensures Matches(t, Then(r, Cat(AtEnd, Empty)), s, i, j) <==> j == |s| && Matches(t, r, s, i, j)
  {
    var e := Cat(AtEnd, Empty);
    match r {
      case Empty =>
        if Matches(t, e, s, i, j) { var k := SplitCat(t, AtEnd, Empty, s, i, j); }
        if i == j == |s| { assert Matches(t, AtEnd, s, i, i) && Matches(t, Empty, s, i, i); }
      case Cat(a, b) =>
        forall k | i <= k <= j ensures Matches(t, Then(b, e), s, k, j) <==> j == |s| && Matches(t, b, s, k, j) {
          ThenEnd(t, b, s, k, j);
        }
        if Matches(t, Cat(a, Then(b, e)), s, i, j) {
          var k := SplitCat(t, a, Then(b, e), s, i, j);
          assert Matches(t, a, s, i, k) && Matches(t, b, s, k, j);
        }
        if j == |s| && Matches(t, r, s, i, j) {
          var k := SplitCat(t, a, b, s, i, j);
          assert Matches(t, a, s, i, k) && Matches(t, Then(b, e), s, k, j);
        }
    }
  }

  // Behind an atom of one token stands no quantifier
  lemma FirstPiece(x: Token, a: Regex, ts: seq<Token>, r: Regex)
    requires ParseAtom([x] + ts) == Some((a, ts)) && !Stops([x] + ts) && ParseCat(ts) == Some((r, []))
    ensures Parse([x] + ts) == Some(Cat(a, r))
  {
    var all := [x] + ts;
    NoQuantifier(ts, a);
    hide ParseAtom, Quantify;
    assert ParsePiece(all) == Some((a, ts));
    assert ParseCat(all) == Some((Cat(a, r), []));
  }

  lemma NoQuantifier(ts: seq<Token>, a: Regex)
    requires ParseCat(ts).Some?
    ensures Quantify(a, ts) == Some((a, ts))
  {
    if ts != [] && !Stops(ts) { assert ParseAtom(ts).Some?; }
  }

  lemma CaretTokens(q: string)
    requires NoStray(Top, q, false, '^') && NoBad(Lex(false, Top, q))
    requires var p := "^" + q; Width(Last(p)) == 1 && Last(p) != '$'
    ensures Lex(false, Top, "^" + q) == [Lit('^')] + Lex(false, Top, q)
    ensures Lex(true, Top, Fix("^" + q)) == [Begin] + (Lex(false, Top, q) + [End])
  {
    var p := "^" + q;
    assert p[0] == '^' && p[1..] == q;
    assert Lex(false, Top, p) == [Lit('^')] + Lex(false, Top, q);
    assert Skewed(Top, p, true, '\0') == [Begin] + Skewed(Top, q, false, '^');
    SkewedSame(Top, q, false, '^');
    TokensOfFix(p);
    assert ClosingToks(Last(p), false) == [] + [End] == [End];
    hide Lex, Skewed, Fix;
    assert [] + (([Begin] + Lex(false, Top, q)) + [End]) == [Begin] + (Lex(false, Top, q) + [End]);
  }

  lemma CaretParse(ts: seq<Token>, r: Regex)
    requires ParseCat(ts) == Some((r, []))
    ensures Parse([Lit('^')] + ts) == Some(Cat(Char('^'), r))
    ensures Parse([Begin] + (ts + [End])) == Some(Cat(AtBegin, Then(r, Cat(AtEnd, Empty)))) && Chain(r)
  {
    EndCat(ts, r);
    hide ParseCat, Parse;
    assert ([Lit('^')] + ts)[1..] == ts && ([Begin] + (ts + [End]))[1..] == ts + [End];
    FirstPiece(Lit('^'), Char('^'), ts, r);
    FirstPiece(Begin, AtBegin, ts + [End], Then(r, Cat(AtEnd, Empty)));
  }

  lemma CaretMeaning(t: Tables, r: Regex, s: string)
    requires Chain(r)
    ensures YangAccepts(t, Cat(Char('^'), r), s) <==> s != "" && s[0] == '^' && Matches(t, r, s, 1, |s|)
    ensures GoAccepts(t, Cat(AtBegin, Then(r, Cat(AtEnd, Empty))), s) <==> YangAccepts(t, r, s)
  {
    var e := Then(r, Cat(AtEnd, Empty));
    if YangAccepts(t, Cat(Char('^'), r), s) { var k := SplitCat(t, Char('^'), r, s, 0, |s|); }
    if s != "" && s[0] == '^' && Matches(t, r, s, 1, |s|) { assert Matches(t, Char('^'), s, 0, 1); }
    if GoAccepts(t, Cat(AtBegin, e), s) {
      var i: nat, j: nat :| i <= j <= |s| && Matches(t, Cat(AtBegin, e), s, i, j);
      var k := SplitCat(t, AtBegin, e, s, i, j);
      ThenEnd(t, r, s, k, j);
    }
    if YangAccepts(t, r, s) {
      ThenEnd(t, r, s, 0, |s|);
      assert Matches(t, AtBegin, s, 0, 0);
      assert Matches(t, Cat(AtBegin, e), s, 0, |s|);
    }
  }

  // A leading ^ in front of a pattern without top-level alternatives is lost as a character: the output accepts exactly
  // what the rest of the pattern accepts, and the pattern accepts that behind a ^
  lemma LeadingCaret(q: string, r: Regex, t: Tables, s: string)
    requires ParseCat(Lex(false, Top, q)) == Some((r, [])) && NoStray(Top, q, false, '^')
    requires var p := "^" + q; Width(Last(p)) == 1 && Last(p) != '$'
    ensures ParseYang(q) == Some(r) && ParseYang("^" + q).Some? && ParseGo(Fix("^" + q)).Some?
    ensures YangAccepts(t, ParseYang("^" + q).value, s) <==> s != "" && s[0] == '^' && Matches(t, r, s, 1, |s|)
    ensures GoAccepts(t, ParseGo(Fix("^" + q)).value, s) <==> YangAccepts(t, r, s)
  {
    var ts := Lex(false, Top, q);
    assert Parse(ts) == Some(r);
    ParsedNoBad(ts);
    CaretTokens(q);
    CaretParse(ts, r);
    hide Lex, Parse, Fix, NoStray, YangAccepts, GoAccepts, Matches;
    CaretMeaning(t, r, s);
  }

  // ---- a ^ behind an escaped bracket ----

  // The output accepts what the pattern would accept if each such ^ were an anchor
  lemma StrayCarets(p: string, r: Regex, t: Tables, s: string)
    requires p != "" && p[0] != '^' && Width(Last(p)) == 1 && Last(p) != '$' && NoBad(Lex(false, Top, p))
    requires Parse(Skewed(Top, p, true, '\0')) == Some(r)
    ensures ParseGo(Fix(p)).Some? && (GoAccepts(t, ParseGo(Fix(p)).value, s) <==> YangAccepts(t, r, s))
  {
    TokensOfFix(p);
    hide Lex, Skewed, Fix, Parse, GoAccepts, YangAccepts;
    ParseAnchored(Skewed(Top, p, true, '\0'), r);
    AnchoredMeaning(t, r, s);
    assert [Op(')')] + [End] == [Op(')'), End];
  }

  lemma StrayText()
    ensures Lex(false, Top, "\\[^") == [Esc('['), Lit('^')]
    ensures Lex(true, Top, Fix("\\[^")) == [Begin, Op('(')] + ([Esc('['), Begin] + [Op(')'), End])
  {
    var p := "\\[^";
    assert p[2..] == "^" && "^"[1..] == "";
    assert Lex(false, Top, "^") == [Lit('^')] + Lex(false, Top, "");
    assert Lex(false, Top, p) == [Esc('[')] + Lex(false, Top, "^");
    assert Skewed(Top, "^", false, '[') == [Begin] + Skewed(Top, "", false, '^');
    assert Skewed(Top, p, true, '\0') == [Esc('[')] + Skewed(Top, "^", false, '[');
    TokensOfFix(p);
  }

  lemma StrayParse()
    ensures Parse([Esc('['), Lit('^')]) == Some(Cat(Escape('['), Cat(Char('^'), Empty)))
    ensures Parse([Esc('['), Begin]) == Some(Cat(Escape('['), Cat(AtBegin, Empty)))
  {
    var a, b := [Esc('['), Lit('^')], [Esc('['), Begin];
    assert a[1..] == [Lit('^')] && b[1..] == [Begin] && [Lit('^')][1..] == [] && [Begin][1..] == [];
    assert ParseCat([]) == Some((Empty, []));
    assert ParsePiece([Lit('^')]) == Some((Char('^'), [])) && ParsePiece([Begin]) == Some((AtBegin, []));
    assert ParseCat([Lit('^')]) == Some((Cat(Char('^'), Empty), []))
      && ParseCat([Begin]) == Some((Cat(AtBegin, Empty), []));
    assert ParsePiece(a) == Some((Escape('['), [Lit('^')])) && ParsePiece(b) == Some((Escape('['), [Begin]));
  }

  // A ^ after an escaped bracket becomes an anchor in mid-pattern: the output of "\[^" accepts nothing
  lemma StrayCaret(t: Tables, s: string)
    requires t.esc('[', '[')
    ensures ParseYang("\\[^").Some? && YangAccepts(t, ParseYang("\\[^").value, "[^")
    ensures ParseGo(Fix("\\[^")).Some? && !GoAccepts(t, ParseGo(Fix("\\[^")).value, s)
  {
    hide Parse, Fix, Lex;
    StrayText();
    StrayParse();
    var y, g := Cat(Escape('['), Cat(Char('^'), Empty)), Cat(Escape('['), Cat(AtBegin, Empty));
    ParseAnchored([Esc('['), Begin], g);
    AnchoredMeaning(t, g, s);
    assert Matches(t, Escape('['), "[^", 0, 1) && Matches(t, Char('^'), "[^", 1, 2) && Matches(t, Empty, "[^", 2, 2);
    assert Matches(t, Cat(Char('^'), Empty), "[^", 1, 2);
    assert Matches(t, y, "[^", 0, 2);
    if YangAccepts(t, g, s) {
      var k := SplitCat(t, Escape('['), Cat(AtBegin, Empty), s, 0, |s|);
      var m := SplitCat(t, AtBegin, Empty, s, k, |s|);
    }
  }

  // ---- a trailing \$ ----

  predicate Plain(r: Regex) {
    match r
    case AtBegin => false
    case AtEnd => false
    case Cat(a, b) => Plain(a) && Plain(b)
    case Alt(a, b) => Plain(a) && Plain(b)
    case Rep(a, _, _) => Plain(a)
    case _ => true
  }

  ghost predicate NoAnchor(ts: seq<Token>) { Begin !in ts && End !in ts }

  lemma {:induction false} LexNoAnchor(mode: Mode, s: string)
    ensures NoAnchor(Lex(false, mode, s))
    decreases |s|
  {
    if s == [] {
    } else if s[0] == '\\' {
      if |s| > 1 { LexNoAnchor(if mode == Top then Top else Inside, s[2..]); }
    } else if mode == Top {
      if s[0] == '[' && |s| > 1 && s[1] == '^' { LexNoAnchor(First, s[2..]); }
      else { LexNoAnchor(if s[0] == '[' then First else Top, s[1..]); }
    } else {
      LexNoAnchor(if s[0] == ']' then Top else Inside, s[1..]);
    }
  }

  lemma Suffix(ts: seq<Token>, rest: seq<Token>)
    requires NoAnchor(ts) && Consumed(ts, rest)
    ensures NoAnchor(rest)
  {
  }

  lemma {:induction false} PlainAlt(ts: seq<Token>)
    requires NoAnchor(ts) && ParseAlt(ts).Some?
    ensures Plain(ParseAlt(ts).value.0)
    decreases |ts|, 3
  {
    PlainCat(ts);
    ReadCat(ts);
    var rest := ParseCat(ts).value.1;
    Suffix(ts, rest);
    if rest != [] && rest[0] == Op('|') { PlainAlt(rest[1..]); }
  }

  lemma {:induction false} PlainCat(ts: seq<Token>)
    requires NoAnchor(ts) && ParseCat(ts).Some?
    ensures Plain(ParseCat(ts).value.0)
    decreases |ts|, 2
  {
    if !Stops(ts) {
      PlainPiece(ts);
      ReadPiece(ts);
      Suffix(ts, ParsePiece(ts).value.1);
      PlainCat(ParsePiece(ts).value.1);
    }
  }

  lemma {:induction false} PlainPiece(ts: seq<Token>)
    requires NoAnchor(ts) && ParsePiece(ts).Some?
    ensures Plain(ParsePiece(ts).value.0)
    decreases |ts|, 1
  {
    PlainAtom(ts);
    hide Number;
  }

  lemma {:induction false} PlainAtom(ts: seq<Token>)
    requires NoAnchor(ts) && ParseAtom(ts).Some?
    ensures Plain(ParseAtom(ts).value.0)
    decreases |ts|, 0
  {
    assert ts[0] in ts;
    if ts[0] == Op('(') { PlainAlt(ts[1..]); }
  }

  // Without anchors what follows does not matter
  lemma {:induction false} OnPrefix(t: Tables, r: Regex, s: string, n: nat, i: nat, j: nat)
    requires Plain(r) && i <= j <= n <= |s|
    ensures Matches(t, r, s, i, j) <==> Matches(t, r, s[..n], i, j)
    decreases r, 0
  {
    var u := s[..n];
    match r {
      case Cat(a, b) =>
        forall k | i <= k <= j
          ensures Matches(t, a, s, i, k) && Matches(t, b, s, k, j) <==> Matches(t, a, u, i, k) && Matches(t, b, u, k, j)
        {
          OnPrefix(t, a, s, n, i, k);
          OnPrefix(t, b, s, n, k, j);
        }
      case Alt(a, b) =>
        OnPrefix(t, a, s, n, i, j);
        OnPrefix(t, b, s, n, i, j);
      case Rep(a, lo, hi) =>
        forall m: nat ensures MatchesTimes(t, a, m, s, i, j) <==> MatchesTimes(t, a, m, u, i, j) {
          TimesOnPrefix(t, a, m, s, n, i, j);
        }
      case _ =>
    }
  }

  lemma {:induction false} TimesOnPrefix(t: Tables, r: Regex, m: nat, s: string, n: nat, i: nat, j: nat)
    requires Plain(r) && i <= j <= n <= |s|
    ensures MatchesTimes(t, r, m, s, i, j) <==> MatchesTimes(t, r, m, s[..n], i, j)
    decreases r, 1, m
  {
    var u := s[..n];
    if m > 0 {
      forall k | i <= k <= j
        ensures Matches(t, r, s, i, k) && MatchesTimes(t, r, m - 1, s, k, j)
          <==> Matches(t, r, u, i, k) && MatchesTimes(t, r, m - 1, u, k, j)
      {
        OnPrefix(t, r, s, n, i, k);
        TimesOnPrefix(t, r, m - 1, s, n, k, j);
      }
    }
  }

  // a group up to the end, behind the anchor
  lemma GroupBehindBegin(ts: seq<Token>, r: Regex)
    requires ParseAlt(ts) == Some((r, [Op(')')]))
    ensures Parse([Begin, Op('(')] + ts) == Some(Cat(AtBegin, Cat(r, Empty)))
  {
    var b, c := [Op('(')] + ts, [Begin, Op('(')] + ts;
    assert b[1..] == ts && c[1..] == b && [Op(')')][1..] == [];
    assert ParseCat([]) == Some((Empty, []));
    assert ParseCat(b) == Some((Cat(r, Empty), [])) by {
      assert ParseAtom(b) == Some((r, []));
      assert ParsePiece(b) == Some((r, []));
    }
    assert ParsePiece(c) == Some((AtBegin, b)) by {
      assert ParseAtom(c) == Some((AtBegin, b));
    }
    assert ParseCat(c) == Some((Cat(AtBegin, Cat(r, Empty)), []));
  }

  lemma DollarMeaning(t: Tables, r: Regex, s: string)
    requires Plain(r)
    ensures GoAccepts(t, Cat(AtBegin, Cat(r, Empty)), s) <==> exists k :: 0 <= k <= |s| && YangAccepts(t, r, s[..k])
  {
    var g := Cat(AtBegin, Cat(r, Empty));
    if GoAccepts(t, g, s) {
      var i: nat, j: nat :| i <= j <= |s| && Matches(t, g, s, i, j);
      var k := SplitCat(t, AtBegin, Cat(r, Empty), s, i, j);
      var m := SplitCat(t, r, Empty, s, k, j);
      OnPrefix(t, r, s, m, 0, m);
      assert YangAccepts(t, r, s[..m]);
    }
    if k :| 0 <= k <= |s| && YangAccepts(t, r, s[..k]) {
      OnPrefix(t, r, s, k, 0, k);
      assert Matches(t, Empty, s, k, k) && Matches(t, AtBegin, s, 0, 0);
      assert Matches(t, Cat(r, Empty), s, 0, k);
      assert Matches(t, g, s, 0, k);
    }
  }

  lemma DollarTokens(p: string)
    requires p != "" && p[0] != '^' && Last(p) == '$' && NoStray(Top, p, true, '\0') && NoBad(Lex(false, Top, p))
    ensures Lex(true, Top, Fix(p)) == [Begin, Op('(')] + (Lex(false, Top, p) + [Op(')')])
  {
    TokensOfFix(p);
    SkewedSame(Top, p, true, '\0');
    hide Fix, Lex, Skewed, NoStray;
    assert ClosingToks('$', true) == [Op(')')] + [] == [Op(')')];
  }

  // A pattern that ends in \$ is not anchored at its end: the output accepts exactly the strings with an accepted
  // prefix
  lemma TrailingDollar(p: string, t: Tables, s: string)
    requires p != "" && p[0] != '^' && Last(p) == '$' && NoStray(Top, p, true, '\0') && ParseYang(p).Some?
    ensures ParseGo(Fix(p)).Some?
    ensures GoAccepts(t, ParseGo(Fix(p)).value, s) <==>
      exists k :: 0 <= k <= |s| && YangAccepts(t, ParseYang(p).value, s[..k])
  {
    var ts, r := Lex(false, Top, p), ParseYang(p).value;
    ParsedNoBad(ts);
    DollarTokens(p);
    LexNoAnchor(Top, p);
    PlainAlt(ts);
    ShutAlt(ts, [Op(')')]);
    assert [] + [Op(')')] == [Op(')')];
    hide Lex, Fix, NoStray, YangAccepts, GoAccepts, Plain, ParseCat;
    GroupBehindBegin(ts + [Op(')')], r);
    hide Parse, ParseAlt;
    DollarMeaning(t, r, s);
  }

  // ---- a last rune of several bytes ----

  // a group that is never closed
  lemma OpenGroup(ts: seq<Token>)
    requires Parse(ts).Some?
    ensures ParseCat([Op('(')] + ts) == None
  {
    var group := [Op('(')] + ts;
    assert group[1..] == ts;
    assert ParseAtom(group) == None;
    assert ParsePiece(group) == None;
  }

  lemma OpenBehindBegin(group: seq<Token>)
    requires group != [] && group[0] == Op('(') && ParseCat(group) == None
    ensures Parse([Begin] + group) == None
  {
    var all := [Begin] + group;
    assert all[1..] == group;
    assert ParseAtom(all) == Some((AtBegin, group)) && Quantify(AtBegin, group) == Some((AtBegin, group));
    assert ParsePiece(all) == Some((AtBegin, group));
    assert ParseCat(all) == None;
  }

  lemma MultiByteTokens(p: string)
    requires p != "" && p[0] != '^' && Width(Last(p)) > 1 && NoStray(Top, p, true, '\0') && NoBad(Lex(false, Top, p))
    ensures Lex(true, Top, Fix(p)) == [Begin, Op('(')] + Lex(false, Top, p)
  {
    TokensOfFix(p);
    SkewedSame(Top, p, true, '\0');
    hide Fix, Lex, Skewed, NoStray;
    assert Lex(false, Top, p) + [] == Lex(false, Top, p);
  }

  // A last rune of several bytes loses the closing parenthesis: the output does not compile
  lemma MultiByteEnd(p: string)
    requires p != "" && p[0] != '^' && Width(Last(p)) > 1 && NoStray(Top, p, true, '\0') && ParseYang(p).Some?
    ensures ParseGo(Fix(p)) == None
  {
    hide Fix, Lex, Parse, ParseCat, NoStray;
    var ts := Lex(false, Top, p);
    ParsedNoBad(ts);
    MultiByteTokens(p);
    OpenGroup(ts);
    OpenBehindBegin([Op('(')] + ts);
    assert [Begin] + ([Op('(')] + ts) == [Begin, Op('(')] + ts;
  }
}
