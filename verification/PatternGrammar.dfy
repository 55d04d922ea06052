// What patterns of each kind accept.
module PatternGrammar {
  import opened Wrappers
  import opened PatternSyntax
  import opened PatternTokens
  import opened PatternMeaning

  // ---- repetition ----

  predicate All(s: string, c: char, i: nat, j: nat)
    requires i <= j <= |s|
  {
    forall k :: i <= k < j ==> s[k] == c
  }

  // Repetitions of one character
  lemma {:induction false} TimesChar(t: Tables, c: char, n: nat, s: string, i: nat, j: nat)
    requires i <= j <= |s|
    ensures MatchesTimes(t, Char(c), n, s, i, j) <==> n == j - i && All(s, c, i, j)
    decreases n
  {
    if n > 0 {
      forall k | i <= k <= j && Matches(t, Char(c), s, i, k)
        ensures MatchesTimes(t, Char(c), n - 1, s, k, j) <==> n - 1 == j - k && All(s, c, k, j)
      {
        TimesChar(t, c, n - 1, s, k, j);
      }
      if i < j { assert Matches(t, Char(c), s, i, i + 1) <==> s[i] == c; }
    }
  }

  lemma RepeatMeaning(t: Tables, c: char, lo: nat, hi: Option<nat>, s: string)
    ensures YangAccepts(t, Cat(Rep(Char(c), lo, hi), Empty), s) <==>
      lo <= |s| && (hi.Some? ==> |s| <= hi.value) && All(s, c, 0, |s|)
  {
    var r := Rep(Char(c), lo, hi);
    CatEmpty(t, r, s);
    forall n: nat ensures MatchesTimes(t, Char(c), n, s, 0, |s|) <==> n == |s| && All(s, c, 0, |s|) {
      TimesChar(t, c, n, s, 0, |s|);
    }
    assert Matches(t, r, s, 0, |s|) <==>
      exists n: nat :: lo <= n && (hi.Some? ==> n <= hi.value) && MatchesTimes(t, Char(c), n, s, 0, |s|);
    if lo <= |s| && (hi.Some? ==> |s| <= hi.value) && All(s, c, 0, |s|) {
      assert MatchesTimes(t, Char(c), |s|, s, 0, |s|);
    }
  }

  lemma CatEmpty(t: Tables, r: Regex, s: string)
    ensures YangAccepts(t, Cat(r, Empty), s) <==> Matches(t, r, s, 0, |s|)
  {
    if YangAccepts(t, Cat(r, Empty), s) { var k := SplitCat(t, r, Empty, s, 0, |s|); }
    if Matches(t, r, s, 0, |s|) { assert Matches(t, Empty, s, |s|, |s|); }
  }

  lemma ParseRepeat(c: char, qs: seq<Token>, lo: nat, hi: Option<nat>)
    requires Quantify(Char(c), qs) == Some((Rep(Char(c), lo, hi), []))
    ensures Parse([Lit(c)] + qs) == Some(Cat(Rep(Char(c), lo, hi), Empty))
  {
    var ts := [Lit(c)] + qs;
    assert ts[1..] == qs;
    assert ParseCat([]) == Some((Empty, []));
    assert ParseAtom(ts) == Some((Char(c), qs));
    hide Quantify;
    assert ParsePiece(ts) == Some((Rep(Char(c), lo, hi), []));
    assert ParseCat(ts) == Some((Cat(Rep(Char(c), lo, hi), Empty), []));
  }

  // ---- one character ----

  // a range, a single character, and the complement
  lemma ClassMeaning(t: Tables, s: string)
    ensures var items := [Item('a'), Item('-'), Item('f'), Item('_')];
      (YangAccepts(t, Cat(Class(false, items), Empty), s) <==> |s| == 1 && ('a' <= s[0] <= 'f' || s[0] == '_'))
      && (YangAccepts(t, Cat(Class(true, items), Empty), s) <==> |s| == 1 && !('a' <= s[0] <= 'f' || s[0] == '_'))
  {
    var items := [Item('a'), Item('-'), Item('f'), Item('_')];
    CatEmpty(t, Class(false, items), s);
    CatEmpty(t, Class(true, items), s);
    assert items[3..] == [Item('_')] && [Item('_')][1..] == [];
    forall x ensures InItems(t, items, x) <==> 'a' <= x <= 'f' || x == '_' {}
  }

  lemma OneMeaning(t: Tables, c: char, s: string)
    ensures YangAccepts(t, Cat(Any, Empty), s) <==> |s| == 1 && t.dot(s[0])
    ensures YangAccepts(t, Cat(Escape(c), Empty), s) <==> |s| == 1 && t.esc(c, s[0])
    ensures YangAccepts(t, Cat(Class(false, [ItemEsc('d'), Item('_')]), Empty), s)
      <==> |s| == 1 && (t.esc('d', s[0]) || s[0] == '_')
  {
    var items := [ItemEsc('d'), Item('_')];
    CatEmpty(t, Any, s);
    CatEmpty(t, Escape(c), s);
    CatEmpty(t, Class(false, items), s);
    assert items[1..] == [Item('_')] && [Item('_')][1..] == [];
    forall x ensures InItems(t, items, x) <==> t.esc('d', x) || x == '_' {}
  }

  // ---- patterns and what they are read as, in both dialects but for the anchors ----

  predicate NoClass(s: string) { forall c :: c in s ==> c != '\\' && c != '[' }

  lemma {:induction false} LexTop(go: bool, s: string)
    requires NoClass(s)
    ensures |Lex(go, Top, s)| == |s| && forall i :: 0 <= i < |s| ==> Lex(go, Top, s)[i] == TopTok(go, s[i])
  {
    if s != "" {
      assert s[0] in s && forall c :: c in s[1..] ==> c in s;
      LexTop(go, s[1..]);
      assert s == [s[0]] + s[1..];
      LexOne(go, Top, s[0], s[1..]);
    }
  }

  // none or more, one or more, none or one
  lemma SignTexts(go: bool)
    ensures Parse(Lex(go, Top, "a*")) == Some(Cat(Rep(Char('a'), 0, None), Empty))
    ensures Parse(Lex(go, Top, "a+")) == Some(Cat(Rep(Char('a'), 1, None), Empty))
    ensures Parse(Lex(go, Top, "a?")) == Some(Cat(Rep(Char('a'), 0, Some(1)), Empty))
  {
    hide Lex;
    LexTop(go, "a*");
    LexTop(go, "a+");
    LexTop(go, "a?");
    assert Lex(go, Top, "a*") == [Lit('a')] + [Op('*')] && Lex(go, Top, "a+") == [Lit('a')] + [Op('+')];
    assert Lex(go, Top, "a?") == [Lit('a')] + [Op('?')];
    assert [Op('*')][1..] == [] && [Op('+')][1..] == [] && [Op('?')][1..] == [];
    ParseRepeat('a', [Op('*')], 0, None);
    ParseRepeat('a', [Op('+')], 1, None);
    ParseRepeat('a', [Op('?')], 0, Some(1));
  }

  lemma NumberOf(ts: seq<Token>, n: nat)
    requires ts != [] && (ts[0].Op? || ts[0] == Lit(','))
    ensures Number(ts, n) == (n, ts) && Number([Lit('1'), Lit('2')] + ts, n) == (100 * n + 12, ts)
  {
    var a, b := [Lit('1'), Lit('2')] + ts, [Lit('2')] + ts;
    assert a[1..] == b && b[1..] == ts;
    assert Number(b, 10 * n + 1) == Number(ts, 100 * n + 12);
  }

  lemma Exactly(a: Regex)
    ensures Quantify(a, [Op('{'), Lit('1'), Lit('2'), Op('}')]) == Some((Rep(a, 12, Some(12)), []))
  {
    var ts := [Op('{'), Lit('1'), Lit('2'), Op('}')];
    NumberOf([Op('}')], 0);
    assert ts[1..] == [Lit('1'), Lit('2')] + [Op('}')] && [Op('}')][1..] == [];
    hide Number;
  }

  lemma AtLeast(a: Regex)
    ensures Quantify(a, [Op('{'), Lit('1'), Lit('2'), Lit(','), Op('}')]) == Some((Rep(a, 12, None), []))
  {
    var ts, u := [Op('{'), Lit('1'), Lit('2'), Lit(','), Op('}')], [Lit(','), Op('}')];
    NumberOf(u, 0);
    NumberOf([Op('}')], 0);
    assert ts[1..] == [Lit('1'), Lit('2')] + u && u[1..] == [Op('}')] && [Op('}')][1..] == [];
    hide Number;
  }

  lemma FromTo(a: Regex)
    ensures Quantify(a, [Op('{'), Lit('1'), Lit('2'), Lit(','), Lit('1'), Lit('2'), Op('}')])
      == Some((Rep(a, 12, Some(12)), []))
  {
    var e := [Op('}')];
    var x := [Lit('1'), Lit('2')] + e;
    var u := [Lit(',')] + x;
    var ts := [Op('{'), Lit('1'), Lit('2'), Lit(','), Lit('1'), Lit('2'), Op('}')];
    NumberOf(u, 0);
    NumberOf(e, 0);
    assert ts[1..] == [Lit('1'), Lit('2')] + u && u[1..] == x && e[1..] == [];
    hide Number;
  }

  lemma ParseChar(c: char, ts: seq<Token>, r: Regex, rest: seq<Token>)
    requires ParseCat(ts) == Some((r, rest)) && Quantify(Char(c), ts) == Some((Char(c), ts))
    ensures ParseCat([Lit(c)] + ts) == Some((Cat(Char(c), r), rest))
  {
    var all := [Lit(c)] + ts;
    assert all[1..] == ts;
    assert ParseAtom(all) == Some((Char(c), ts));
    hide Quantify;
    assert ParsePiece(all) == Some((Char(c), ts));
  }

  // In front of what ends a sequence
  lemma ParseLast(c: char, rest: seq<Token>)
    requires Stops(rest)
    ensures ParseCat([Lit(c)] + rest) == Some((Cat(Char(c), Empty), rest))
  {
    ParseChar(c, rest, Empty, rest);
  }

  lemma ParseChoice(a: seq<Token>, r: Regex, b: seq<Token>, q: Regex, rest: seq<Token>)
    requires ParseCat(a + ([Op('|')] + b)) == Some((r, [Op('|')] + b)) && ParseAlt(b) == Some((q, rest))
    ensures ParseAlt(a + ([Op('|')] + b)) == Some((Alt(r, q), rest))
  {
    assert ([Op('|')] + b)[1..] == b;
  }

  lemma Single(b: seq<Token>, r: Regex, rest: seq<Token>)
    requires ParseCat(b) == Some((r, rest)) && (rest == [] || rest[0] != Op('|'))
    ensures ParseAlt(b) == Some((r, rest))
  {
  }

  // Alternatives reach to the ends of the pattern
  lemma ChoiceText(go: bool)
    ensures Parse(Lex(go, Top, "a|bc")) == Some(Alt(Cat(Char('a'), Empty), Cat(Char('b'), Cat(Char('c'), Empty))))
  {
    hide Lex;
    LexTop(go, "a|bc");
    var c, b := [Lit('c')] + [], [Lit('b')] + ([Lit('c')] + []);
    assert Lex(go, Top, "a|bc") == [Lit('a')] + ([Op('|')] + b);
    ParseLast('c', []);
    ParseChar('b', c, Cat(Char('c'), Empty), []);
    ParseLast('a', [Op('|')] + b);
    hide ParseCat, ParseAlt;
    Single(b, Cat(Char('b'), Cat(Char('c'), Empty)), []);
    ParseChoice([Lit('a')], Cat(Char('a'), Empty), b, Cat(Char('b'), Cat(Char('c'), Empty)), []);
  }

  lemma ParseInGroup(inner: seq<Token>, r: Regex, rest: seq<Token>)
    requires ParseAlt(inner) == Some((r, [Op(')')] + rest)) && Quantify(r, rest) == Some((r, rest))
    requires ParseCat(rest).Some?
    ensures var (q, end) := ParseCat(rest).value; ParseCat([Op('(')] + inner) == Some((Cat(r, q), end))
  {
    var all := [Op('(')] + inner;
    assert all[1..] == inner && ([Op(')')] + rest)[1..] == rest;
    assert ParseAtom(all) == Some((r, rest));
    hide Quantify, ParseAlt;
    assert ParsePiece(all) == Some((r, rest));
  }

  // or to the ends of the group
  lemma GroupText(go: bool)
    ensures Parse(Lex(go, Top, "(a|b)c"))
      == Some(Cat(Alt(Cat(Char('a'), Empty), Cat(Char('b'), Empty)), Cat(Char('c'), Empty)))
  {
    hide Lex;
    LexTop(go, "(a|b)c");
    var a, b := Cat(Char('a'), Empty), Cat(Char('b'), Empty);
    var c, shut := [Lit('c')] + [], [Op(')')] + ([Lit('c')] + []);
    var tail := [Lit('b')] + shut;
    var inner := [Lit('a')] + ([Op('|')] + tail);
    assert Lex(go, Top, "(a|b)c") == [Op('(')] + inner;
    ParseLast('c', []);
    ParseLast('b', shut);
    ParseLast('a', [Op('|')] + tail);
    hide ParseCat, ParseAlt;
    Single(tail, b, shut);
    ParseChoice([Lit('a')], a, tail, b, shut);
    ParseInGroup(inner, Alt(a, b), c);
    Single([Op('(')] + inner, Cat(Alt(a, b), Cat(Char('c'), Empty)), []);
  }

  // A class up to its bracket: the caret behind the opening one negates, and a dash is an item
  lemma ClassText(go: bool)
    ensures Parse(Lex(go, Top, "[a-f_]")) ==
      Some(Cat(Class(false, [Item('a'), Item('-'), Item('f'), Item('_')]), Empty))
    ensures Parse(Lex(go, Top, "[^a-f_]")) ==
      Some(Cat(Class(true, [Item('a'), Item('-'), Item('f'), Item('_')]), Empty))
  {
    ClassItems(go);
    var items := [Item('a'), Item('-'), Item('f'), Item('_')];
    var ts := Lex(go, First, "a-f_]");
    assert "[^a-f_]"[2..] == "a-f_]" && "[a-f_]"[1..] == "a-f_]";
    assert Lex(go, Top, "[a-f_]") == [Open(false)] + ts && Lex(go, Top, "[^a-f_]") == [Open(true)] + ts;
    hide Lex;
    ParseClass(false, items, ts);
    ParseClass(true, items, ts);
  }

  lemma ClassItems(go: bool)
    ensures Lex(go, First, "a-f_]") == [Item('a'), Item('-'), Item('f'), Item('_'), Close]
  {
    assert "a-f_]"[1..] == "-f_]" && "-f_]"[1..] == "f_]" && "f_]"[1..] == "_]" && "_]"[1..] == "]" && "]"[1..] == "";
    assert Lex(go, Top, "") == [];
    assert Lex(go, Inside, "]") == [Close] + [];
    assert Lex(go, Inside, "_]") == [Item('_')] + Lex(go, Inside, "]");
    assert Lex(go, Inside, "f_]") == [Item('f')] + Lex(go, Inside, "_]");
    assert Lex(go, Inside, "-f_]") == [Item('-')] + Lex(go, Inside, "f_]");
  }

  lemma {:induction false} ItemsUpTo(items: seq<Token>, rest: seq<Token>)
    requires forall i :: 0 <= i < |items| ==> items[i].Item? || items[i].ItemEsc?
    ensures ParseItems(items + ([Close] + rest)) == Some((items, rest))
  {
    var ts := items + ([Close] + rest);
    if items == [] {
      assert ts == [Close] + rest && ([Close] + rest)[1..] == rest;
    } else {
      ItemsUpTo(items[1..], rest);
      assert ts[1..] == items[1..] + ([Close] + rest);
      assert [items[0]] + items[1..] == items;
    }
  }

  lemma ParseClass(neg: bool, items: seq<Token>, ts: seq<Token>)
    requires items != [] && forall i :: 0 <= i < |items| ==> items[i].Item? || items[i].ItemEsc?
    requires ts == items + [Close]
    ensures Parse([Open(neg)] + ts) == Some(Cat(Class(neg, items), Empty))
  {
    var all := [Open(neg)] + ts;
    ItemsUpTo(items, []);
    assert [Close] + [] == [Close] && all[1..] == ts;
    assert ParseAtom(all) == Some((Class(neg, items), []));
    assert ParsePiece(all) == Some((Class(neg, items), []));
    assert ParseCat([]) == Some((Empty, []));
    hide ParsePiece;
    assert ParseCat(all) == Some((Cat(Class(neg, items), Empty), []));
  }

  // The dialects differ in the anchors: YANG reads them as characters and matches the whole string
  lemma AnchorTexts()
    ensures ParseGo("^a$") == Some(Anchored(Char('a')))
    ensures ParseYang("^a$") == Some(Cat(Char('^'), Cat(Char('a'), Cat(Char('$'), Empty))))
  {
    hide Lex;
    LexTop(true, "^a$");
    LexTop(false, "^a$");
    assert Lex(true, Top, "^a$") == [Begin] + ([Lit('a')] + [End]);
    var ts := [Lit('$')] + [];
    assert Lex(false, Top, "^a$") == [Lit('^')] + ([Lit('a')] + ts);
    ParseLast('$', []);
    ParseChar('a', ts, Cat(Char('$'), Empty), []);
    ParseChar('^', [Lit('a')] + ts, Cat(Char('a'), Cat(Char('$'), Empty)), []);
    ParseEnd(Char('a'));
    ParseChar('a', [End], Cat(AtEnd, Empty), []);
    hide ParseCat, ParseAlt;
    Single([Lit('^')] + ([Lit('a')] + ts), Cat(Char('^'), Cat(Char('a'), Cat(Char('$'), Empty))), []);
    AnchoredChar();
  }

  lemma AnchoredChar()
    requires ParseCat([Lit('a')] + [End]) == Some((Cat(Char('a'), Cat(AtEnd, Empty)), []))
    ensures Parse([Begin] + ([Lit('a')] + [End])) == Some(Anchored(Char('a')))
  {
    var inner := [Lit('a')] + [End];
    var all := [Begin] + inner;
    assert all[1..] == inner && inner[0] == Lit('a');
    assert ParseAtom(all) == Some((AtBegin, inner)) && Quantify(AtBegin, inner) == Some((AtBegin, inner));
    assert ParsePiece(all) == Some((AtBegin, inner));
    hide ParsePiece;
    assert ParseCat(all) == Some((Anchored(Char('a')), []));
  }

  // A search finds a character anywhere; between the anchors it is all there is
  lemma SearchMeaning(t: Tables, c: char, s: string)
    ensures GoAccepts(t, Char(c), s) <==> c in s
    ensures GoAccepts(t, Anchored(Char(c)), s) <==> s == [c]
    ensures YangAccepts(t, Char(c), s) <==> s == [c]
  {
    AnchoredMeaning(t, Char(c), s);
    if GoAccepts(t, Char(c), s) { var i: nat, j: nat :| i <= j <= |s| && Matches(t, Char(c), s, i, j); }
    if c in s {
      var i :| 0 <= i < |s| && s[i] == c;
      assert Matches(t, Char(c), s, i, i + 1);
    }
  }
}
