// How Go reads the output of fixYangRegexp: token by token the YANG pattern, between the anchors.
module PatternTokens {
  import opened Wrappers
  import opened PatternSyntax
  import opened FixYangRegexp

  predicate NoBad(ts: seq<Token>) { Bad !in ts }

  // The YANG tokens of s, except that a ^ after a written '[' and a ^ or $ at the very ends are taken for anchors
  function Skewed(mode: Mode, s: string, first: bool, prev: char): seq<Token>
    decreases |s|
  {
    if s == [] then (if mode == Top then [] else [Bad])
    else if s[0] == '\\' then
      if |s| == 1 then [Bad]
      else if mode == Top then [EscTok(s[1])] + Skewed(Top, s[2..], false, s[1])
      else [ItemTok(s[1])] + Skewed(Inside, s[2..], false, s[1])
    else if mode == Top then
      if s[0] == '[' then
        if |s| > 1 && s[1] == '^' then [Open(true)] + Skewed(First, s[2..], false, '^')
        else [Open(false)] + Skewed(First, s[1..], false, '[')
      else if s[0] == '^' && (first || prev == '[') then [Begin] + Skewed(Top, s[1..], false, '^')
      else if s == "$" then [End]
      else [TopTok(false, s[0])] + Skewed(Top, s[1..], false, s[0])
    else if s[0] == ']' then [if mode == Inside then Close else Bad] + Skewed(Top, s[1..], false, ']')
    else [if s[0] == '[' then Bad else Item(s[0])] + Skewed(Inside, s[1..], false, s[0])
  }

  function ClosingToks(ch: char, addParens: bool): seq<Token> {
    if Width(ch) == 1 then (if addParens then [Op(')')] else []) + (if ch != '$' then [End] else []) else []
  }

  function LastOr(s: string, prev: char): char { if s == [] then prev else s[|s| - 1] }

  lemma LexClosing(ch: char, addParens: bool)
    ensures Lex(true, Top, Closing(ch, addParens)) == ClosingToks(ch, addParens)
  {
    assert Lex(true, Top, "") == [];
    assert Lex(true, Top, "$") == [End] + Lex(true, Top, "$"[1..]);
    assert ")"[1..] == "" && ")$"[1..] == "$" && ")" + "" == ")" && "" + "$" == "$" && ")" + "$" == ")$";
    assert Lex(true, Top, ")") == [Op(')')] + Lex(true, Top, ")"[1..]);
    assert Lex(true, Top, ")$") == [Op(')')] + Lex(true, Top, ")$"[1..]);
  }

  // lexing one character, or an escaped pair, ahead of the rest
  lemma LexOne(go: bool, mode: Mode, c: char, t: string)
    requires c != '\\' && !(mode == Top && c == '[')
    ensures Lex(go, mode, [c] + t) ==
      if mode == Top then [TopTok(go, c)] + Lex(go, Top, t)
      else if c == ']' && (mode == Inside || !go) then [if mode == Inside then Close else Bad] + Lex(go, Top, t)
      else [if c == '[' && !go then Bad else Item(c)] + Lex(go, Inside, t)
  {
    var s := [c] + t;
    assert s[0] == c && s[1..] == t;
  }

  lemma LexPair(go: bool, mode: Mode, c: char, t: string)
    ensures Lex(go, mode, ['\\', c] + t) ==
      if mode == Top then [EscTok(c)] + Lex(go, Top, t) else [ItemTok(c)] + Lex(go, Inside, t)
  {
    var s := ['\\', c] + t;
    assert s[0] == '\\' && s[1] == c && s[2..] == t;
  }

  lemma LexOpen(go: bool, t: string)
    ensures Lex(go, Top, "[^" + t) == [Open(true)] + Lex(go, First, t)
    ensures (t == [] || t[0] != '^') ==> Lex(go, Top, "[" + t) == [Open(false)] + Lex(go, First, t)
  {
    var s := "[^" + t;
    assert s[0] == '[' && s[1] == '^' && s[2..] == t;
    var u := "[" + t;
    assert u[0] == '[' && u[1..] == t;
  }

  lemma BodyPair(c: char, t: string, first: bool, prev: char, par: bool)
    ensures Body(['\\', c] + t, first, false, prev, par) == ['\\', c] + Body(t, false, false, c, par)
  {
    var s := ['\\', c] + t;
    var u := [c] + t;
    assert s[1..] == u && u[1..] == t && s[0] == '\\' && u[0] == c;
    BodyStep(s, first, false, prev, par);
    BodyStep(u, false, true, '\\', par);
    var b := Body(t, false, false, c, par);
    assert Emit(u, false, true, '\\') == [c];
    assert Emit(s, first, false, prev) == ['\\'];
    assert ['\\'] + ([c] + b) == ['\\', c] + b;
  }

  lemma BodyOne(c: char, t: string, first: bool, prev: char, par: bool)
    requires c != '\\'
    ensures var b := Body(t, false, false, c, par);
      Body([c] + t, first, false, prev, par) ==
        if (c == '$' && t != []) || (c == '^' && prev != '[' && !first) then ['\\', c] + b else [c] + b
  {
    var s := [c] + t;
    assert s[1..] == t && s[0] == c;
    BodyStep(s, first, false, prev, par);
    assert "\\" + [c] == ['\\', c];
  }

  // one unescaped character other than a top-level '['
  lemma LexOneFixed(mode: Mode, c: char, t: string, first: bool, prev: char, par: bool)
    requires c != '\\' && !(mode == Top && c == '[') && NoBad(Lex(false, mode, [c] + t))
    requires mode == First && c == '^' ==> prev != '['
    ensures var b, m := Body(t, false, false, c, par), if mode == Top || c == ']' then Top else Inside;
      NoBad(Lex(false, m, t))
      && Lex(true, mode, Body([c] + t, first, false, prev, par)) ==
        [OneTok(mode, c, t == [], first, prev)] + Lex(true, m, b)
  {
    LexOne(false, mode, c, t);
    BodyOne(c, t, first, prev, par);
    var b := Body(t, false, false, c, par);
    var k := if mode == Top then TopTok(false, c) else if c == ']' then (if mode == Inside then Close else Bad)
      else if c == '[' then Bad else Item(c);
    assert k == Lex(false, mode, [c] + t)[0] && k != Bad;
    assert Lex(false, Inside, "") == [Bad];
    if (c == '$' && t != []) || (c == '^' && prev != '[' && !first) {
      LexPair(true, mode, c, b);
    } else {
      LexOne(true, mode, c, b);
    }
  }

  lemma OpenHasMore(s: string)
    requires s != [] && s[0] == '[' && NoBad(Lex(false, Top, s))
    ensures |s| > 1
  {
    LoneOpen();
    assert s[0] in s && (|s| == 1 ==> s == "[");
  }

  lemma LoneOpen()
    ensures !NoBad(Lex(false, Top, "["))
  {
    assert "["[1..] == "";
    assert Lex(false, Top, "[") == [Open(false)] + Lex(false, First, "["[1..]);
    assert Lex(false, First, "")[0] == Bad;
  }

  lemma TwoChars(c: char, d: char, t: string)
    ensures [c] + ([d] + t) == [c, d] + t
  {
  }

  lemma BodyNegated(s: string, first: bool, prev: char, par: bool)
    requires |s| > 1 && s[0] == '[' && s[1] == '^'
    ensures Body(s, first, false, prev, par) == "[^" + Body(s[2..], false, false, '^', par)
  {
    var t, u := s[1..], s[2..];
    assert s == ['['] + t;
    assert t == ['^'] + u;
    hide Body;
    var d, e := Body(u, false, false, '^', par), Body(t, false, false, '[', par);
    assert e == ['^'] + d by { BodyOne('^', u, false, '[', par); }
    assert Body(s, first, false, prev, par) == ['['] + e by { BodyOne('[', t, first, prev, par); }
    TwoChars('[', '^', d);
  }

  lemma LexNegated(s: string, first: bool, prev: char, par: bool)
    requires |s| > 1 && s[0] == '[' && s[1] == '^'
    ensures Lex(true, Top, Body(s, first, false, prev, par)) == [Open(true)]
      + Lex(true, First, Body(s[2..], false, false, '^', par))
    ensures Lex(false, Top, s) == [Open(true)] + Lex(false, First, s[2..])
  {
    hide Body, Lex;
    BodyNegated(s, first, prev, par);
    LexOpen(true, Body(s[2..], false, false, '^', par));
    assert s == "[^" + s[2..];
    LexOpen(false, s[2..]);
  }

  lemma LexPlain(s: string, first: bool, prev: char, par: bool)
    requires |s| > 1 && s[0] == '[' && s[1] != '^'
    ensures Lex(true, Top, Body(s, first, false, prev, par)) == [Open(false)]
      + Lex(true, First, Body(s[1..], false, false, '[', par))
    ensures Lex(false, Top, s) == [Open(false)] + Lex(false, First, s[1..])
  {
    var t := s[1..];
    assert s == ['['] + t;
    BodyOne('[', t, first, prev, par);
    BodyStep(t, false, false, '[', par);
    hide Body, Lex;
    LexOpen(true, Body(t, false, false, '[', par));
    assert s == "[" + t;
    LexOpen(false, t);
  }

  lemma LexOpenFixed(s: string, first: bool, prev: char, par: bool)
    requires s != [] && s[0] == '[' && NoBad(Lex(false, Top, s))
    ensures |s| > 1
    ensures s[1] == '^' ==> NoBad(Lex(false, First, s[2..]))
    ensures s[1] == '^' ==>
      Lex(true, Top, Body(s, first, false, prev, par)) == [Open(true)]
      + Lex(true, First, Body(s[2..], false, false, '^', par))
    ensures s[1] != '^' ==> NoBad(Lex(false, First, s[1..]))
    ensures s[1] != '^' ==>
      Lex(true, Top, Body(s, first, false, prev, par)) == [Open(false)]
      + Lex(true, First, Body(s[1..], false, false, '[', par))
  {
    OpenHasMore(s);
    hide Body, Lex;
    if s[1] == '^' { LexNegated(s, first, prev, par); } else { LexPlain(s, first, prev, par); }
  }

  ghost predicate Fixed(mode: Mode, s: string, first: bool, prev: char, par: bool) {
    Lex(true, mode, Body(s, first, false, prev, par)) == Skewed(mode, s, first, prev)
      + ClosingToks(LastOr(s, prev), par)
  }

  lemma Front(x: Token, a: seq<Token>, b: seq<Token>)
    ensures ([x] + a) + b == [x] + (a + b)
  {
  }

  lemma SkewedPair(mode: Mode, s: string, first: bool, prev: char, par: bool)
    requires |s| > 1 && s[0] == '\\'
    ensures Skewed(mode, s, first, prev) ==
      if mode == Top then [EscTok(s[1])] + Skewed(Top, s[2..], false, s[1])
        else [ItemTok(s[1])] + Skewed(Inside, s[2..], false, s[1])
    ensures LastOr(s, prev) == LastOr(s[2..], s[1])
  {
  }

  lemma FixedPair(mode: Mode, s: string, first: bool, prev: char, par: bool)
    requires |s| > 1 && s[0] == '\\' && Fixed(if mode == Top then Top else Inside, s[2..], false, s[1], par)
    ensures Fixed(mode, s, first, prev, par)
  {
    var d, u := s[1], s[2..];
    assert s == ['\\', d] + u;
    BodyPair(d, u, first, prev, par);
    SkewedPair(mode, s, first, prev, par);
    hide Body, Lex, Skewed, ClosingToks, LastOr, EscTok, ItemTok;
    LexPair(true, mode, d, Body(u, false, false, d, par));
    Front(if mode == Top then EscTok(d) else ItemTok(d),
      Skewed(if mode == Top then Top else Inside, u, false, d), ClosingToks(LastOr(u, d), par));
  }

  lemma FixedOpen(s: string, first: bool, prev: char, par: bool)
    requires |s| > 1 && s[0] == '[' && NoBad(Lex(false, Top, s))
    requires if s[1] == '^' then Fixed(First, s[2..], false, '^', par) else Fixed(First, s[1..], false, '[', par)
    ensures Fixed(Top, s, first, prev, par)
  {
    LexOpenFixed(s, first, prev, par);
    hide Body;
  }

  function OneTok(mode: Mode, c: char, last: bool, first: bool, prev: char): Token {
    if mode == Top then (if c == '^' && (first || prev == '[') then Begin else if c == '$' && last then End
      else TopTok(false, c))
    else if c == ']' then Close else Item(c)
  }

  lemma SkewedOne(mode: Mode, s: string, first: bool, prev: char)
    requires s != [] && s[0] != '\\' && !(mode == Top && s[0] == '[') && NoBad(Lex(false, mode, s))
    ensures Skewed(mode, s, first, prev) == [OneTok(mode, s[0], |s| == 1, first, prev)]
      + Skewed(if mode == Top || s[0] == ']' then Top else Inside, s[1..], false, s[0])
    ensures LastOr(s, prev) == LastOr(s[1..], s[0])
  {
    assert Lex(false, mode, s)[0] != Bad;
    if s == "$" { assert s[1..] == []; }
  }

  lemma FixedOne(mode: Mode, s: string, first: bool, prev: char, par: bool)
    requires s != [] && s[0] != '\\' && !(mode == Top && s[0] == '[') && NoBad(Lex(false, mode, s))
    requires mode == First && s[0] == '^' ==> prev != '['
    requires Fixed(if mode == Top || s[0] == ']' then Top else Inside, s[1..], false, s[0], par)
    ensures Fixed(mode, s, first, prev, par)
  {
    var c, t := s[0], s[1..];
    assert s == [c] + t;
    SkewedOne(mode, s, first, prev);
    LexOneFixed(mode, c, t, first, prev, par);
    hide Body, Lex, Skewed, ClosingToks, LastOr;
    Front(OneTok(mode, c, |s| == 1, first, prev),
      Skewed(if mode == Top || c == ']' then Top else Inside, t, false, c), ClosingToks(LastOr(t, c), par));
  }

  lemma {:induction false} LexBody(mode: Mode, s: string, first: bool, prev: char, par: bool)
    requires NoBad(Lex(false, mode, s))
    requires mode == First && prev == '[' && s != [] ==> s[0] != '^'
    ensures Fixed(mode, s, first, prev, par)
    decreases |s|
  {
    if s == [] {
      LexClosing(prev, par);
    } else if s[0] == '\\' {
      assert |s| > 1;
      assert s == ['\\', s[1]] + s[2..];
      LexPair(false, mode, s[1], s[2..]);
      LexBody(if mode == Top then Top else Inside, s[2..], false, s[1], par);
      hide Fixed;
      FixedPair(mode, s, first, prev, par);
    } else if mode == Top && s[0] == '[' {
      LexOpenFixed(s, first, prev, par);
      if s[1] == '^' { LexBody(First, s[2..], false, '^', par); } else { LexBody(First, s[1..], false, '[', par); }
      hide Fixed;
      FixedOpen(s, first, prev, par);
    } else {
      assert s == [s[0]] + s[1..];
      LexOneFixed(mode, s[0], s[1..], first, prev, par);
      LexBody(if mode == Top || s[0] == ']' then Top else Inside, s[1..], false, s[0], par);
      hide Fixed;
      FixedOne(mode, s, first, prev, par);
    }
  }

  function Last(s: string): char
    requires s != []
  {
    s[|s| - 1]
  }

  lemma LexAnchored(b: string)
    ensures Lex(true, Top, "^(" + b) == [Begin, Op('(')] + Lex(true, Top, b)
  {
    hide Lex;
    LexOne(true, Top, '(', b);
    LexOne(true, Top, '^', ['('] + b);
    assert "^(" + b == ['^'] + (['('] + b);
    assert [Begin] + ([Op('(')] + Lex(true, Top, b)) == [Begin, Op('(')] + Lex(true, Top, b);
  }

  // What Go reads for the output: exact for every pattern that is made of YANG tokens
  lemma TokensOfFix(p: string)
    requires p != "" && NoBad(Lex(false, Top, p))
    ensures Lex(true, Top, Fix(p)) ==
      (if p[0] != '^' then [Begin, Op('(')] else []) + (Skewed(Top, p, true, '\0') + ClosingToks(Last(p), p[0] != '^'))
  {
    hide Lex, Body, Skewed, ClosingToks;
    LexBody(Top, p, true, '\0', p[0] != '^');
    LexAnchored(Body(p, true, false, '\0', p[0] != '^'));
    assert "" + Body(p, true, false, '\0', p[0] != '^') == Body(p, true, false, '\0', p[0] != '^');
    assert [] + Lex(true, Top, Fix(p)) == Lex(true, Top, Fix(p));
  }

  // No top-level ^ stands first or right after an escaped '[', and no unescaped $ stands last
  predicate NoStray(mode: Mode, s: string, first: bool, prev: char)
    decreases |s|
  {
    if s == [] then true
    else if s[0] == '\\' then |s| == 1 || NoStray(if mode == Top then Top else Inside, s[2..], false, s[1])
    else if mode == Top && s[0] == '[' then
      if |s| > 1 && s[1] == '^' then NoStray(First, s[2..], false, '^') else NoStray(First, s[1..], false, '[')
    else
      !(mode == Top && s[0] == '^' && (first || prev == '[')) && !(mode == Top && s == "$")
      && NoStray(if mode == Top || s[0] == ']' then Top else Inside, s[1..], false, s[0])
  }

  lemma {:induction false} SkewedSame(mode: Mode, s: string, first: bool, prev: char)
    requires NoBad(Lex(false, mode, s))
    ensures Skewed(mode, s, first, prev) == Lex(false, mode, s) <==> NoStray(mode, s, first, prev)
    ensures |Skewed(mode, s, first, prev)| == |Lex(false, mode, s)|
    decreases |s|
  {
    if s == [] {
    } else if s[0] == '\\' {
      assert Lex(false, mode, s)[1..] == Lex(false, if mode == Top then Top else Inside, s[2..]);
      assert Skewed(mode, s, first, prev)[1..] == Skewed(if mode == Top then Top else Inside, s[2..], false, s[1]);
      SkewedSame(if mode == Top then Top else Inside, s[2..], false, s[1]);
    } else if mode == Top && s[0] == '[' {
      OpenHasMore(s);
      if s[1] == '^' {
        SkewedSame(First, s[2..], false, '^');
        assert Lex(false, Top, s)[1..] == Lex(false, First, s[2..]);
        assert Skewed(Top, s, first, prev)[1..] == Skewed(First, s[2..], false, '^');
      } else {
        SkewedSame(First, s[1..], false, '[');
        assert Lex(false, Top, s)[1..] == Lex(false, First, s[1..]);
        assert Skewed(Top, s, first, prev)[1..] == Skewed(First, s[1..], false, '[');
      }
    } else {
      var m := if mode == Top || s[0] == ']' then Top else Inside;
      assert s == [s[0]] + s[1..];
      LexOne(false, mode, s[0], s[1..]);
      assert Lex(false, mode, s)[0] != Bad;
      SkewedOne(mode, s, first, prev);
      SkewedSame(m, s[1..], false, s[0]);
      assert Lex(false, mode, s)[1..] == Lex(false, m, s[1..]);
      assert Skewed(mode, s, first, prev)[1..] == Skewed(m, s[1..], false, s[0]);
      if s == "$" { assert s[1..] == []; }
    }
  }

  // Conditions a caller can check before the call
  predicate Good(p: string) {
    p != "" && p[0] != '^' && Width(Last(p)) == 1 && Last(p) != '$' && NoStray(Top, p, true, '\0')
  }

  // The output is the anchored pattern, token by token, exactly for good patterns
  lemma FixIsAnchoring(p: string)
    requires NoBad(Lex(false, Top, p))
    ensures Lex(true, Top, Fix(p)) == [Begin, Op('(')] + (Lex(false, Top, p) + [Op(')'), End]) <==> Good(p)
  {
    if p != "" {
      TokensOfFix(p);
      SkewedSame(Top, p, true, '\0');
      hide Fix, Skewed, Lex, NoStray;
      var a, b := Skewed(Top, p, true, '\0'), Lex(false, Top, p);
      if Lex(true, Top, Fix(p)) == [Begin, Op('(')] + (b + [Op(')'), End]) {
        var c := ClosingToks(Last(p), p[0] != '^');
        assert |c| == 2 && p[0] != '^';
        assert ([Begin, Op('(')] + (a + c))[2..] == a + c
          && ([Begin, Op('(')] + (b + [Op(')'), End]))[2..] == b + [Op(')'), End];
        assert (a + c)[..|a|] == a && (b + [Op(')'), End])[..|b|] == b;
      }
    }
  }
}
