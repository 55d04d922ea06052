// The text that fixYangRegexp writes, for patterns whose special characters are given.
module PatternText {
  import opened Wrappers
  import opened Text
  import opened PatternSyntax
  import opened FixYangRegexp
  import opened PatternTokens

  // No character that the rewrite looks at
  predicate NoMark(s: string) { forall c :: c in s ==> c != '\\' && c != '^' && c != '$' }

  predicate EndsInAscii(s: string) { s != "" && s[|s| - 1] as int < 0x80 }

  lemma {:induction false} Run(a: string, rest: string, first: bool, prev: char, par: bool)
    requires NoMark(a)
    ensures Body(a + rest, first, false, prev, par)
      == a + Body(rest, first && a == "", false, if a == "" then prev else a[|a| - 1], par)
  {
    hide Body;
    if a == "" {
      assert a + rest == rest;
    } else {
      var b := a[1..];
      assert a == [a[0]] + b && a[0] in a && forall c :: c in b ==> c in a;
      assert a + rest == [a[0]] + (b + rest);
      BodyOne(a[0], b + rest, first, prev, par);
      Run(b, rest, false, a[0], par);
      assert b != "" ==> b[|b| - 1] == a[|a| - 1];
      var c := Body(rest, false, false, a[|a| - 1], par);
      assert [a[0]] + (b + c) == a + c;
    }
  }

  lemma Tail(b: string, prev: char, par: bool)
    requires NoMark(b) && EndsInAscii(b)
    ensures Body(b, false, false, prev, par) == b + if par then ")$" else "$"
  {
    Run(b, "", false, prev, par);
    assert b + "" == b;
    assert b[|b| - 1] in b;
    assert ")" + "$" == ")$" && "" + "$" == "$";
  }

  // a has no special character and stands in front of rest
  lemma Head(a: string, rest: string)
    requires NoMark(a) && a + rest != "" && (a == "" ==> rest[0] != '^')
    ensures Fix(a + rest) == "^(" + a + Body(rest, a == "", false, if a == "" then '\0' else a[|a| - 1], true)
  {
    hide Body;
    Run(a, rest, true, '\0', true);
    if a != "" { assert a[0] in a && (a + rest)[0] == a[0]; } else { assert a + rest == rest; }
    var b := Body(rest, a == "", false, if a == "" then '\0' else a[|a| - 1], true);
    assert "^(" + (a + b) == "^(" + a + b;
  }

  // Without special characters, the pattern stands between the anchors
  lemma PlainText(a: string)
    requires NoMark(a) && EndsInAscii(a)
    ensures Fix(a) == "^(" + a + ")$"
  {
    Head(a, "");
    assert a + "" == a && a[0] in a && a[|a| - 1] in a;
    assert ")" + "$" == ")$";
    assert "^(" + a + ")$" == "^(" + (a + ")$");
  }

  // A $ inside the pattern is escaped
  lemma DollarText(a: string, b: string)
    requires NoMark(a) && NoMark(b) && EndsInAscii(b)
    ensures Fix(a + "$" + b) == "^(" + a + "\\$" + b + ")$"
  {
    hide Body, Fix, Contains;
    assert a + "$" + b == a + ("$" + b);
    Head(a, "$" + b);
    var prev := if a == "" then '\0' else a[|a| - 1];
    BodyOne('$', b, a == "", prev, true);
    Tail(b, '$', true);
    assert "^(" + a + ("\\$" + (b + ")$")) == "^(" + a + "\\$" + b + ")$";
  }

  // A ^ behind other characters is escaped, but for the one that negates a class
  lemma CaretText(a: string, b: string)
    requires NoMark(a) && a != "" && NoMark(b) && EndsInAscii(b)
    ensures Fix(a + "^" + b) == "^(" + a + (if a[|a| - 1] == '[' then "^" else "\\^") + b + ")$"
  {
    hide Body, Fix;
    assert a + "^" + b == a + ("^" + b) && "^" + b == ['^'] + b;
    Head(a, "^" + b);
    BodyOne('^', b, false, a[|a| - 1], true);
    Tail(b, '^', true);
    var mark := if a[|a| - 1] == '[' then "^" else "\\^";
    assert mark + (b + ")$") == mark + b + ")$";
    assert "^(" + a + (mark + (b + ")$")) == "^(" + a + mark + b + ")$";
  }

  // An escaped character stays as it is
  lemma EscapedText(a: string, c: char, b: string)
    requires NoMark(a) && NoMark(b) && EndsInAscii(b)
    ensures Fix(a + ['\\', c] + b) == "^(" + a + ['\\', c] + b + ")$"
  {
    hide Body, Fix, Contains;
    assert a + ['\\', c] + b == a + (['\\', c] + b);
    Head(a, ['\\', c] + b);
    BodyPair(c, b, a == "", if a == "" then '\0' else a[|a| - 1], true);
    Tail(b, c, true);
    assert "^(" + a + (['\\', c] + (b + ")$")) == "^(" + a + ['\\', c] + b + ")$";
  }

  // A pattern that brings an anchor along gets no parentheses, and not that anchor twice
  lemma AnchorText(a: string)
    requires NoMark(a) && EndsInAscii(a)
    ensures Fix("^" + a) == "^" + a + "$" && Fix(a + "$") == "^(" + a + "$)" && Fix("^" + a + "$") == "^" + a + "$"
  {
    hide Body, Fix;
    BodyOne('^', a, true, '\0', false);
    Tail(a, '^', false);
    Anchored("^" + a);
    Run(a, "$", false, '^', false);
    LastDollar(a[|a| - 1]);
    BodyOne('^', a + "$", true, '\0', false);
    Anchored("^" + (a + "$"));
    Head(a, "$");
    assert "^" + (a + "$") == "^" + a + "$";
  }

  lemma Anchored(p: string)
    requires p != "" && p[0] == '^'
    ensures Fix(p) == Body(p, true, false, '\0', false)
  {
  }

  lemma LastDollar(prev: char)
    ensures Body("$", false, false, prev, false) == "$" && Body("$", false, false, prev, true) == "$)"
  {
    BodyOne('$', "", false, prev, false);
    BodyOne('$', "", false, prev, true);
    assert ['$'] + "" == "$" && ['$'] + ")" == "$)";
  }

  // Which patterns are good, but for a ^ behind an escaped bracket
  lemma GoodIff(p: string)
    requires !Contains(p, "\\[^")
    ensures Good(p) <==> EndsInAscii(p) && p[0] != '^' && p[|p| - 1] != '$'
  {
    if p != "" && p[0] != '^' && p[|p| - 1] != '$' { NoneStray(Top, p, true, '\0'); }
  }

  lemma {:induction false} NoneStray(mode: Mode, s: string, first: bool, prev: char)
    requires !Contains(s, "\\[^") && (s != "" ==> s[|s| - 1] != '$')
    requires mode == Top && s != "" && s[0] == '^' ==> !first && prev != '['
    requires mode != Top ==> !first
    ensures NoStray(mode, s, first, prev)
    decreases |s|
  {
    if s != "" {
      NotBehind(s);
      if s[0] == '\\' {
        if |s| > 1 {
          NoneStray(if mode == Top then Top else Inside, s[2..], false, s[1]);
        }
      } else if mode == Top && s[0] == '[' {
        if |s| > 1 && s[1] == '^' {
          NoneStray(First, s[2..], false, '^');
        } else {
          NoneStray(First, s[1..], false, '[');
        }
      } else {
        NoneStray(if mode == Top || s[0] == ']' then Top else Inside, s[1..], false, s[0]);
      }
    }
  }

  lemma Starts(s: string)
    requires |s| > 2 && s[0] == '\\' && s[1] == '[' && s[2] == '^'
    ensures Contains(s, "\\[^")
  {
    assert s[..3] == "\\[^";
  }

  lemma NotBehind(s: string)
    requires !Contains(s, "\\[^") && s != ""
    ensures !Contains(s[1..], "\\[^") && (|s| > 1 ==> !Contains(s[2..], "\\[^"))
    ensures |s| > 2 && s[0] == '\\' && s[1] == '[' ==> s[2] != '^'
  {
    if |s| > 2 && s[0] == '\\' && s[1] == '[' && s[2] == '^' { Starts(s); }
    if |s| > 1 { assert s[1..][1..] == s[2..]; }
  }
}
