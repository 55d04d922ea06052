// fixYangRegexp: from a YANG pattern to a pattern of Go's regexp package.
module FixYangRegexp {
  import opened Wrappers
  import opened PatternSyntax

  // Bytes of a rune in UTF-8
  function Width(c: char): (w: nat)
    ensures 1 <= w <= 4
  {
    if c as int < 0x80 then 1 else if c as int < 0x800 then 2 else if c as int < 0x10000 then 3 else 4
  }

  function Len(s: string): (n: nat)
    ensures |s| <= n
  {
    if s == [] then 0 else Width(s[0]) + Len(s[1..])
  }

  // What the last character adds, once it is written; a rune of several bytes never starts at the last byte
  function Closing(ch: char, addParens: bool): string {
    if Width(ch) == 1 then (if addParens then ")" else "") + (if ch != '$' then "$" else "") else ""
  }

  // The output for the rest s of the pattern, the characters before it ending in prev
  function Body(s: string, first: bool, inEscape: bool, prev: char, addParens: bool): string {
    if s == [] then Closing(prev, addParens)
    else
      (if (s[0] == '$' && !inEscape && |s| > 1) || (s[0] == '^' && !inEscape && prev != '[' && !first) then "\\"
        else "")
      + [s[0]] + Body(s[1..], false, !inEscape && s[0] == '\\', s[0], addParens)
  }

  function Fix(pattern: string): string {
    if pattern == [] then []
    else (if pattern[0] != '^' then "^(" else "") + Body(pattern, true, false, '\0', pattern[0] != '^')
  }

  lemma {:induction false} LenConcat(a: string, b: string)
    ensures Len(a + b) == Len(a) + Len(b)
  {
    if a == [] { assert a + b == b; } else {
      assert (a + b)[1..] == a[1..] + b;
      LenConcat(a[1..], b);
    }
  }

  // What one turn of the loop writes
  function Emit(s: string, first: bool, inEscape: bool, prev: char): string
    requires s != []
  {
    (if (s[0] == '$' && !inEscape && |s| > 1) || (s[0] == '^' && !inEscape && prev != '[' && !first) then "\\" else "")
      + [s[0]]
  }

  lemma Offsets(pattern: string, k: nat)
    requires k < |pattern|
    ensures Len(pattern[..k + 1]) == Len(pattern[..k]) + Width(pattern[k])
    ensures Len(pattern[..k]) == Len(pattern) - 1 <==> k == |pattern| - 1 && Width(pattern[k]) == 1
    ensures Len(pattern[..k]) == 0 <==> k == 0
  {
    assert pattern[..k + 1] == pattern[..k] + [pattern[k]];
    LenConcat(pattern[..k], [pattern[k]]);
    assert pattern == pattern[..k + 1] + pattern[k + 1..];
    LenConcat(pattern[..k + 1], pattern[k + 1..]);
  }

  lemma BodyStep(s: string, first: bool, inEscape: bool, prev: char, addParens: bool)
    requires s != []
    ensures Body(s, first, inEscape, prev, addParens)
      == Emit(s, first, inEscape, prev) + Body(s[1..], false, !inEscape && s[0] == '\\', s[0], addParens)
    ensures |s| == 1 ==> Body(s[1..], false, !inEscape && s[0] == '\\', s[0], addParens) == Closing(s[0], addParens)
  {
  }

  // The part of the loop body that writes the rune ch at byte offset i of n
  method WriteRune(buf: string, ch: char, i: nat, n: nat, inEscape: bool, prevChar: char, addParens: bool,
    ghost s: string)
    returns (out: string)
    requires s != [] && s[0] == ch && (i == n - 1 <==> |s| == 1 && Width(ch) == 1)
    ensures out == buf + (Emit(s, i == 0, inEscape, prevChar) + if |s| == 1 then Closing(ch, addParens) else "")
  {
    out := buf;
    match ch {
      case '$' =>
        if !inEscape && i != n - 1 { out := out + "\\"; }
      case '^' =>
        if !inEscape && prevChar != '[' && i != 0 { out := out + "\\"; }
      case _ =>
    }
    out := out + [ch];
    ghost var written := Emit(s, i == 0, inEscape, prevChar);
    assert out == buf + written;
    hide Emit;
    if i == n - 1 {
      assert buf + written + Closing(ch, addParens) == buf + (written + Closing(ch, addParens));
      if addParens { out := out + ")"; }
      if ch != '$' { out := out + "$"; }
    }
  }

  // buf is written and rest is still to come
  ghost predicate Halfway(out: string, buf: string, rest: string) {
    |buf| <= |out| && out[..|buf|] == buf && out[|buf|..] == rest
  }

  lemma Advance(out: string, buf: string, emit: string, rest: string)
    requires Halfway(out, buf, emit + rest)
    ensures Halfway(out, buf + emit, rest)
  {
    assert out == buf + (emit + rest);
  }

  lemma FixStart(pattern: string)
    requires pattern != []
    ensures Halfway(Fix(pattern), if pattern[0] != '^' then "^(" else "",
      Body(pattern, true, false, '\0', pattern[0] != '^'))
  {
  }

  lemma Finished(out: string, buf: string)
    requires Halfway(out, buf, "")
    ensures buf == out
  {
  }

  method Convert(pattern: string) returns (buf: string)
    ensures buf == Fix(pattern)
  {
    buf := "";
    if pattern == "" { return; }
    var inEscape, prevChar, addParens := false, '\0', false;
    var n := Len(pattern);
    var i, k := 0, 0;   // byte offset and index of the current rune
    while k < |pattern|
      invariant k <= |pattern| && i == Len(pattern[..k])
      invariant k == 0 ==> buf == "" && !inEscape && prevChar == '\0' && !addParens
      invariant k > 0 ==> addParens == (pattern[0] != '^')
      invariant 0 < k < |pattern| ==>
        Halfway(Fix(pattern), buf, Body(pattern[k..], false, inEscape, prevChar, addParens))
      invariant k == |pattern| ==> Halfway(Fix(pattern), buf, "")
    {
      hide Body, Fix, Emit, Closing, Len, Halfway;
      var ch := pattern[k];
      Offsets(pattern, k);
      ghost var p := pattern[k..];
      if i == 0 && ch != '^' {
        buf := "^(";
        addParens := true;
      }
      if k == 0 { FixStart(pattern); assert p == pattern; }
      BodyStep(p, k == 0, inEscape, prevChar, addParens);
      assert p[1..] == pattern[k + 1..];
      ghost var emit, rest := Emit(p, k == 0, inEscape, prevChar),
        Body(p[1..], false, !inEscape && ch == '\\', ch, addParens);
      if |p| == 1 {
        assert (emit + rest) + "" == emit + rest;
        Advance(Fix(pattern), buf, emit + rest, "");
      } else {
        assert emit + "" == emit;
        Advance(Fix(pattern), buf, emit, rest);
      }
      buf := WriteRune(buf, ch, i, n, inEscape, prevChar, addParens, p);
      inEscape := !inEscape && ch == '\\';
      prevChar := ch;
      i, k := i + Width(ch), k + 1;
    }
    Finished(Fix(pattern), buf);
  }
}
