// NewPathInfo of path_utils.go: paths with [name=value] predicates. Characters stand for bytes.
module PathInfo {
  import opened Numbers

  // ---- reading up to a delimiter ----

  // The unescaped text up to the delimiter or the end, and what follows
  function Until(s: string, delim: char): (r: (string, string))
    ensures |r.1| <= |s|
  {
    if s == [] then ("", "")
    else if s[0] == delim then ("", s[1..])
    else if s[0] == '\\' then
      if |s| == 1 then ("", "") else ([s[1]] + Until(s[2..], delim).0, Until(s[2..], delim).1)
    else ([s[0]] + Until(s[1..], delim).0, Until(s[1..], delim).1)
  }

  // A backslash before each delimiter and backslash
  function Escaped(s: string, delim: char): string {
    if s == [] then "" else (if s[0] == delim || s[0] == '\\' then ['\\', s[0]] else [s[0]]) + Escaped(s[1..], delim)
  }

  lemma {:induction false} UntilEscaped(s: string, delim: char, rest: string)
    requires delim != '\\'
    ensures Until(Escaped(s, delim) + [delim] + rest, delim) == (s, rest)
  {
    var t := Escaped(s, delim) + [delim] + rest;
    if s == [] {
      assert t[1..] == rest;
    } else {
      UntilEscaped(s[1..], delim, rest);
      var u := Escaped(s[1..], delim) + [delim] + rest;
      assert s == [s[0]] + s[1..];
      if s[0] == delim || s[0] == '\\' {
        assert t == ['\\', s[0]] + u;
        assert t[2..] == u;
      } else {
        assert t == [s[0]] + u;
        assert t[1..] == u;
      }
    }
  }

  class Reader {
    const text: string
    var pos: nat

    constructor (text: string)
      ensures this.text == text && pos == 0
    {
      this.text, pos := text, 0;
    }

    predicate Valid()
      reads this
    {
      pos <= |text|
    }

    function Left(): string
      reads this
      requires Valid()
    {
      text[pos..]
    }

    method ReadByte() returns (c: char)
      requires Valid() && pos < |text|
      modifies this
      ensures Valid() && old(Left()) == [c] + Left()
    {
      c := text[pos];
      pos := pos + 1;
    }

    method ReadUntil(delim: char) returns (buff: string)
      requires Valid()
      modifies this
      ensures Valid() && (buff, Left()) == Until(old(Left()), delim)
    {
      buff := "";
      var escaped := false;
      ghost var all := Left();
      RestEnds(buff, escaped, all, delim);
      while pos < |text|
        invariant Valid() && Rest(buff, escaped, Left(), delim) == Until(all, delim)
        decreases |text| - pos
      {
        ghost var left := Left();
        var c := ReadByte();
        assert left[1..] == Left();
        RestStep(buff, escaped, left, delim);
        if c == delim && !escaped {
          break;
        } else if c == '\\' && !escaped {
          escaped := true;
        } else {
          escaped := false;
          buff := buff + [c];
        }
      }
      RestEnds(buff, escaped, all, delim);
    }
  }

  // What the loop returns from its middle
  function Rest(buff: string, escaped: bool, left: string, delim: char): (string, string) {
    if escaped then
      if left == [] then (buff, "") else (buff + [left[0]] + Until(left[1..], delim).0, Until(left[1..], delim).1)
    else (buff + Until(left, delim).0, Until(left, delim).1)
  }

  lemma RestStep(buff: string, escaped: bool, left: string, delim: char)
    requires left != []
    ensures Rest(buff, escaped, left, delim) ==
      if left[0] == delim && !escaped then (buff, left[1..])
      else if left[0] == '\\' && !escaped then Rest(buff, true, left[1..], delim)
      else Rest(buff + [left[0]], false, left[1..], delim)
  {
    if |left| > 1 { assert left[1..][1..] == left[2..]; }
    forall x: string ensures (buff + [left[0]]) + x == buff + ([left[0]] + x) {}
    if |left| > 1 { forall x: string ensures (buff + [left[1]]) + x == buff + ([left[1]] + x) {} }
    assert buff + "" == buff;
  }

  lemma RestEnds(buff: string, escaped: bool, left: string, delim: char)
    ensures Rest("", false, left, delim) == Until(left, delim) && Rest(buff, escaped, "", delim) == (buff, "")
  {
    assert "" + Until(left, delim).0 == Until(left, delim).0 && buff + "" == buff;
  }

  // ---- the grammar ----

  datatype Piece = Lit(c: char) | Pred(name: string, value: string)

  function Parse(s: string): seq<Piece>
    decreases |s|
  {
    if s == [] then []
    else if s[0] != '[' then [Lit(s[0])] + Parse(s[1..])
    else
      var n := Until(s[1..], '=');
      var v := Until(n.1, ']');
      [Pred(n.0, v.0)] + Parse(v.1)
  }

  function Written(p: Piece): string {
    match p
    case Lit(c) => [c]
    case Pred(name, value) => "[" + Escaped(name, '=') + "=" + Escaped(value, ']') + "]"
  }

  function WrittenAll(ps: seq<Piece>): string { if ps == [] then "" else Written(ps[0]) + WrittenAll(ps[1..]) }

  lemma ParsePred(name: string, value: string, rest: string)
    ensures Parse(Written(Pred(name, value)) + rest) == [Pred(name, value)] + Parse(rest)
  {
    var s := Written(Pred(name, value)) + rest;
    var n, v := Escaped(name, '='), Escaped(value, ']');
    var tail := v + "]" + rest;
    assert s[1..] == n + "=" + tail;
    UntilEscaped(name, '=', tail);
    UntilEscaped(value, ']', rest);
    hide Until, Escaped;
  }

  // Literals other than an opening bracket, and predicates with any text, are read back as they were written
  lemma {:induction false} RoundTrip(ps: seq<Piece>)
    requires Lit('[') !in ps
    ensures Parse(WrittenAll(ps)) == ps
  {
    if ps != [] {
      RoundTrip(ps[1..]);
      var rest := WrittenAll(ps[1..]);
      match ps[0] {
        case Lit(c) => assert ([c] + rest)[1..] == rest;
        case Pred(name, value) =>
          hide Written, Until;
          ParsePred(name, value, rest);
      }
      assert ps == [ps[0]] + ps[1..];
    }
  }

  // ---- numbered names ----

  function Numbered(name: string, k: nat): string { name + "#" + Decimal(k) }

  lemma NumberedInjective(name: string, a: nat, b: nat)
    requires Numbered(name, a) == Numbered(name, b)
    ensures a == b
  {
    assert Numbered(name, a)[|name| + 1..] == Decimal(a) && Numbered(name, b)[|name| + 1..] == Decimal(b);
    DecimalInjective(a, b);
  }

  type Vars = map<string, string>

  // A finite map does not hold all numbered names
  lemma {:induction false} NumberedFit(vars: set<string>, name: string, k: nat)
    requires k >= 2 && forall j :: 2 <= j < k ==> Numbered(name, j) in vars
    ensures k - 2 <= |vars|
    decreases k
  {
    if k > 2 {
      var x := Numbered(name, k - 1);
      forall j | 2 <= j < k - 1 ensures Numbered(name, j) in vars - {x} {
        if Numbered(name, j) == x { NumberedInjective(name, j, k - 1); }
      }
      NumberedFit(vars - {x}, name, k - 1);
    }
  }

  // The first free number from k on
  function FreeFrom(vars: Vars, name: string, k: nat): (r: nat)
    requires k >= 2 && forall j :: 2 <= j < k ==> Numbered(name, j) in vars
    ensures r >= k && Numbered(name, r) !in vars && forall j :: 2 <= j < r ==> Numbered(name, j) in vars
    decreases |vars| + 2 - k
  {
    if Numbered(name, k) !in vars then k
    else
      NumberedFit(vars.Keys, name, k + 1);
      FreeFrom(vars, name, k + 1)
  }

  // The name under which a predicate is stored
  function FreeName(vars: Vars, name: string): (r: string)
    ensures r !in vars
  {
    if name !in vars then name else Numbered(name, FreeFrom(vars, name, 2))
  }

  lemma FreeFromIs(vars: Vars, name: string, r: nat)
    requires r >= 2 && Numbered(name, r) !in vars && forall j :: 2 <= j < r ==> Numbered(name, j) in vars
    ensures FreeFrom(vars, name, 2) == r
  {
    hide Numbered;
    var f := FreeFrom(vars, name, 2);
  }

  // The search for a free name
  method FindName(vars: Vars, namePrefix: string) returns (name: string)
    ensures name == FreeName(vars, namePrefix)
  {
    name := namePrefix;
    if name in vars {
      var k := 2;
      NumberedFit(vars.Keys, namePrefix, k);
      while name in vars
        invariant k >= 2 && name == if k == 2 then namePrefix else Numbered(namePrefix, k - 1)
        invariant forall j :: 2 <= j < k - 1 ==> Numbered(namePrefix, j) in vars
        decreases |vars| + 3 - k
      {
        if k > 2 { NumberedFit(vars.Keys, namePrefix, k); }
        name := Numbered(namePrefix, k);
        k := k + 1;
      }
      FreeFromIs(vars, namePrefix, k - 1);
    }
  }

  // ---- template and variables ----

  datatype Info = Info(template: string, vars: Vars)

  function Add(i: Info, p: Piece): Info {
    match p
    case Lit(c) => i.(template := i.template + [c])
    case Pred(name, value) =>
      var n := FreeName(i.vars, name);
      if n == "" then i else Info(i.template + "{}", i.vars[n := value])
  }

  function InfoOf(ps: seq<Piece>): Info {
    if ps == [] then Info("", map[]) else Add(InfoOf(ps[..|ps| - 1]), ps[|ps| - 1])
  }

  lemma OneMore(ps: seq<Piece>, p: Piece)
    ensures InfoOf(ps + [p]) == Add(InfoOf(ps), p)
  {
    assert (ps + [p])[..|ps|] == ps;
  }

  lemma ParseStep(read: seq<Piece>, left: string, rest: string, p: Piece)
    requires left != []
    requires if left[0] != '[' then p == Lit(left[0]) && rest == left[1..]
      else
        var n := Until(left[1..], '=');
        p == Pred(n.0, Until(n.1, ']').0) && rest == Until(n.1, ']').1
    ensures read + Parse(left) == read + [p] + Parse(rest)
  {
    assert Parse(left) == [p] + Parse(rest);
  }

  method NewPathInfo(path: string) returns (info: Info)
    ensures info == InfoOf(Parse(path))
  {
    info := Info("", map[]);
    var r := new Reader(path);
    ghost var read: seq<Piece> := [];
    assert [] + Parse(path) == Parse(path);
    while r.pos < |r.text|
      invariant r.Valid() && info == InfoOf(read) && read + Parse(r.Left()) == Parse(path)
      decreases |r.text| - r.pos
    {
      hide InfoOf, Until, Parse, FreeName;
      ghost var left := r.Left();
      var c := r.ReadByte();
      assert left[1..] == r.Left();
      ghost var p := Lit(c);
      if c != '[' {
        info := info.(template := info.template + [c]);
      } else {
        var name := r.ReadUntil('=');
        var value := r.ReadUntil(']');
        p := Pred(name, value);
        var free := FindName(info.vars, name);
        if |free| != 0 { info := Info(info.template + "{}", info.vars[free := value]); }
      }
      OneMore(read, p);
      ParseStep(read, left, r.Left(), p);
      read := read + [p];
    }
    assert read + [] == read;
  }

  predicate Named(p: Piece) { p.Pred? && p.name != "" }

  function TemplateOf(ps: seq<Piece>): string {
    if ps == [] then ""
    else
      var p := ps[|ps| - 1];
      TemplateOf(ps[..|ps| - 1]) + if p.Lit? then [p.c] else if Named(p) then "{}" else ""
  }

  function NamedCount(ps: seq<Piece>): nat {
    if ps == [] then 0 else NamedCount(ps[..|ps| - 1]) + if Named(ps[|ps| - 1]) then 1 else 0
  }

  // The template is the text with {} for each named predicate, and each of them has a variable of its own
  lemma {:induction false} TemplateMeaning(ps: seq<Piece>)
    ensures InfoOf(ps).template == TemplateOf(ps)
    ensures |InfoOf(ps).vars| == NamedCount(ps) && "" !in InfoOf(ps).vars
  {
    if ps != [] {
      var before, p := ps[..|ps| - 1], ps[|ps| - 1];
      TemplateMeaning(before);
      var i := InfoOf(before);
      if p.Pred? {
        var n := FreeName(i.vars, p.name);
        assert n == "" <==> p.name == "";
        assert i.vars[n := p.value].Keys == i.vars.Keys + {n};
      }
    }
  }

  // A later predicate never overwrites a variable
  lemma {:induction false} NeverOverwritten(ps: seq<Piece>, more: seq<Piece>)
    ensures forall n :: n in InfoOf(ps).vars ==>
      n in InfoOf(ps + more).vars && InfoOf(ps + more).vars[n] == InfoOf(ps).vars[n]
    decreases |more|
  {
    if more == [] {
      assert ps + more == ps;
    } else {
      var k := |more| - 1;
      NeverOverwritten(ps, more[..k]);
      assert (ps + more)[..|ps| + k] == ps + more[..k];
    }
  }

  // ---- repeated names ----

  predicate NoHash(s: string) { '#' !in s }

  lemma NumberedSplit(a: string, i: nat, b: string, j: nat)
    requires NoHash(a) && NoHash(b) && Numbered(a, i) == Numbered(b, j)
    ensures a == b && i == j
  {
    HashAt(a, Decimal(i));
    HashAt(b, Decimal(j));
    assert Numbered(a, i)[..|a|] == a && Numbered(b, j)[..|b|] == b;
    NumberedInjective(a, i, j);
  }

  function FirstHash(s: string): nat { if s == "" || s[0] == '#' then 0 else 1 + FirstHash(s[1..]) }

  lemma {:induction false} HashAt(a: string, x: string)
    requires NoHash(a)
    ensures FirstHash(a + "#" + x) == |a|
  {
    if a != "" {
      HashAt(a[1..], x);
      assert (a + "#" + x)[1..] == a[1..] + "#" + x;
    }
  }

  // The variable of the n-th predicate of a name
  function Key(name: string, n: nat): string { if n == 1 then name else Numbered(name, n) }

  lemma KeySplit(a: string, i: nat, b: string, j: nat)
    requires NoHash(a) && NoHash(b) && i >= 1 && j >= 1 && Key(a, i) == Key(b, j)
    ensures a == b && i == j
  {
    assert Numbered(a, i)[|a|] == '#' && Numbered(b, j)[|b|] == '#';
    if i > 1 && j > 1 { NumberedSplit(a, i, b, j); }
    assert i == 1 && j > 1 ==> '#' in a;
    assert j == 1 && i > 1 ==> '#' in b;
  }

  function Occurrences(ps: seq<Piece>, name: string): nat {
    if ps == [] then 0
    else Occurrences(ps[..|ps| - 1], name) + if ps[|ps| - 1].Pred? && ps[|ps| - 1].name == name then 1 else 0
  }

  lemma OneOccurrence(ps: seq<Piece>, p: Piece, name: string)
    ensures Occurrences(ps + [p], name) == Occurrences(ps, name) + if p.Pred? && p.name == name then 1 else 0
  {
    assert (ps + [p])[..|ps|] == ps;
  }

  // The key of the i-th piece: its name, numbered from the second predicate of that name on
  function KeyAt(ps: seq<Piece>, i: nat): string
    requires i < |ps| && ps[i].Pred?
  {
    Key(ps[i].name, Occurrences(ps[..i + 1], ps[i].name))
  }

  // The variable the i-th piece is bound to
  function StoredAt(ps: seq<Piece>, i: nat): string
    requires i < |ps| && ps[i].Pred?
  {
    FreeName(InfoOf(ps[..i]).vars, ps[i].name)
  }

  ghost predicate OwnKeys(ps: seq<Piece>) {
    forall i :: 0 <= i < |ps| && Named(ps[i]) ==> StoredAt(ps, i) == KeyAt(ps, i)
  }

  ghost predicate DistinctKeys(ps: seq<Piece>) {
    forall i, j :: 0 <= i < j < |ps| && Named(ps[i]) && Named(ps[j]) ==> KeyAt(ps, i) != KeyAt(ps, j)
  }

  lemma StoredIn(ps: seq<Piece>, i: nat)
    requires i < |ps| && Named(ps[i])
    ensures StoredAt(ps, i) !in InfoOf(ps[..i]).vars && StoredAt(ps, i) != ""
    ensures StoredAt(ps, i) in InfoOf(ps).vars && InfoOf(ps).vars[StoredAt(ps, i)] == ps[i].value
  {
    hide InfoOf, FreeName;
    var before, upto, p := ps[..i], ps[..i + 1], ps[i];
    assert upto == before + [p] && ps == upto + ps[i + 1..];
    FreeSome(InfoOf(before).vars, p.name);
    OneMore(before, p);
    NeverOverwritten(upto, ps[i + 1..]);
  }

  lemma FreeSome(vars: Vars, name: string)
    requires name != ""
    ensures FreeName(vars, name) != ""
  {
    hide FreeFrom;
  }

  lemma {:induction false} VarsStored(ps: seq<Piece>, x: string) returns (k: nat)
    requires x in InfoOf(ps).vars
    ensures k < |ps| && Named(ps[k]) && StoredAt(ps, k) == x
  {
    var n := |ps| - 1;
    var before := ps[..n];
    if x in InfoOf(before).vars {
      k := VarsStored(before, x);
      assert before[..k] == ps[..k];
    } else {
      TemplateMeaning(before);
      k := n;
    }
  }

  lemma StoredBack(ps: seq<Piece>, i: nat, x: string) returns (k: nat)
    requires i <= |ps| && x in InfoOf(ps[..i]).vars
    ensures k < i && Named(ps[k]) && StoredAt(ps, k) == x
  {
    k := VarsStored(ps[..i], x);
    assert ps[..i][..k] == ps[..k];
  }

  lemma {:induction false} Occurrence(ps: seq<Piece>, i: nat, name: string, m: nat) returns (k: nat)
    requires i <= |ps| && 1 <= m <= Occurrences(ps[..i], name)
    ensures k < i && ps[k].Pred? && ps[k].name == name && Occurrences(ps[..k + 1], name) == m
  {
    assert i > 0;
    var n := i - 1;
    assert ps[..i][..n] == ps[..n];
    if m <= Occurrences(ps[..n], name) { k := Occurrence(ps, n, name, m); } else { k := n; }
  }

  // The keys up to i are taken, and its own is free
  lemma KeysFree(ps: seq<Piece>, i: nat)
    requires DistinctKeys(ps) && i < |ps| && Named(ps[i])
    requires forall k :: 0 <= k < i && Named(ps[k]) ==> StoredAt(ps, k) == KeyAt(ps, k)
    ensures StoredAt(ps, i) == KeyAt(ps, i)
  {
    hide InfoOf, Occurrences, Key, FreeName;
    var before, name, vars := ps[..i], ps[i].name, InfoOf(ps[..i]).vars;
    var n := Occurrences(before, name) + 1;
    assert ps[..i + 1] == before + [ps[i]];
    OneOccurrence(before, ps[i], name);
    if KeyAt(ps, i) in vars {
      var k := StoredBack(ps, i, KeyAt(ps, i));
    }
    forall m | 1 <= m < n ensures Key(name, m) in vars {
      var k := Occurrence(ps, i, name, m);
      StoredIn(before, k);
      assert before[..k] == ps[..k];
    }
    FreeKey(vars, name, n);
  }

  lemma FreeKey(vars: Vars, name: string, n: nat)
    requires n >= 1 && Key(name, n) !in vars && forall m :: 1 <= m < n ==> Key(name, m) in vars
    ensures FreeName(vars, name) == Key(name, n)
  {
    if n > 1 {
      assert Key(name, 1) in vars;
      forall j | 2 <= j < n ensures Numbered(name, j) in vars { assert Key(name, j) in vars; }
      FreeFromIs(vars, name, n);
    }
  }

  lemma {:induction false} KeysStored(ps: seq<Piece>, i: nat)
    requires DistinctKeys(ps) && i <= |ps|
    ensures forall k :: 0 <= k < i && Named(ps[k]) ==> StoredAt(ps, k) == KeyAt(ps, k)
  {
    if i > 0 {
      KeysStored(ps, i - 1);
      hide DistinctKeys, KeyAt, StoredAt;
      if Named(ps[i - 1]) { KeysFree(ps, i - 1); }
    }
  }

  // Every predicate is bound to its own key exactly when no two of them have the same key
  lemma OwnKeysIff(ps: seq<Piece>)
    ensures OwnKeys(ps) <==> DistinctKeys(ps)
  {
    hide KeyAt, StoredAt, InfoOf;
    if DistinctKeys(ps) { KeysStored(ps, |ps|); }
    if OwnKeys(ps) {
      forall i, j | 0 <= i < j < |ps| && Named(ps[i]) && Named(ps[j]) ensures KeyAt(ps, i) != KeyAt(ps, j) {
        StoredIn(ps[..j], i);
        StoredBefore(ps, i, j);
        StoredIn(ps, j);
      }
    }
  }

  lemma StoredBefore(ps: seq<Piece>, i: nat, j: nat)
    requires i < j <= |ps| && Named(ps[i])
    ensures StoredAt(ps[..j], i) == StoredAt(ps, i)
  {
    assert ps[..j][..i] == ps[..i];
  }

  // Then each is found under its key
  lemma Bound(ps: seq<Piece>, i: nat)
    requires DistinctKeys(ps) && i < |ps| && Named(ps[i])
    ensures KeyAt(ps, i) in InfoOf(ps).vars && InfoOf(ps).vars[KeyAt(ps, i)] == ps[i].value
  {
    hide KeyAt, StoredAt, InfoOf, DistinctKeys;
    OwnKeysIff(ps);
    StoredIn(ps, i);
  }

  ghost predicate NoHashes(ps: seq<Piece>) { forall i :: 0 <= i < |ps| && ps[i].Pred? ==> NoHash(ps[i].name) }

  lemma SomeOccurrence(ps: seq<Piece>, i: nat)
    requires i < |ps| && ps[i].Pred?
    ensures Occurrences(ps[..i + 1], ps[i].name) == Occurrences(ps[..i], ps[i].name) + 1
  {
    assert ps[..i + 1][..i] == ps[..i];
  }

  lemma {:induction false} MoreOccurrences(ps: seq<Piece>, i: nat, j: nat, name: string)
    requires i <= j <= |ps|
    ensures Occurrences(ps[..i], name) <= Occurrences(ps[..j], name)
  {
    if i < j {
      MoreOccurrences(ps, i, j - 1, name);
      assert ps[..j][..j - 1] == ps[..j - 1];
    }
  }

  // Names without # do not take each other's keys
  lemma NoHashDistinct(ps: seq<Piece>)
    requires NoHashes(ps)
    ensures DistinctKeys(ps)
  {
    hide Occurrences, Key;
    forall i, j | 0 <= i < j < |ps| && Named(ps[i]) && Named(ps[j]) ensures KeyAt(ps, i) != KeyAt(ps, j) {
      SomeOccurrence(ps, i);
      SomeOccurrence(ps, j);
      MoreOccurrences(ps, i + 1, j, ps[i].name);
      if KeyAt(ps, i) == KeyAt(ps, j) {
        KeySplit(ps[i].name, Occurrences(ps[..i + 1], ps[i].name), ps[j].name, Occurrences(ps[..j + 1], ps[j].name));
      }
    }
  }

  lemma HashNames()
    ensures Numbered("a", 2) == "a#2" && Numbered("a", 3) == "a#3" && "a#2" != "a" && "a#3" != "a" && "a#3" != "a#2"
  {
    assert Decimal(2) == "2" && Decimal(3) == "3";
    assert |"a"| == 1 && |"a#2"| == 3 && "a#3"[2] != "a#2"[2];
  }

  lemma HashOccurrences(p: Piece, q: Piece, r: Piece)
    requires p.Pred? && q.Pred? && r.Pred? && p.name == "a" && q.name == "a#2" && r.name == "a"
    ensures Occurrences([p, q, r], "a") == 2
  {
    HashNames();
    assert Occurrences([], "a") == 0;
    hide Occurrences, Numbered;
    OneOccurrence([], p, "a");
    OneOccurrence([p], q, "a");
    OneOccurrence([p, q], r, "a");
    assert [] + [p] == [p] && [p] + [q] == [p, q] && [p, q] + [r] == [p, q, r];
  }

  // A name with # takes the key of another name: of a, a#2 and a, the second a is bound to a#3, not to its own a#2
  lemma HashTaken(u: string, v: string, w: string)
    ensures var ps := [Pred("a", u), Pred("a#2", v), Pred("a", w)];
      Occurrences(ps, "a") == 2 && Key("a", 2) == "a#2" && InfoOf(ps).vars == map["a" := u, "a#2" := v, "a#3" := w]
  {
    var p, q, r := Pred("a", u), Pred("a#2", v), Pred("a", w);
    assert InfoOf([]).vars == map[];
    HashNames();
    HashOccurrences(p, q, r);
    hide Numbered, Occurrences, InfoOf;
    OneMore([], p);
    OneMore([p], q);
    OneMore([p, q], r);
    assert [] + [p] == [p] && [p] + [q] == [p, q] && [p, q] + [r] == [p, q, r];
    var two: Vars := map["a" := u, "a#2" := v];
    FreeFromIs(two, "a", 3);
  }

  // ---- character by character ----

  // The delimiter ends the text, a backslash takes the next character as it is, and others stand for themselves
  lemma UntilReads(c: char, s: string, delim: char)
    requires delim != '\\'
    ensures Until([delim] + s, delim) == ("", s)
    ensures Until(['\\', c] + s, delim) == ([c] + Until(s, delim).0, Until(s, delim).1)
    ensures c != delim && c != '\\' ==> Until([c] + s, delim) == ([c] + Until(s, delim).0, Until(s, delim).1)
    ensures Until("", delim) == Until("\\", delim) == ("", "")
  {
    assert ([delim] + s)[1..] == s && ([c] + s)[1..] == s && (['\\', c] + s)[2..] == s;
  }

  lemma {:induction false} UntilPlain(a: string, s: string, delim: char)
    requires delim !in a && '\\' !in a && delim != '\\'
    ensures Until(a + [delim] + s, delim) == (a, s)
  {
    var t := a + [delim] + s;
    if a == "" {
      assert t == [delim] + s;
      UntilReads(delim, s, delim);
    } else {
      UntilPlain(a[1..], s, delim);
      assert t == [a[0]] + (a[1..] + [delim] + s);
      UntilReads(a[0], a[1..] + [delim] + s, delim);
      assert a == [a[0]] + a[1..];
    }
  }

  // Text in brackets is a predicate, and any other character a literal
  lemma ParseReads(c: char, name: string, value: string, rest: string)
    requires '=' !in name && '\\' !in name && ']' !in value && '\\' !in value
    ensures Parse("[" + name + "=" + value + "]" + rest) == [Pred(name, value)] + Parse(rest)
    ensures c != '[' ==> Parse([c] + rest) == [Lit(c)] + Parse(rest)
  {
    var s := "[" + name + "=" + value + "]" + rest;
    var tail := value + [']'] + rest;
    assert s[1..] == name + ['='] + tail;
    UntilPlain(name, tail, '=');
    UntilPlain(value, rest, ']');
    assert ([c] + rest)[1..] == rest;
    hide Until;
  }

  // A backslash keeps the character behind it
  lemma ParseEscape(c: char, value: string, rest: string)
    requires ']' !in value && '\\' !in value
    ensures Parse("[\\" + [c] + "=" + value + "]" + rest) == [Pred([c], value)] + Parse(rest)
    ensures Parse("[n=\\" + [c] + value + "]" + rest) == [Pred("n", [c] + value)] + Parse(rest)
  {
    EscapedName(c, value, rest);
    EscapedValue(c, value, rest);
  }

  lemma EscapedName(c: char, value: string, rest: string)
    requires ']' !in value && '\\' !in value
    ensures Parse("[\\" + [c] + "=" + value + "]" + rest) == [Pred([c], value)] + Parse(rest)
  {
    hide Until;
    var tail := value + [']'] + rest;
    var s := "[\\" + [c] + "=" + value + "]" + rest;
    assert s[1..] == ['\\', c] + ("" + ['='] + tail);
    UntilReads(c, "" + ['='] + tail, '=');
    UntilPlain("", tail, '=');
    UntilPlain(value, rest, ']');
    assert [c] + "" == [c];
  }

  lemma EscapedValue(c: char, value: string, rest: string)
    requires ']' !in value && '\\' !in value
    ensures Parse("[n=\\" + [c] + value + "]" + rest) == [Pred("n", [c] + value)] + Parse(rest)
  {
    hide Until;
    var tail := value + [']'] + rest;
    var t := "[n=\\" + [c] + value + "]" + rest;
    assert t[1..] == "n" + ['='] + (['\\', c] + tail);
    UntilPlain("n", ['\\', c] + tail, '=');
    UntilReads(c, tail, ']');
    UntilPlain(value, rest, ']');
  }

  // The template has {} in the place of each predicate, which binds a variable
  lemma InfoReads(ps: seq<Piece>, c: char, name: string, value: string)
    requires name != "" && name !in InfoOf(ps).vars
    ensures InfoOf([]) == Info("", map[])
    ensures InfoOf(ps + [Lit(c)]) == Info(InfoOf(ps).template + [c], InfoOf(ps).vars)
    ensures InfoOf(ps + [Pred(name, value)]) == Info(InfoOf(ps).template + "{}", InfoOf(ps).vars[name := value])
    ensures "" !in InfoOf(ps).vars ==> InfoOf(ps + [Pred("", value)]) == InfoOf(ps)
  {
    OneMore(ps, Lit(c));
    OneMore(ps, Pred(name, value));
    OneMore(ps, Pred("", value));
  }

  // The second predicate of a name is numbered
  lemma SecondOne(ps: seq<Piece>, name: string, value: string)
    requires name in InfoOf(ps).vars && name + "#2" !in InfoOf(ps).vars && name != ""
    ensures InfoOf(ps + [Pred(name, value)]) == Info(InfoOf(ps).template + "{}", InfoOf(ps).vars[name + "#2" := value])
  {
    assert Decimal(2) == "2";
    assert Numbered(name, 2) == name + "#2";
    FreeFromIs(InfoOf(ps).vars, name, 2);
    OneMore(ps, Pred(name, value));
  }
}
