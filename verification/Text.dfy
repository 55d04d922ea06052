// strings.Contains, HasSuffix, Split and Join of Go, for the arguments used here.
module Text {
  predicate HasPrefix(s: string, prefix: string) { |prefix| <= |s| && s[..|prefix|] == prefix }

  predicate HasSuffix(s: string, suffix: string) { |suffix| <= |s| && s[|s| - |suffix|..] == suffix }

  predicate Contains(s: string, sub: string) { HasPrefix(s, sub) || (s != [] && Contains(s[1..], sub)) }

  lemma {:induction false} ContainsPart(s: string, sub: string, c: char)
    requires Contains(s, [c] + sub)
    ensures Contains(s, sub)
  {
    var t := [c] + sub;
    if HasPrefix(s, t) {
      assert t[1..] == sub;
      assert s[1..][..|sub|] == s[..|t|][1..];
      assert HasPrefix(s[1..], sub);
    } else {
      ContainsPart(s[1..], sub, c);
    }
  }

  lemma {:induction false} Found(s: string, sub: string) returns (a: string, b: string)
    requires Contains(s, sub)
    ensures s == a + sub + b
  {
    if HasPrefix(s, sub) {
      a, b := "", s[|sub|..];
    } else {
      a, b := Found(s[1..], sub);
      a := [s[0]] + a;
    }
  }

  lemma {:induction false} IsFound(a: string, sub: string, b: string)
    ensures Contains(a + sub + b, sub)
  {
    var s := a + sub + b;
    if a == "" {
      assert s[..|sub|] == sub;
    } else {
      assert s[1..] == a[1..] + sub + b;
      IsFound(a[1..], sub, b);
    }
  }

  // sub stands somewhere in s
  lemma ContainsIff(s: string, sub: string)
    ensures Contains(s, sub) <==> exists a: string, b: string :: s == a + sub + b
  {
    if Contains(s, sub) { var a, b := Found(s, sub); }
    if a: string, b: string :| s == a + sub + b { IsFound(a, sub, b); }
  }

  // strings.Split and strings.Join
  function Split(s: string, sep: char): (r: seq<string>)
    ensures r != []
  {
    if s == [] then [""]
    else
      var r := Split(s[1..], sep);
      if s[0] == sep then [""] + r else [[s[0]] + r[0]] + r[1..]
  }

  function Join(items: seq<string>, sep: char): string {
    if items == [] then "" else if |items| == 1 then items[0] else items[0] + [sep] + Join(items[1..], sep)
  }

  // The items of a written leaf-list
  function Items(value: string): seq<string> { if value == "" then [] else Split(value, ',') }

  // The field of a leaf-list carries the suffix @
  predicate IsList(field: string) { HasSuffix(field, "@") }

  function FieldName(field: string): string { if IsList(field) then field[..|field| - 1] else field }

  lemma {:induction false} JoinSplit(s: string, sep: char)
    ensures Join(Split(s, sep), sep) == s
  {
    if s != [] {
      JoinSplit(s[1..], sep);
      var r := Split(s[1..], sep);
      if s[0] == sep {
        assert ([""] + r)[1..] == r;
      } else {
        assert ([[s[0]] + r[0]] + r[1..])[1..] == r[1..];
      }
      assert s == [s[0]] + s[1..];
    }
  }

  lemma {:induction false} SplitItem(item: string, rest: string, sep: char)
    requires sep !in item
    ensures Split(item + [sep] + rest, sep) == [item] + Split(rest, sep)
  {
    var s := item + [sep] + rest;
    if item == [] {
      assert s[1..] == rest;
    } else {
      assert s[1..] == item[1..] + [sep] + rest;
      SplitItem(item[1..], rest, sep);
      assert item == [item[0]] + item[1..];
      var r := [item[1..]] + Split(rest, sep);
      assert r[1..] == Split(rest, sep);
    }
  }

  lemma {:induction false} SplitOne(item: string, sep: char)
    requires sep !in item
    ensures Split(item, sep) == [item]
  {
    if item != [] {
      SplitOne(item[1..], sep);
      assert item == [item[0]] + item[1..];
    }
  }

  lemma {:induction false} SplitJoin(items: seq<string>, sep: char)
    requires items != [] && forall i :: 0 <= i < |items| ==> sep !in items[i]
    ensures Split(Join(items, sep), sep) == items
  {
    if |items| == 1 {
      SplitOne(items[0], sep);
      assert items == [items[0]];
    } else {
      SplitJoin(items[1..], sep);
      SplitItem(items[0], Join(items[1..], sep), sep);
      assert items == [items[0]] + items[1..];
    }
  }

  lemma {:induction false} SplitParts(s: string, sep: char)
    ensures forall i :: 0 <= i < |Split(s, sep)| ==> sep !in Split(s, sep)[i]
  {
    if s != [] { SplitParts(s[1..], sep); }
  }

  lemma JoinItem(item: string, rest: seq<string>, sep: char)
    ensures Join([item], sep) == item
    ensures rest != [] ==> Join([item] + rest, sep) == item + [sep] + Join(rest, sep)
  {
    assert ([item] + rest)[1..] == rest;
  }

  lemma ItemsOf(value: string)
    ensures Items("") == [] && (value != "" ==> Items(value) == Split(value, ','))
  {
  }

  // The name of a leaf-list field ends in @
  lemma FieldNames(f: string)
    ensures IsList(f) <==> f != "" && f[|f| - 1] == '@'
    ensures FieldName(f + "@") == f && IsList(f + "@") && (!IsList(f) ==> FieldName(f) == f)
  {
    if f != "" { assert f[|f| - 1..] == [f[|f| - 1]]; }
    assert (f + "@")[..|f|] == f && (f + "@")[|f|..] == "@";
  }
}
