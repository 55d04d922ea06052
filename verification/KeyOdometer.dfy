// The key combinations of a Redis key: the mixed-radix counter of generateYangListData and generateTableData.
module KeyOdometer {
  import opened Wrappers
  import opened Text

  // A tuple in front of each of some tuples
  function Prepend(v: string, ts: seq<seq<string>>): (r: seq<seq<string>>)
    ensures |r| == |ts| && forall i :: 0 <= i < |ts| ==> r[i] == [v] + ts[i]
  {
    if ts == [] then [] else [[v] + ts[0]] + Prepend(v, ts[1..])
  }

  // Every value of vs in front of each tuple, value by value
  function Times(vs: seq<string>, ts: seq<seq<string>>): (r: seq<seq<string>>)
    ensures |r| == |vs| * |ts|
  {
    if vs == [] then [] else Prepend(vs[0], ts) + Times(vs[1..], ts)
  }

  // The Cartesian product in lexicographic order of the positions
  function Product(values: seq<seq<string>>): seq<seq<string>> {
    if values == [] then [[]] else Times(values[0], Product(values[1..]))
  }

  function Count(values: seq<seq<string>>): nat { if values == [] then 1 else |values[0]| * Count(values[1..]) }

  // Positions into the lists of values
  predicate InRange(values: seq<seq<string>>, idx: seq<nat>) {
    |idx| == |values| && forall i :: 0 <= i < |idx| ==> idx[i] < |values[i]|
  }

  function Tuple(values: seq<seq<string>>, idx: seq<nat>): seq<string>
    requires InRange(values, idx)
  {
    seq(|idx|, i requires 0 <= i < |idx| => values[i][idx[i]])
  }

  // What the product holds from position idx on
  function Rest(values: seq<seq<string>>, idx: seq<nat>): seq<seq<string>>
    requires InRange(values, idx)
  {
    if values == [] then [[]]
    else Prepend(values[0][idx[0]], Rest(values[1..], idx[1..])) + Times(values[0][idx[0] + 1..], Product(values[1..]))
  }

  function Zeros(n: nat): seq<nat> { seq(n, i => 0) }

  lemma {:induction false} RestStart(values: seq<seq<string>>)
    requires InRange(values, Zeros(|values|))
    ensures Rest(values, Zeros(|values|)) == Product(values)
  {
    if values != [] {
      assert Zeros(|values|)[1..] == Zeros(|values| - 1);
      RestStart(values[1..]);
      assert values[0] == [values[0][0]] + values[0][1..];
    }
  }

  lemma TupleTail(values: seq<seq<string>>, idx: seq<nat>)
    requires InRange(values, idx) && values != []
    ensures InRange(values[1..], idx[1..]) && Tuple(values, idx) == [values[0][idx[0]]] + Tuple(values[1..], idx[1..])
  {
  }

  // Every position from k on is the last of its list
  predicate AtEnd(values: seq<seq<string>>, idx: seq<nat>, k: nat)
    requires |idx| == |values|
  {
    forall j :: k <= j < |idx| ==> idx[j] + 1 >= |values[j]|
  }

  lemma PrependConcat(v: string, t: seq<string>, ts: seq<seq<string>>)
    ensures Prepend(v, [t] + ts) == [[v] + t] + Prepend(v, ts)
  {
    assert ([t] + ts)[1..] == ts;
  }

  lemma {:induction false} RestEnd(values: seq<seq<string>>, idx: seq<nat>)
    requires InRange(values, idx) && AtEnd(values, idx, 0)
    ensures Rest(values, idx) == [Tuple(values, idx)]
  {
    if values != [] {
      TupleTail(values, idx);
      assert forall j :: 0 <= j < |idx| - 1 ==> idx[1..][j] == idx[j + 1] && values[1..][j] == values[j + 1];
      RestEnd(values[1..], idx[1..]);
      assert values[0][idx[0] + 1..] == [];
      var t := Tuple(values[1..], idx[1..]);
      PrependConcat(values[0][idx[0]], t, []);
      assert [t] + [] == [t];
      assert Times(values[0][idx[0] + 1..], Product(values[1..])) == [];
      assert Prepend(values[0][idx[0]], [t]) == [Tuple(values, idx)];
    } else {
      assert Tuple(values, idx) == [];
    }
  }

  // The positions after a step of the counter at next
  function Stepped(idx: seq<nat>, next: nat): seq<nat>
    requires next < |idx|
  {
    idx[..next] + [idx[next] + 1] + Zeros(|idx| - next - 1)
  }

  // The counter moves on to the next tuple of the product
  lemma {:induction false} RestStep(values: seq<seq<string>>, idx: seq<nat>, next: nat)
    requires InRange(values, idx) && next < |idx| && AtEnd(values, idx, next + 1) && idx[next] + 1 < |values[next]|
    ensures InRange(values, Stepped(idx, next))
    ensures Rest(values, idx) == [Tuple(values, idx)] + Rest(values, Stepped(idx, next))
  {
    hide Product, Times, Prepend, Rest;
    var v, vs, i := values[0], values[1..], idx[1..];
    var step := Stepped(idx, next);
    TupleTail(values, idx);
    forall j | 0 <= j < |i| ensures i[j] == idx[j + 1] && vs[j] == values[j + 1] {}
    if next == 0 {
      RestCarry(values, idx);
    } else {
      assert step[1..] == Stepped(i, next - 1);
      RestStep(vs, i, next - 1);
      PrependConcat(v[idx[0]], Tuple(vs, i), Rest(vs, step[1..]));
      TupleTail(values, step);
      RestUnfold(values, idx);
      RestUnfold(values, step);
      Regroup([v[idx[0]]] + Tuple(vs, i), Prepend(v[idx[0]], Rest(vs, step[1..])), Times(v[idx[0] + 1..], Product(vs)));
    }
  }

  lemma RestUnfold(values: seq<seq<string>>, idx: seq<nat>)
    requires InRange(values, idx) && values != []
    ensures InRange(values[1..], idx[1..])
    ensures Rest(values, idx) == Prepend(values[0][idx[0]], Rest(values[1..], idx[1..]))
      + Times(values[0][idx[0] + 1..], Product(values[1..]))
  {
  }

  lemma Regroup(t: seq<string>, a: seq<seq<string>>, b: seq<seq<string>>)
    ensures [t] + a + b == [t] + (a + b)
  {
  }

  lemma RestCarry(values: seq<seq<string>>, idx: seq<nat>)
    requires InRange(values, idx) && values != [] && AtEnd(values, idx, 1) && idx[0] + 1 < |values[0]|
    ensures InRange(values, Stepped(idx, 0))
    ensures Rest(values, idx) == [Tuple(values, idx)] + Rest(values, Stepped(idx, 0))
  {
    hide Product, Prepend;
    var v, vs, i, step := values[0], values[1..], idx[1..], Stepped(idx, 0);
    TupleTail(values, idx);
    forall j | 0 <= j < |i| ensures i[j] == idx[j + 1] && vs[j] == values[j + 1] {}
    RestEnd(vs, i);
    assert step[1..] == Zeros(|vs|);
    RestStart(vs);
    PrependConcat(v[idx[0]], Tuple(vs, i), []);
    assert [Tuple(vs, i)] + [] == [Tuple(vs, i)];
    var w := v[idx[0] + 1..];
    assert w[0] == v[idx[0] + 1] && w[1..] == v[idx[0] + 2..];
  }

  lemma {:induction false} ProductCount(values: seq<seq<string>>)
    ensures |Product(values)| == Count(values)
  {
    if values != [] { ProductCount(values[1..]); }
  }

  lemma {:induction false} CountPositive(values: seq<seq<string>>)
    ensures Count(values) > 0 <==> InRange(values, Zeros(|values|))
  {
    if values != [] {
      CountPositive(values[1..]);
      var z := Zeros(|values|);
      assert z[1..] == Zeros(|values| - 1);
      if InRange(values, z) {
        assert forall i :: 0 <= i < |values| - 1 ==> z[1..][i] == z[i + 1] && values[1..][i] == values[i + 1];
      }
      if Count(values) > 0 {
        Positive(|values[0]|, Count(values[1..]));
        assert forall i :: 0 < i < |values| ==> z[1..][i - 1] == z[i] && values[1..][i - 1] == values[i];
      }
    }
  }

  lemma Positive(a: nat, b: nat)
    requires a * b > 0
    ensures a > 0 && b > 0
  {
  }

  // ---- which tuples, and where ----

  lemma PrependMember(v: string, ts: seq<seq<string>>, t: seq<string>)
    ensures t in Prepend(v, ts) <==> t != [] && t[0] == v && t[1..] in ts
  {
    var p := Prepend(v, ts);
    hide Prepend;
    if t in p {
      var i :| 0 <= i < |ts| && p[i] == t;
      assert t[1..] == ts[i];
    }
    if t != [] && t[0] == v && t[1..] in ts {
      var i :| 0 <= i < |ts| && ts[i] == t[1..];
      assert p[i] == t;
    }
  }

  lemma {:induction false} TimesMember(vs: seq<string>, ts: seq<seq<string>>, t: seq<string>)
    ensures t in Times(vs, ts) <==> t != [] && t[0] in vs && t[1..] in ts
  {
    if vs != [] {
      hide Prepend;
      TimesMember(vs[1..], ts, t);
      PrependMember(vs[0], ts, t);
      assert vs == [vs[0]] + vs[1..];
    }
  }

  // The product holds exactly the tuples that take each component from its list
  lemma {:induction false} ProductMember(values: seq<seq<string>>, t: seq<string>)
    ensures t in Product(values) <==> |t| == |values| && forall i :: 0 <= i < |t| ==> t[i] in values[i]
  {
    if values != [] {
      TimesMember(values[0], Product(values[1..]), t);
      if t != [] {
        ProductMember(values[1..], t[1..]);
        assert t == [t[0]] + t[1..];
        if |t| == |values| && forall i :: 0 <= i < |t| ==> t[i] in values[i] {
          assert forall i :: 0 <= i < |t| - 1 ==> t[1..][i] == t[i + 1] && values[1..][i] == values[i + 1];
        }
        if t[0] in values[0] && |t| == |values| && forall i :: 0 <= i < |t| - 1 ==> t[1..][i] in values[1..][i] {
          assert forall i :: 0 < i < |t| ==> t[i] == t[1..][i - 1] && values[i] == values[1..][i - 1];
        }
      }
    }
  }

  // The number of tuples before the one at idx
  function Rank(values: seq<seq<string>>, idx: seq<nat>): nat
    requires InRange(values, idx)
  {
    if values == [] then 0 else idx[0] * Count(values[1..]) + Rank(values[1..], idx[1..])
  }

  lemma {:induction false} TimesAt(vs: seq<string>, ts: seq<seq<string>>, i: nat, r: nat)
    requires i < |vs| && r < |ts|
    ensures i * |ts| + r < |Times(vs, ts)| && Times(vs, ts)[i * |ts| + r] == [vs[i]] + ts[r]
  {
    hide Prepend;
    var head, tail := Prepend(vs[0], ts), Times(vs[1..], ts);
    assert Times(vs, ts) == head + tail;
    if i > 0 {
      TimesAt(vs[1..], ts, i - 1, r);
      OneLess(i, |ts|);
      var k := (i - 1) * |ts| + r;
      assert (head + tail)[|ts| + k] == tail[k];
    }
  }

  lemma OneLess(i: nat, n: nat)
    requires i > 0
    ensures i * n == n + (i - 1) * n
  {
  }

  // Each tuple of positions has its place, its mixed-radix value, and a place belongs to one tuple only
  lemma {:induction false} RankTuple(values: seq<seq<string>>, idx: seq<nat>)
    requires InRange(values, idx)
    ensures Rank(values, idx) < |Product(values)| && Product(values)[Rank(values, idx)] == Tuple(values, idx)
  {
    if values != [] {
      TupleTail(values, idx);
      RankTuple(values[1..], idx[1..]);
      ProductCount(values[1..]);
      TimesAt(values[0], Product(values[1..]), idx[0], Rank(values[1..], idx[1..]));
    }
  }

  // The positions whose mixed-radix value is r
  function Digits(values: seq<seq<string>>, r: nat): seq<nat>
    requires r < Count(values)
  {
    if values == [] then []
    else
      var n := Count(values[1..]);
      Positive(|values[0]|, n);
      DivMod(r, |values[0]|, n);
      [r / n] + Digits(values[1..], r % n)
  }

  lemma DivMod(r: nat, a: nat, n: nat)
    requires r < a * n && n > 0
    ensures r / n < a && r % n < n && r == (r / n) * n + r % n
  {
    if r / n >= a { Below(a, r / n, n); }
  }

  lemma Below(a: nat, b: nat, n: nat)
    requires a <= b
    ensures a * n <= b * n
  {
    if a < b { Carry(a, b, n); }
  }

  // Every place of the product is that of some positions
  lemma {:induction false} RankOnto(values: seq<seq<string>>, r: nat)
    requires r < |Product(values)|
    ensures r < Count(values) && InRange(values, Digits(values, r)) && Rank(values, Digits(values, r)) == r
  {
    ProductCount(values);
    if values != [] {
      var n := Count(values[1..]);
      Positive(|values[0]|, n);
      DivMod(r, |values[0]|, n);
      ProductCount(values[1..]);
      RankOnto(values[1..], r % n);
      var d, rest := Digits(values, r), Digits(values[1..], r % n);
      assert d[1..] == rest;
      forall i | 0 <= i < |d| ensures d[i] < |values[i]| {
        if i > 0 { assert d[i] == rest[i - 1] && values[i] == values[1..][i - 1]; }
      }
    }
  }

  // idx stands before idx2 in lexicographic order
  predicate Before(idx: seq<nat>, idx2: seq<nat>)
    requires |idx| == |idx2|
  {
    idx != [] && (idx[0] < idx2[0] || (idx[0] == idx2[0] && Before(idx[1..], idx2[1..])))
  }

  lemma {:induction false} RankOrder(values: seq<seq<string>>, idx: seq<nat>, idx2: seq<nat>)
    requires InRange(values, idx) && InRange(values, idx2)
    ensures Before(idx, idx2) ==> Rank(values, idx) < Rank(values, idx2)
    ensures idx == idx2 || Before(idx, idx2) || Before(idx2, idx)
  {
    if values != [] {
      TupleTail(values, idx);
      TupleTail(values, idx2);
      RankOrder(values[1..], idx[1..], idx2[1..]);
      RankTuple(values[1..], idx[1..]);
      RankTuple(values[1..], idx2[1..]);
      ProductCount(values[1..]);
      assert idx == [idx[0]] + idx[1..] && idx2 == [idx2[0]] + idx2[1..];
      if idx[0] < idx2[0] { Carry(idx[0], idx2[0], Count(values[1..])); }
    }
  }

  lemma Carry(a: nat, b: nat, n: nat)
    requires a < b
    ensures a * n + n <= b * n
  {
    var d := b - a - 1;
    assert d * n >= 0;
    assert b * n == (a + 1 + d) * n == a * n + n + d * n;
  }

  // ---- the counter ----

  // k tuples are still to come when the counter stands at idx
  ghost predicate Running(values: seq<seq<string>>, idx: seq<nat>, out: seq<seq<string>>, k: int) {
    k >= 0 && |idx| == |values|
    && if k == 0 then out == Product(values)
      else InRange(values, idx) && out + Rest(values, idx) == Product(values) && |Rest(values, idx)| == k
  }

  lemma RunStart(values: seq<seq<string>>)
    ensures Running(values, Zeros(|values|), [], Count(values))
  {
    ProductCount(values);
    CountPositive(values);
    if Count(values) > 0 {
      RestStart(values);
      assert [] + Product(values) == Product(values);
    }
  }

  lemma RunStep(values: seq<seq<string>>, idx: seq<nat>, out: seq<seq<string>>, k: int, next: nat)
    requires Running(values, idx, out, k) && k > 0 && next < |idx| && AtEnd(values, idx, next + 1)
    requires next > 0 ==> idx[next] + 1 < |values[next]|
    ensures Running(values, Stepped(idx, next), out + [Tuple(values, idx)], k - 1)
  {
    var t := Tuple(values, idx);
    if idx[next] + 1 < |values[next]| {
      RestStep(values, idx, next);
      assert out + ([t] + Rest(values, Stepped(idx, next))) == out + [t] + Rest(values, Stepped(idx, next));
    } else {
      RestEnd(values, idx);
    }
  }

  lemma RunNone(values: seq<seq<string>>, idx: seq<nat>, out: seq<seq<string>>, k: int)
    requires Running(values, idx, out, k) && k > 0 && values == []
    ensures out + [Tuple(values, idx)] == Product(values)
  {
    assert Tuple(values, idx) == [];
  }

  lemma Associate(a: nat, b: nat, c: nat)
    ensures a * (b * c) == (a * b) * c
  {
  }

  method Total(values: seq<seq<string>>) returns (totalKeyComb: nat)
    ensures totalKeyComb == Count(values)
  {
    totalKeyComb := 1;
    var i := 0;
    while i < |values|
      invariant i <= |values| && totalKeyComb * Count(values[i..]) == Count(values)
    {
      assert values[i..][1..] == values[i + 1..];
      Associate(totalKeyComb, |values[i]|, Count(values[i + 1..]));
      totalKeyComb := totalKeyComb * |values[i]|;
      i := i + 1;
    }
  }

  method KeyTuple(values: seq<seq<string>>, keyIndices: array<nat>) returns (tuple: seq<string>)
    requires InRange(values, keyIndices[..])
    ensures tuple == Tuple(values, keyIndices[..])
  {
    tuple := [];
    var idx := 0;
    while idx < |values|
      invariant idx <= |values| && tuple == Tuple(values, keyIndices[..])[..idx]
    {
      tuple := tuple + [values[idx][keyIndices[idx]]];
      idx := idx + 1;
    }
  }

  // The last key element that can still move on, or the first
  method NextElement(values: seq<seq<string>>, keyIndices: array<nat>) returns (next: int)
    requires keyIndices.Length == |values|
    ensures -1 <= next < |values| && (next < 0 <==> values == []) && AtEnd(values, keyIndices[..], next + 1)
    ensures next > 0 ==> keyIndices[next] + 1 < |values[next]|
  {
    next := |values| - 1;
    while next > 0 && keyIndices[next] + 1 >= |values[next]|
      invariant -1 <= next < |values| && AtEnd(values, keyIndices[..], next + 1) && (next == -1 ==> values == [])
    {
      next := next - 1;
    }
  }

  method StepAt(keyIndices: array<nat>, next: nat)
    requires next < keyIndices.Length
    modifies keyIndices
    ensures keyIndices[..] == Stepped(old(keyIndices[..]), next)
  {
    ghost var pos := keyIndices[..];
    keyIndices[next] := keyIndices[next] + 1;
    var idx := next + 1;
    while idx < keyIndices.Length
      invariant next < idx <= keyIndices.Length
      invariant keyIndices[..] == pos[..next] + [pos[next] + 1] + Zeros(idx - next - 1) + pos[idx..]
    {
      keyIndices[idx] := 0;
      idx := idx + 1;
    }
  }

  // The loop that emits a list node for each key combination
  method Combinations(values: seq<seq<string>>) returns (out: seq<seq<string>>)
    ensures out == Product(values)
  {
    hide Product, Rest, Count, AtEnd, Tuple, Stepped;
    var totalKeyComb: int := Total(values);
    var keyIndices := new nat[|values|](i => 0);
    assert keyIndices[..] == Zeros(|values|);
    RunStart(values);
    out := [];
    while totalKeyComb > 0
      invariant Running(values, keyIndices[..], out, totalKeyComb)
    {
      var tuple := KeyTuple(values, keyIndices);
      var next := NextElement(values, keyIndices);
      ghost var pos := keyIndices[..];
      if next < 0 {
        RunNone(values, pos, out, totalKeyComb);
        out := out + [tuple];
        break;
      }
      RunStep(values, pos, out, totalKeyComb, next);
      out := out + [tuple];
      StepAt(keyIndices, next);
      totalKeyComb := totalKeyComb - 1;
    }
  }

  // ---- whole tables ----

  // A YANG list: the names of its keys, and the pattern of each component of the Redis key.
  // The second key of INTERFACE is optional.
  datatype ListKeys = ListKeys(names: seq<string>, delim: char, patterns: seq<string>, isInterface: bool)

  datatype KeyPart = KeyPart(key: string, values: seq<string>)

  // The values of one component: itself for {key}, its comma-separated items for ({key},)*, no key otherwise
  function PartOf(name: string, pattern: string, component: string): seq<KeyPart> {
    if pattern == "{" + name + "}" then [KeyPart(name, [component])]
    else if pattern == "({" + name + "},)*" then [KeyPart(name, Split(component, ','))]
    else []
  }

  function PartsOf(names: seq<string>, patterns: seq<string>, components: seq<string>): seq<KeyPart>
    requires |names| <= |patterns| && |names| <= |components|
  {
    if names == [] then []
    else
      var k := |names| - 1;
      PartsOf(names[..k], patterns, components) + PartOf(names[k], patterns[k], components[k])
  }

  // A key with a wrong number of components has none, but one of INTERFACE gets an address behind them
  function Components(sc: ListKeys, redisKey: string): Option<seq<string>> {
    var keyVals := Split(redisKey, sc.delim);
    if |sc.names| == |keyVals| then Some(keyVals)
    else if sc.isInterface then Some(keyVals + ["0.0.0.0/0"])
    else None
  }

  // There is a pattern and a component for each name, as the code indexes them
  predicate Indexed(sc: ListKeys, redisKey: string) {
    |sc.names| <= |sc.patterns| && (Components(sc, redisKey).Some? ==> |sc.names| <= |Components(sc, redisKey).value|)
  }

  function KeyParts(sc: ListKeys, redisKey: string): seq<KeyPart>
    requires Indexed(sc, redisKey)
  {
    match Components(sc, redisKey)
    case None => []
    case Some(components) => PartsOf(sc.names, sc.patterns, components)
  }

  method GetRedisToYangKeys(sc: ListKeys, redisKey: string) returns (mkeys: seq<KeyPart>)
    requires Indexed(sc, redisKey)
    ensures mkeys == KeyParts(sc, redisKey)
  {
    hide Split, PartsOf;
    var keyVals := Split(redisKey, sc.delim);
    mkeys := [];
    if sc.isInterface && |sc.names| != |keyVals| {
      keyVals := keyVals + ["0.0.0.0/0"];
    } else if |sc.names| != |keyVals| {
      return;
    }
    var idx := 0;
    NoParts(sc.patterns, keyVals);
    while idx < |sc.names|
      invariant idx <= |sc.names| && mkeys == PartsOf(sc.names[..idx], sc.patterns, keyVals)
    {
      var keyName := sc.names[idx];
      PushPart(sc.names, sc.patterns, keyVals, idx);
      if sc.patterns[idx] == "{" + keyName + "}" {
        mkeys := mkeys + [KeyPart(keyName, [keyVals[idx]])];
      } else if sc.patterns[idx] == "({" + keyName + "},)*" {
        mkeys := mkeys + [KeyPart(keyName, Split(keyVals[idx], ','))];
      }
      idx := idx + 1;
    }
    assert sc.names[..idx] == sc.names;
  }

  lemma NoParts(patterns: seq<string>, components: seq<string>)
    ensures PartsOf([], patterns, components) == []
  {
  }

  lemma PushPart(names: seq<string>, patterns: seq<string>, components: seq<string>, i: nat)
    requires i < |names| && |names| <= |patterns| && |names| <= |components|
    ensures PartsOf(names[..i + 1], patterns, components)
      == PartsOf(names[..i], patterns, components) + PartOf(names[i], patterns[i], components[i])
  {
    assert names[..i + 1][..i] == names[..i];
  }

  // Where each name has one of the two patterns, there is a part for each name, with the values of its component
  lemma {:induction false} PartsAt(names: seq<string>, patterns: seq<string>, components: seq<string>, i: nat)
    requires i < |names| && |names| <= |patterns| && |names| <= |components|
    requires forall k :: 0 <= k < |names| ==>
      patterns[k] == "{" + names[k] + "}" || patterns[k] == "({" + names[k] + "},)*"
    ensures var parts := PartsOf(names, patterns, components);
      |parts| == |names| && parts[i].key == names[i]
      && parts[i].values == if patterns[i] == "{" + names[i] + "}" then [components[i]] else Split(components[i], ',')
  {
    var k := |names| - 1;
    assert forall j :: 0 <= j < k ==> names[..k][j] == names[j];
    if i < k { PartsAt(names[..k], patterns, components, i); } else if k > 0 {
      PartsAt(names[..k], patterns, components, 0);
    }
  }

  // The values of the i-th name in a Redis key: those of the i-th component. A key with another number of components
  // has no parts, but one of INTERFACE gets an address behind its components.
  lemma KeyPartsAt(sc: ListKeys, redisKey: string, i: nat)
    requires Indexed(sc, redisKey) && i < |sc.names|
    requires forall k :: 0 <= k < |sc.names| ==>
      sc.patterns[k] == "{" + sc.names[k] + "}" || sc.patterns[k] == "({" + sc.names[k] + "},)*"
    ensures var vals, parts := Split(redisKey, sc.delim), KeyParts(sc, redisKey);
      if |vals| != |sc.names| && !sc.isInterface then parts == []
      else
        |parts| == |sc.names| && i <= |vals| && parts[i].key == sc.names[i]
        && var c := if i < |vals| then vals[i] else "0.0.0.0/0";
          parts[i].values == if sc.patterns[i] == "{" + sc.names[i] + "}" then [c] else Split(c, ',')
  {
    var vals := Split(redisKey, sc.delim);
    if |vals| == |sc.names| {
      PartsAt(sc.names, sc.patterns, vals, i);
    } else if sc.isInterface {
      PartsAt(sc.names, sc.patterns, vals + ["0.0.0.0/0"], i);
    }
  }

  function ValuesOf(parts: seq<KeyPart>): seq<seq<string>> {
    seq(|parts|, i requires 0 <= i < |parts| => parts[i].values)
  }

  // A list node: the Redis key and the values of its key leaves
  datatype ListNode = ListNode(redisKey: string, leaves: seq<string>)

  function NodesOf(redisKey: string, tuples: seq<seq<string>>): seq<ListNode> {
    seq(|tuples|, i requires 0 <= i < |tuples| => ListNode(redisKey, tuples[i]))
  }

  function KeyNodes(sc: ListKeys, redisKey: string): seq<ListNode>
    requires Indexed(sc, redisKey)
  {
    NodesOf(redisKey, Product(ValuesOf(KeyParts(sc, redisKey))))
  }

  predicate AllIndexed(sc: ListKeys, redisKeys: seq<string>) {
    forall i :: 0 <= i < |redisKeys| ==> Indexed(sc, redisKeys[i])
  }

  function TableNodes(sc: ListKeys, redisKeys: seq<string>): seq<ListNode>
    requires AllIndexed(sc, redisKeys)
  {
    if redisKeys == [] then []
      else TableNodes(sc, redisKeys[..|redisKeys| - 1]) + KeyNodes(sc, redisKeys[|redisKeys| - 1])
  }

  function CountAll(sc: ListKeys, redisKeys: seq<string>): nat
    requires AllIndexed(sc, redisKeys)
  {
    if redisKeys == [] then 0
    else CountAll(sc, redisKeys[..|redisKeys| - 1]) + Count(ValuesOf(KeyParts(sc, redisKeys[|redisKeys| - 1])))
  }

  // A table yields the sum over its keys of the product of their value counts
  lemma {:induction false} TableCount(sc: ListKeys, redisKeys: seq<string>)
    requires AllIndexed(sc, redisKeys)
    ensures |TableNodes(sc, redisKeys)| == CountAll(sc, redisKeys)
  {
    if redisKeys != [] {
      TableCount(sc, redisKeys[..|redisKeys| - 1]);
      ProductCount(ValuesOf(KeyParts(sc, redisKeys[|redisKeys| - 1])));
    }
  }

  // Its nodes are those whose leaves pick a value of each part of one of the keys
  lemma {:induction false} TableMember(sc: ListKeys, redisKeys: seq<string>, n: ListNode)
    requires AllIndexed(sc, redisKeys)
    ensures n in TableNodes(sc, redisKeys) <==>
      n.redisKey in redisKeys
      && var parts := KeyParts(sc, n.redisKey);
        |n.leaves| == |parts| && forall i :: 0 <= i < |parts| ==> n.leaves[i] in parts[i].values
  {
    if redisKeys != [] {
      var k := |redisKeys| - 1;
      TableMember(sc, redisKeys[..k], n);
      KeyMember(sc, redisKeys[k], n);
      assert redisKeys == redisKeys[..k] + [redisKeys[k]];
    }
  }

  lemma KeyMember(sc: ListKeys, redisKey: string, n: ListNode)
    requires Indexed(sc, redisKey)
    ensures n in KeyNodes(sc, redisKey) <==>
      n.redisKey == redisKey
      && var parts := KeyParts(sc, redisKey);
        |n.leaves| == |parts| && forall i :: 0 <= i < |parts| ==> n.leaves[i] in parts[i].values
  {
    var tuples := Product(ValuesOf(KeyParts(sc, redisKey)));
    ProductMember(ValuesOf(KeyParts(sc, redisKey)), n.leaves);
    hide Product, KeyParts;
    if n.redisKey == redisKey && n.leaves in tuples {
      var i :| 0 <= i < |tuples| && tuples[i] == n.leaves;
      assert NodesOf(redisKey, tuples)[i] == n;
    }
  }

  // The list nodes of all keys of a table
  method GenerateTable(sc: ListKeys, redisKeys: seq<string>) returns (nodes: seq<ListNode>)
    requires AllIndexed(sc, redisKeys)
    ensures nodes == TableNodes(sc, redisKeys)
  {
    nodes := [];
    var k := 0;
    while k < |redisKeys|
      invariant k <= |redisKeys| && nodes == TableNodes(sc, redisKeys[..k])
    {
      hide KeyParts, Product, TableNodes;
      var keyValuePair := GetRedisToYangKeys(sc, redisKeys[k]);
      var tuples := Combinations(ValuesOf(keyValuePair));
      PushKey(sc, redisKeys, k);
      nodes := nodes + NodesOf(redisKeys[k], tuples);
      k := k + 1;
    }
    assert redisKeys[..k] == redisKeys;
  }

  lemma PushKey(sc: ListKeys, redisKeys: seq<string>, k: nat)
    requires AllIndexed(sc, redisKeys) && k < |redisKeys|
    ensures TableNodes(sc, redisKeys[..k + 1]) == TableNodes(sc, redisKeys[..k]) + KeyNodes(sc, redisKeys[k])
  {
    assert redisKeys[..k + 1][..k] == redisKeys[..k];
  }

  // The nodes come key by key
  lemma {:induction false} TableInOrder(sc: ListKeys, a: seq<string>, b: seq<string>)
    requires AllIndexed(sc, a + b)
    ensures AllIndexed(sc, a) && AllIndexed(sc, b)
    ensures TableNodes(sc, a + b) == TableNodes(sc, a) + TableNodes(sc, b)
  {
    hide Indexed, KeyNodes;
    IndexedParts(sc, a, b);
    if b == [] {
      assert a + b == a;
    } else {
      var k := |b| - 1;
      assert (a + b)[..|a + b| - 1] == a + b[..k];
      IndexedParts(sc, b[..k], [b[k]]);
      assert b[..k] + [b[k]] == b;
      TableInOrder(sc, a, b[..k]);
    }
  }

  lemma IndexedParts(sc: ListKeys, a: seq<string>, b: seq<string>)
    ensures AllIndexed(sc, a + b) <==> AllIndexed(sc, a) && AllIndexed(sc, b)
  {
    hide Indexed;
    assert forall i :: 0 <= i < |a| ==> (a + b)[i] == a[i];
    assert forall i :: 0 <= i < |b| ==> (a + b)[|a| + i] == b[i];
  }

  // and those of a key in the order of its combinations
  lemma OneKey(sc: ListKeys, redisKey: string, i: nat)
    requires Indexed(sc, redisKey) && i < |Product(ValuesOf(KeyParts(sc, redisKey)))|
    ensures AllIndexed(sc, [redisKey]) && i < |TableNodes(sc, [redisKey])|
    ensures TableNodes(sc, [redisKey])[i] == ListNode(redisKey, Product(ValuesOf(KeyParts(sc, redisKey)))[i])
  {
    assert [redisKey][..0] == [];
    hide Product, KeyParts;
  }
}
