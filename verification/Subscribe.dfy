// The subscription protocol of subscribe.go. Each method runs as one step, under the mutex.
module Subscribe {
  import opened Wrappers

  datatype Msg = Msg(path: string, payload: string, syncComplete: bool)

  class Chan { constructor () {} }

  class SKey { constructor () {} }

  class NotificationInfo {
    const path: string
    var cache: string
    var sKey: SKey?

    constructor (path: string)
      ensures this.path == path && sKey == null
    {
      this.path, cache, sKey := path, "", null;
    }
  }

  // ---- what a subscriber sees ----

  // from[i] sent q[i]: the last payload of n
  ghost function Last(q: seq<Msg>, from: seq<NotificationInfo>, n: NotificationInfo): Option<string>
    requires |q| == |from|
  {
    if q == [] then None
    else if from[|q| - 1] == n then Some(q[|q| - 1].payload)
    else Last(q[..|q| - 1], from[..|q| - 1], n)
  }

  // No message repeats the payload of the message before it from the same entry
  ghost predicate Changing(q: seq<Msg>, from: seq<NotificationInfo>)
    requires |q| == |from|
  {
    q == [] ||
    var k := |q| - 1;
    Changing(q[..k], from[..k]) && Last(q[..k], from[..k], from[k]) != Some(q[k].payload)
  }

  // Of the first n messages all but the last say that the initial sync is incomplete
  ghost predicate Synced(q: seq<Msg>, n: nat) {
    forall i :: 0 <= i < |q| ==> (q[i].syncComplete <==> i >= n - 1)
  }

  class SubscribeInfo {
    const stop: Chan
    var syncDone: bool
    var q: seq<Msg>
    var nInfoArr: seq<NotificationInfo>
    ghost var from: seq<NotificationInfo>   // the sender of each message

    constructor (stop: Chan)
      ensures this.stop == stop && Unused()
    {
      this.stop, syncDone, q, nInfoArr, from := stop, false, [], [], [];
    }

    predicate Unused()
      reads this
    {
      !syncDone && q == [] && nInfoArr == []
    }

    // The messages so far, when those of the first k entries of the initial round are sent
    ghost predicate Stream(k: nat)
      reads this, nInfoArr
    {
      k <= |nInfoArr| && |q| == |from| && Changing(q, from) && Synced(q, |nInfoArr|)
      && k <= |q| && from[..k] == nInfoArr[..k] && (k < |nInfoArr| ==> |q| == k)
      && (syncDone <==> k == |nInfoArr| > 0)
      && (forall i :: 0 <= i < |from| ==> from[i] in nInfoArr[..k])
      && forall i :: 0 <= i < k ==> Last(q, from, nInfoArr[i]) == Some(nInfoArr[i].cache)
    }

    // One message for every entry, in order
    predicate FirstRound(read: NotificationInfo -> Option<string>)
      reads this
    {
      |q| == |nInfoArr| && forall i :: 0 <= i < |q| ==>
        q[i] == Msg(nInfoArr[i].path, Json(read(nInfoArr[i])), i == |nInfoArr| - 1)
    }

    // The part of the handler behind the registries
    method Notify(nInfo: NotificationInfo, read: Option<string>)
      requires Stream(|nInfoArr|) && Distinct(nInfoArr) && nInfo in nInfoArr
      modifies nInfo`cache, this`q, this`from
      ensures Stream(|nInfoArr|) && nInfo.cache == Json(read)
      ensures q == old(q) + if old(nInfo.cache) == Json(read) then [] else [Msg(nInfo.path, Json(read), true)]
    {
      hide Last, Changing;
      ghost var msg := Msg(nInfo.path, Json(read), true);
      forall n: NotificationInfo
        ensures Last(q + [msg], from + [nInfo], n) == if nInfo == n then Some(msg.payload) else Last(q, from, n) {
        LastPush(q, from, msg, nInfo, n);
      }
      LastPush(q, from, msg, nInfo, nInfo);
      assert nInfoArr[..|nInfoArr|] == nInfoArr;
      ghost var q0, from0 := q, from;
      var isChanged := IsCacheChanged(nInfo, read);
      if isChanged {
        SendNotification(nInfo);
        assert q == q0 + [msg] && from == from0 + [nInfo];
        assert from[..|nInfoArr|] == from0[..|nInfoArr|];
      }
    }

    // The first message of every entry; the last of them says that the sync is complete
    method InitialRound(read: NotificationInfo -> Option<string>)
      requires !syncDone && q == [] && from == [] && Distinct(nInfoArr)
      modifies this`syncDone, this`q, this`from, nInfoArr`cache
      ensures Stream(|nInfoArr|) && FirstRound(read)
    {
      hide Last, Changing;
      Silent();
      var i := 0;
      while i < |nInfoArr|
        invariant i <= |nInfoArr| && Stream(i) && |q| == i
        invariant forall k :: 0 <= k < i ==> q[k] == Msg(nInfoArr[k].path, Json(read(nInfoArr[k])), k == |nInfoArr| - 1)
      {
        SendFirst(i, read(nInfoArr[i]));
        i := i + 1;
      }
    }

    method SendFirst(i: nat, read: Option<string>)
      requires i < |nInfoArr| && Stream(i) && |q| == i && Distinct(nInfoArr)
      modifies this`syncDone, this`q, this`from, nInfoArr`cache
      ensures Stream(i + 1) && q == old(q) + [Msg(nInfoArr[i].path, Json(read), i == |nInfoArr| - 1)]
    {
      hide Last, Changing;
      var nInfo := nInfoArr[i];
      ghost var msg := Msg(nInfo.path, Json(read), i == |nInfoArr| - 1);
      forall n: NotificationInfo
        ensures Last(q + [msg], from + [nInfo], n) == if nInfo == n then Some(msg.payload) else Last(q, from, n) {
        LastPush(q, from, msg, nInfo, n);
      }
      LastPush(q, from, msg, nInfo, nInfo);
      assert from == nInfoArr[..i];
      LastNone(q, from, nInfo);
      assert from + [nInfo] == nInfoArr[..i + 1];
      UpdateCache(nInfo, read);
      if i == |nInfoArr| - 1 { syncDone := true; }
      SendNotification(nInfo);
    }

    method SendNotification(nInfo: NotificationInfo)
      requires |q| == |from|
      modifies this`q, this`from
      ensures q == old(q) + [Msg(nInfo.path, nInfo.cache, syncDone)] && from == old(from) + [nInfo]
    {
      q := q + [Msg(nInfo.path, nInfo.cache, syncDone)];
      from := from + [nInfo];
    }
  }

  method UpdateCache(nInfo: NotificationInfo, read: Option<string>)
    modifies nInfo`cache
    ensures nInfo.cache == Json(read)
  {
    if read.Some? { nInfo.cache := read.value; } else { nInfo.cache := "{}"; }
  }

  lemma Silent()
    ensures Changing([], []) && forall n :: Last([], [], n) == None
  {
  }

  method IsCacheChanged(nInfo: NotificationInfo, read: Option<string>) returns (changed: bool)
    modifies nInfo`cache
    ensures nInfo.cache == Json(read) && (changed <==> old(nInfo.cache) != Json(read))
  {
    var json := if read.Some? then read.value else "{}";
    if nInfo.cache == json { return false; }
    nInfo.cache := json;
    return true;
  }

  lemma LastPush(q: seq<Msg>, from: seq<NotificationInfo>, m: Msg, f: NotificationInfo, n: NotificationInfo)
    requires |q| == |from|
    ensures Last(q + [m], from + [f], n) == if f == n then Some(m.payload) else Last(q, from, n)
    ensures Changing(q + [m], from + [f]) <==> Changing(q, from) && Last(q, from, f) != Some(m.payload)
  {
    assert (q + [m])[..|q|] == q && (from + [f])[..|q|] == from;
  }

  lemma {:induction false} LastNone(q: seq<Msg>, from: seq<NotificationInfo>, n: NotificationInfo)
    requires |q| == |from| && n !in from
    ensures Last(q, from, n) == None
  {
    if q != [] { LastNone(q[..|q| - 1], from[..|q| - 1], n); }
  }

  lemma {:induction false} LastAt(q: seq<Msg>, from: seq<NotificationInfo>, i: nat)
    requires |q| == |from| && i < |q| && from[i] !in from[i + 1..]
    ensures Last(q, from, from[i]) == Some(q[i].payload)
  {
    var k := |q| - 1;
    if i < k {
      assert from[k] == from[i + 1..][k - i - 1];
      assert from[..k][i + 1..] == from[i + 1..][..k - i - 1];
      LastAt(q[..k], from[..k], i);
    }
  }

  // Two messages of one entry without a third between them differ
  lemma {:induction false} ConsecutiveDiffer(q: seq<Msg>, from: seq<NotificationInfo>, i: nat, j: nat)
    requires |q| == |from| && Changing(q, from) && i < j < |q| && from[i] == from[j] && from[i] !in from[i + 1..j]
    ensures q[i].payload != q[j].payload
  {
    var k := |q| - 1;
    if j < k {
      assert from[..k][i + 1..j] == from[i + 1..j];
      ConsecutiveDiffer(q[..k], from[..k], i, j);
    } else {
      assert from[..k][i + 1..] == from[i + 1..j];
      LastAt(q[..k], from[..k], i);
    }
  }

  // What a subscriber has been sent: first each of its entries in order, then changes only. The sync flag is off in all
  // but the last message of the initial round, and the last message of an entry is what its path held when it was read.
  lemma StreamMeaning(s: SubscribeInfo)
    requires s.Stream(|s.nInfoArr|)
    ensures |s.from| == |s.q| >= |s.nInfoArr| && forall i :: 0 <= i < |s.nInfoArr| ==> s.from[i] == s.nInfoArr[i]
    ensures forall i :: 0 <= i < |s.q| ==> s.from[i] in s.nInfoArr && (s.q[i].syncComplete <==> i >= |s.nInfoArr| - 1)
    ensures forall i, j :: 0 <= i < j < |s.q| && s.from[i] == s.from[j] && s.from[i] !in s.from[i + 1..j] ==>
      s.q[i].payload != s.q[j].payload
    ensures forall i :: 0 <= i < |s.q| && s.from[i] !in s.from[i + 1..] ==> s.q[i].payload == s.from[i].cache
  {
    var q, from, k := s.q, s.from, |s.nInfoArr|;
    assert s.nInfoArr[..k] == s.nInfoArr;
    hide Last, Changing;
    forall i | 0 <= i < k ensures from[i] == s.nInfoArr[i] { assert from[..k][i] == s.nInfoArr[..k][i]; }
    forall i: nat, j: nat | i < j < |q| && from[i] == from[j] && from[i] !in from[i + 1..j]
      ensures q[i].payload != q[j].payload
    {
      ConsecutiveDiffer(q, from, i, j);
    }
    forall i: nat | i < |q| && from[i] !in from[i + 1..] ensures q[i].payload == from[i].cache {
      LastAt(q, from, i);
      var m :| 0 <= m < k && s.nInfoArr[m] == from[i];
    }
  }

  // The first round: the path of each entry with what it holds, or with an empty object when it cannot be read
  lemma FirstRoundMeaning(s: SubscribeInfo, read: NotificationInfo -> Option<string>)
    requires s.FirstRound(read)
    ensures |s.q| == |s.nInfoArr| && forall i :: 0 <= i < |s.q| ==>
      s.q[i].path == s.nInfoArr[i].path && (s.q[i].syncComplete <==> i == |s.q| - 1)
      && s.q[i].payload == match read(s.nInfoArr[i]) case Some(json) => json case None => "{}"
  {
  }

  // ---- the registries ----

  type NMap = map<SKey, NotificationInfo>
  type SMap = map<NotificationInfo, SubscribeInfo>
  type StopMap = map<Chan, SubscribeInfo>

  // The three maps describe the same subscriptions
  ghost predicate Links(nm: NMap, sm: SMap, st: StopMap)
    reads nm.Values`sKey, sm.Keys`sKey, sm.Values`nInfoArr, st.Values`nInfoArr
  {
    (forall k :: k in nm ==> nm[k].sKey == k && nm[k] in sm)
    && (forall n :: n in sm ==>
      n.sKey != null && n.sKey in nm && nm[n.sKey] == n && n in sm[n].nInfoArr && sm[n].stop in st
        && st[sm[n].stop] == sm[n])
    && forall c :: c in st ==>
      st[c].stop == c && Distinct(st[c].nInfoArr) && forall n :: n in st[c].nInfoArr ==> n in sm && sm[n] == st[c]
  }

  // nm with the entries a under their keys
  ghost function WithKeys(nm: NMap, a: seq<NotificationInfo>, keys: seq<SKey>): NMap
    requires |a| == |keys|
  {
    if a == [] then nm else WithKeys(nm, a[..|a| - 1], keys[..|a| - 1])[keys[|a| - 1] := a[|a| - 1]]
  }

  // sm with the entries a of the subscriber s
  ghost function WithEntries(sm: SMap, a: seq<NotificationInfo>, s: SubscribeInfo): SMap {
    if a == [] then sm else WithEntries(sm, a[..|a| - 1], s)[a[|a| - 1] := s]
  }

  lemma PushEntry(nm: NMap, sm: SMap, a: seq<NotificationInfo>, keys: seq<SKey>, s: SubscribeInfo, n: NotificationInfo,
    k: SKey)
    requires |a| == |keys|
    ensures WithKeys(nm, a + [n], keys + [k]) == WithKeys(nm, a, keys)[k := n]
    ensures WithEntries(sm, a + [n], s) == WithEntries(sm, a, s)[n := s]
  {
    assert (a + [n])[..|a|] == a && (keys + [k])[..|a|] == keys;
  }

  lemma {:induction false} Joined(nm: NMap, sm: SMap, a: seq<NotificationInfo>, keys: seq<SKey>, s: SubscribeInfo,
    b: seq<NotificationInfo>, keys2: seq<SKey>)
    requires |a| == |keys| && |b| == |keys2|
    ensures WithKeys(WithKeys(nm, a, keys), b, keys2) == WithKeys(nm, a + b, keys + keys2)
    ensures WithEntries(WithEntries(sm, a, s), b, s) == WithEntries(sm, a + b, s)
    decreases |b|
  {
    if b == [] {
      assert a + b == a && keys + keys2 == keys;
    } else {
      var k := |b| - 1;
      Joined(nm, sm, a, keys, s, b[..k], keys2[..k]);
      assert a + b == (a + b[..k]) + [b[k]] && keys + keys2 == (keys + keys2[..k]) + [keys2[k]];
      PushEntry(nm, sm, a + b[..k], keys + keys2[..k], s, b[k], keys2[k]);
    }
  }

  lemma {:induction false} WithKeysAt(nm: NMap, a: seq<NotificationInfo>, keys: seq<SKey>)
    requires |a| == |keys| && Distinct(keys)
    ensures WithKeys(nm, a, keys).Keys == nm.Keys + Elems(keys)
    ensures forall i :: 0 <= i < |a| ==> keys[i] in WithKeys(nm, a, keys) && WithKeys(nm, a, keys)[keys[i]] == a[i]
    ensures forall k :: k in nm && k !in keys ==> WithKeys(nm, a, keys)[k] == nm[k]
  {
    if a != [] {
      var k := |a| - 1;
      var b, keys2 := a[..k], keys[..k];
      assert keys == keys2 + [keys[k]] && a == b + [a[k]];
      WithKeysAt(nm, b, keys2);
      WithKeyAt(nm, b, keys2, a[k], keys[k]);
    }
  }

  lemma WithKeyAt(nm: NMap, a: seq<NotificationInfo>, keys: seq<SKey>, n: NotificationInfo, k: SKey)
    requires |a| == |keys| && k !in keys && WithKeys(nm, a, keys).Keys == nm.Keys + Elems(keys)
    requires forall i :: 0 <= i < |a| ==> keys[i] in WithKeys(nm, a, keys) && WithKeys(nm, a, keys)[keys[i]] == a[i]
    requires forall k :: k in nm && k !in keys ==> WithKeys(nm, a, keys)[k] == nm[k]
    ensures var w, keys2, a2 := WithKeys(nm, a, keys)[k := n], keys + [k], a + [n];
      w.Keys == nm.Keys + Elems(keys2)
      && (forall i :: 0 <= i < |a2| ==> keys2[i] in w && w[keys2[i]] == a2[i])
      && forall k :: k in nm && k !in keys2 ==> w[k] == nm[k]
  {
    hide WithKeys;
    assert Elems(keys + [k]) == Elems(keys) + {k};
  }

  lemma {:induction false} WithEntriesAt(sm: SMap, a: seq<NotificationInfo>, s: SubscribeInfo)
    ensures WithEntries(sm, a, s) == map n | n in sm.Keys + Elems(a) :: if n in a then s else sm[n]
  {
    if a != [] {
      var k := |a| - 1;
      WithEntriesAt(sm, a[..k], s);
      assert a == a[..k] + [a[k]];
    }
  }

  ghost function KeysOf(a: seq<NotificationInfo>): set<SKey>
    reads a`sKey
  {
    set n | n in a && n.sKey != null :: n.sKey
  }

  lemma NoEntries(a: seq<NotificationInfo>)
    ensures KeysOf(a[..0]) == {} && Elems(a[..0]) == {}
  {
  }

  lemma OneMoreEntry(a: seq<NotificationInfo>, i: nat)
    requires i < |a|
    ensures KeysOf(a[..i + 1]) == KeysOf(a[..i]) + if a[i].sKey == null then {} else {a[i].sKey}
    ensures Elems(a[..i + 1]) == Elems(a[..i]) + {a[i]}
  {
    assert a[..i + 1] == a[..i] + [a[i]];
  }

  // Taking one subscriber out leaves the others linked
  lemma LinksWithout(nm: NMap, sm: SMap, st: StopMap, c: Chan)
    requires Links(nm, sm, st) && c in st
    ensures Links(nm - KeysOf(st[c].nInfoArr), sm - Elems(st[c].nInfoArr), st - {c})
    ensures sm - Elems(st[c].nInfoArr) == map n | n in sm && sm[n] != st[c] :: sm[n]
    ensures nm - KeysOf(st[c].nInfoArr) == map k | k in nm && sm[nm[k]] != st[c] :: nm[k]
  {
    var a := st[c].nInfoArr;
    forall k | k in nm ensures k in KeysOf(a) <==> nm[k] in a {}
    forall n | n in sm ensures n in Elems(a) <==> sm[n] == st[c] {}
  }

  // s with its entries and keys is new to the maps
  ghost predicate New(nm: NMap, sm: SMap, st: StopMap, s: SubscribeInfo, keys: seq<SKey>)
    reads s`nInfoArr, s.nInfoArr`sKey
  {
    s.stop !in st && s !in st.Values && |keys| == |s.nInfoArr|
    && Distinct(keys) && Elems(keys) !! nm.Keys && Distinct(s.nInfoArr) && Elems(s.nInfoArr) !! sm.Keys
    && forall i :: 0 <= i < |keys| ==> s.nInfoArr[i].sKey == keys[i]
  }

  lemma NewKey(nm: NMap, sm: SMap, st: StopMap, s: SubscribeInfo, keys: seq<SKey>, k: SKey)
    requires Links(nm, sm, st) && New(nm, sm, st, s, keys) && k in WithKeys(nm, s.nInfoArr, keys)
    ensures var n := WithKeys(nm, s.nInfoArr, keys)[k]; n.sKey == k && n in WithEntries(sm, s.nInfoArr, s)
  {
    WithKeysAt(nm, s.nInfoArr, keys);
    WithEntriesAt(sm, s.nInfoArr, s);
    hide WithKeys, WithEntries;
    if k in keys { var i :| 0 <= i < |keys| && keys[i] == k; }
  }

  lemma NewEntry(nm: NMap, sm: SMap, st: StopMap, s: SubscribeInfo, keys: seq<SKey>, n: NotificationInfo)
    requires Links(nm, sm, st) && New(nm, sm, st, s, keys) && n in WithEntries(sm, s.nInfoArr, s)
    ensures n.sKey != null && n.sKey in WithKeys(nm, s.nInfoArr, keys) && WithKeys(nm, s.nInfoArr, keys)[n.sKey] == n
    ensures var t := WithEntries(sm, s.nInfoArr, s)[n];
      n in t.nInfoArr && t.stop in st[s.stop := s] && st[s.stop := s][t.stop] == t
  {
    WithKeysAt(nm, s.nInfoArr, keys);
    WithEntriesAt(sm, s.nInfoArr, s);
    hide WithKeys, WithEntries;
    if n in s.nInfoArr {
      var i :| 0 <= i < |s.nInfoArr| && s.nInfoArr[i] == n;
    } else {
      assert n in sm && n.sKey in nm && n.sKey !in Elems(keys);
    }
  }

  lemma NewChan(nm: NMap, sm: SMap, st: StopMap, s: SubscribeInfo, keys: seq<SKey>, c: Chan)
    requires Links(nm, sm, st) && New(nm, sm, st, s, keys) && c in st[s.stop := s]
    ensures var t := st[s.stop := s][c];
      t.stop == c && Distinct(t.nInfoArr)
      && forall n :: n in t.nInfoArr ==> n in WithEntries(sm, s.nInfoArr, s) && WithEntries(sm, s.nInfoArr, s)[n] == t
  {
    WithEntriesAt(sm, s.nInfoArr, s);
    hide WithEntries;
    if c != s.stop {
      forall n | n in st[c].nInfoArr ensures n in sm && n !in Elems(s.nInfoArr) {}
    }
  }

  // A new subscriber under a new channel is linked with the others
  lemma LinksWith(nm: NMap, sm: SMap, st: StopMap, s: SubscribeInfo, keys: seq<SKey>)
    requires Links(nm, sm, st) && New(nm, sm, st, s, keys)
    ensures Links(WithKeys(nm, s.nInfoArr, keys), WithEntries(sm, s.nInfoArr, s), st[s.stop := s])
  {
    hide WithKeys, WithEntries, Distinct, Elems;
    assert |keys| == |s.nInfoArr|;
    hide New;
    var nm2, sm2, st2 := WithKeys(nm, s.nInfoArr, keys), WithEntries(sm, s.nInfoArr, s), st[s.stop := s];
    forall k | k in nm2 ensures nm2[k].sKey == k && nm2[k] in sm2 { NewKey(nm, sm, st, s, keys, k); }
    forall n | n in sm2
      ensures n.sKey != null && n.sKey in nm2 && nm2[n.sKey] == n && n in sm2[n].nInfoArr && sm2[n].stop in st2
        && st2[sm2[n].stop] == sm2[n]
    {
      NewEntry(nm, sm, st, s, keys, n);
    }
    forall c | c in st2
      ensures st2[c].stop == c && Distinct(st2[c].nInfoArr) && forall n :: n in st2[c].nInfoArr ==>
        n in sm2 && sm2[n] == st2[c]
    {
      NewChan(nm, sm, st, s, keys, c);
    }
  }

  // The entries of some databases
  ghost function EntriesOf(m: map<nat, seq<NotificationInfo>>, dbs: set<nat>): set<NotificationInfo> {
    set d, n | d in dbs && d in m && n in m[d] :: n
  }

  // Every entry is listed once, and none is subscribed yet
  ghost predicate Separate(m: map<nat, seq<NotificationInfo>>, sm: SMap) {
    (forall d :: d in m ==> Distinct(m[d]) && Elems(m[d]) !! sm.Keys)
    && forall d, e :: d in m && e in m && d != e ==> Elems(m[d]) !! Elems(m[e])
  }

  lemma OneMoreDb(m: map<nat, seq<NotificationInfo>>, dbs: set<nat>, d: nat)
    requires d in m
    ensures EntriesOf(m, dbs + {d}) == EntriesOf(m, dbs) + Elems(m[d])
  {
  }

  lemma DbApart(m: map<nat, seq<NotificationInfo>>, sm: SMap, dbs: set<nat>, d: nat)
    requires Separate(m, sm) && d in m && d !in dbs
    ensures EntriesOf(m, dbs) !! Elems(m[d]) && EntriesOf(m, dbs) !! sm.Keys
  {
    forall n | n in EntriesOf(m, dbs) ensures n !in Elems(m[d]) && n !in sm {
      var e :| e in dbs && e in m && n in m[e];
      assert n in Elems(m[e]);
    }
  }

  lemma InElems<T>(a: seq<T>, x: T)
    ensures x in a <==> x in Elems(a)
  {
  }

  lemma Appended<T>(a: seq<T>, b: seq<T>)
    requires Distinct(a) && Distinct(b) && Elems(a) !! Elems(b)
    ensures Distinct(a + b) && Elems(a + b) == Elems(a) + Elems(b)
  {
    forall i, j | 0 <= i < j < |a + b| ensures (a + b)[i] != (a + b)[j] {
      if i < |a| <= j { assert a[i] in Elems(a) && b[j - |a|] in Elems(b); }
    }
  }

  // The maps after the databases dbs of s are registered under keys
  ghost predicate Registered(nm0: NMap, sm0: SMap, m: map<nat, seq<NotificationInfo>>, dbs: set<nat>, s: SubscribeInfo,
    keys: seq<SKey>,
    nm: NMap, sm: SMap)
    reads s`nInfoArr, s.nInfoArr`sKey
  {
    |keys| == |s.nInfoArr| && Distinct(keys) && Elems(keys) !! nm0.Keys && Distinct(s.nInfoArr)
      && Elems(s.nInfoArr) == EntriesOf(m, dbs)
    && (forall i :: 0 <= i < |keys| ==> s.nInfoArr[i].sKey == keys[i])
    && nm == WithKeys(nm0, s.nInfoArr, keys) && sm == WithEntries(sm0, s.nInfoArr, s)
  }

  // What is registered before one more database
  ghost predicate Sofar(nm0: NMap, sm0: SMap, m: map<nat, seq<NotificationInfo>>, dbs: set<nat>, s: SubscribeInfo,
    a: seq<NotificationInfo>,
    keys: seq<SKey>)
  {
    |keys| == |a| && Distinct(keys) && Elems(keys) !! nm0.Keys && Distinct(a) && Elems(a) == EntriesOf(m, dbs)
  }

  lemma BeforeOne(nm0: NMap, sm0: SMap, m: map<nat, seq<NotificationInfo>>, dbs: set<nat>, d: nat, s: SubscribeInfo,
    keys: seq<SKey>,
    nm: NMap, sm: SMap)
    requires Registered(nm0, sm0, m, dbs, s, keys, nm, sm) && Separate(m, sm0) && d in m && d !in dbs
    ensures Sofar(nm0, sm0, m, dbs, s, s.nInfoArr, keys) && Distinct(m[d]) && Elems(m[d]) !! sm.Keys
      && Elems(m[d]) !! Elems(s.nInfoArr)
    ensures forall i :: 0 <= i < |s.nInfoArr| ==> s.nInfoArr[i] !in m[d] && s.nInfoArr[i].sKey == keys[i]
    ensures nm == WithKeys(nm0, s.nInfoArr, keys) && sm == WithEntries(sm0, s.nInfoArr, s)
      && nm.Keys == nm0.Keys + Elems(keys)
  {
    hide EntriesOf, Separate;
    DbApart(m, sm0, dbs, d);
    OneSeparate(m, sm0, d);
    WithEntriesAt(sm0, s.nInfoArr, s);
    WithKeysAt(nm0, s.nInfoArr, keys);
    hide WithKeys, WithEntries, Distinct;
    forall i | 0 <= i < |s.nInfoArr| ensures s.nInfoArr[i] !in m[d] { assert s.nInfoArr[i] in Elems(s.nInfoArr); }
  }

  lemma OneSeparate(m: map<nat, seq<NotificationInfo>>, sm: SMap, d: nat)
    requires Separate(m, sm) && d in m
    ensures Distinct(m[d]) && Elems(m[d]) !! sm.Keys
  {
  }

  lemma OneRegistered(nm0: NMap, sm0: SMap, m: map<nat, seq<NotificationInfo>>, dbs: set<nat>, d: nat, s: SubscribeInfo,
    a: seq<NotificationInfo>, keys: seq<SKey>, more: seq<SKey>)
    requires Sofar(nm0, sm0, m, dbs, s, a, keys) && d in m && Distinct(m[d]) && Elems(m[d]) !! Elems(a)
      && s.nInfoArr == a + m[d]
    requires |more| == |m[d]| && Distinct(more) && Elems(more) !! nm0.Keys + Elems(keys)
    requires (forall i :: 0 <= i < |a| ==> a[i].sKey == keys[i]) && forall i :: 0 <= i < |more| ==>
      m[d][i].sKey == more[i]
    ensures Registered(nm0, sm0, m, dbs + {d}, s, keys + more,
      WithKeys(WithKeys(nm0, a, keys), m[d], more), WithEntries(WithEntries(sm0, a, s), m[d], s))
  {
    hide WithKeys, WithEntries, EntriesOf, Distinct, Elems;
    Appended(a, m[d]);
    Appended(keys, more);
    Joined(nm0, sm0, a, keys, s, m[d], more);
    OneMoreDb(m, dbs, d);
  }

  lemma Unregistered(nm0: NMap, sm0: SMap, m: map<nat, seq<NotificationInfo>>, dbs: set<nat>, s: SubscribeInfo,
    keys: seq<SKey>)
    requires Sofar(nm0, sm0, m, dbs, s, s.nInfoArr, keys) && forall i :: 0 <= i < |keys| ==>
      s.nInfoArr[i].sKey == keys[i]
    ensures Registered(nm0, sm0, m, dbs, s, keys, WithKeys(nm0, s.nInfoArr, keys), WithEntries(sm0, s.nInfoArr, s))
  {
  }

  // The entries of a new subscriber are in nobody's way
  lemma NotMine(nm: NMap, sm: SMap, st: StopMap, s: SubscribeInfo, m: map<nat, seq<NotificationInfo>>)
    requires Links(nm, sm, st) && s !in st.Values && Separate(m, sm)
    ensures nm.Values !! EntriesOf(m, m.Keys) && sm.Keys !! EntriesOf(m, m.Keys) && s !in sm.Values
    ensures Apart(s, st, EntriesOf(m, m.Keys))
  {
    AllApart(m, sm, m.Keys);
    hide EntriesOf, Separate, Distinct;
  }

  lemma AllApart(m: map<nat, seq<NotificationInfo>>, sm: SMap, dbs: set<nat>)
    requires Separate(m, sm)
    ensures sm.Keys !! EntriesOf(m, dbs)
  {
    forall n | n in EntriesOf(m, dbs) ensures n !in sm {
      var e :| e in dbs && e in m && n in m[e];
      assert n in Elems(m[e]);
    }
  }

  lemma Restored(nm0: NMap, sm0: SMap, m: map<nat, seq<NotificationInfo>>, dbs: set<nat>, s: SubscribeInfo,
    keys: seq<SKey>, nm: NMap, sm: SMap)
    requires Registered(nm0, sm0, m, dbs, s, keys, nm, sm) && Separate(m, sm0)
    ensures nm - KeysOf(s.nInfoArr) == nm0 && sm - Elems(s.nInfoArr) == sm0
  {
    AllApart(m, sm0, dbs);
    var a := s.nInfoArr;
    hide EntriesOf, Separate, WithKeys, WithEntries;
    assert KeysOf(a) == Elems(keys) by {
      forall k | k in keys ensures k in KeysOf(a) { var i :| 0 <= i < |keys| && keys[i] == k; assert a[i] in a; }
    }
    TakenOut(nm0, sm0, a, keys, s);
  }

  lemma OnlyMine(nm0: NMap, sm0: SMap, st0: StopMap, m: map<nat, seq<NotificationInfo>>, s: SubscribeInfo,
    keys: seq<SKey>, nm: NMap, sm: SMap)
    requires Registered(nm0, sm0, m, m.Keys, s, keys, nm, sm) && Separate(m, sm0) && s !in st0.Values
    ensures s.stop !in st0 ==> New(nm0, sm0, st0, s, keys)
    ensures Distinct(s.nInfoArr) && Elems(s.nInfoArr) == EntriesOf(m, m.Keys) && |keys| == |s.nInfoArr|
    ensures nm == WithKeys(nm0, s.nInfoArr, keys) && sm == WithEntries(sm0, s.nInfoArr, s)
  {
    AllApart(m, sm0, m.Keys);
  }

  // Each entry is found under its own key, and what was found before still is
  ghost predicate Keyed(nm0: NMap, nm: NMap, a: seq<NotificationInfo>)
    reads a`sKey
  {
    (forall n :: n in a ==> n.sKey != null && n.sKey !in nm0 && n.sKey in nm && nm[n.sKey] == n)
    && forall k :: k in nm0 ==> k in nm && nm[k] == nm0[k]
  }

  lemma RegisteredKeyed(nm0: NMap, sm0: SMap, m: map<nat, seq<NotificationInfo>>, dbs: set<nat>, s: SubscribeInfo,
    keys: seq<SKey>, nm: NMap, sm: SMap)
    requires Registered(nm0, sm0, m, dbs, s, keys, nm, sm)
    ensures Keyed(nm0, nm, s.nInfoArr)
  {
    WithKeysAt(nm0, s.nInfoArr, keys);
    hide WithKeys, WithEntries, EntriesOf;
    forall n | n in s.nInfoArr ensures n.sKey != null && n.sKey !in nm0 && n.sKey in nm && nm[n.sKey] == n {
      var i :| 0 <= i < |s.nInfoArr| && s.nInfoArr[i] == n;
      assert keys[i] in Elems(keys);
    }
  }

  lemma RegisteredNone(nm: NMap, sm: SMap, m: map<nat, seq<NotificationInfo>>, s: SubscribeInfo)
    requires s.nInfoArr == []
    ensures Registered(nm, sm, m, {}, s, [], nm, sm)
  {
  }

  // Taking new entries out again
  lemma TakenOut(nm: NMap, sm: SMap, a: seq<NotificationInfo>, keys: seq<SKey>, s: SubscribeInfo)
    requires |a| == |keys| && Distinct(keys) && Elems(keys) !! nm.Keys && Elems(a) !! sm.Keys
    ensures WithKeys(nm, a, keys) - Elems(keys) == nm && WithEntries(sm, a, s) - Elems(a) == sm
  {
    WithKeysAt(nm, a, keys);
    WithEntriesAt(sm, a, s);
  }

  // The entries mine are those of nobody but s
  ghost predicate Apart(s: SubscribeInfo, st: StopMap, mine: set<NotificationInfo>)
    reads st.Values`nInfoArr
  {
    forall c :: c in st ==> st[c] != s && forall n :: n in st[c].nInfoArr ==> n !in mine
  }

  class Registry {
    var nMap: NMap
    var sMap: SMap
    var stopMap: StopMap

    ghost predicate Linked()
      reads this, nMap.Values`sKey, sMap.Keys`sKey, sMap.Values`nInfoArr, stopMap.Values`nInfoArr
    {
      Links(nMap, sMap, stopMap)
    }

    ghost predicate Valid()
      reads this, nMap.Values, sMap.Keys, sMap.Values, stopMap.Values
    {
      Linked() && forall c :: c in stopMap ==> stopMap[c].Stream(|stopMap[c].nInfoArr|)
    }

    constructor ()
      ensures Valid() && nMap == map[] && sMap == map[] && stopMap == map[]
    {
      nMap, sMap, stopMap := map[], map[], map[];
    }

    function Entry(sKey: SKey): set<NotificationInfo>
      reads this
    {
      if sKey in nMap then {nMap[sKey]} else {}
    }

    function Subscriber(sKey: SKey): set<SubscribeInfo>
      reads this
    {
      if sKey in nMap && nMap[sKey] in sMap then {sMap[nMap[sKey]]} else {}
    }

    lemma OfKey(sKey: SKey)
      requires Linked() && sKey in nMap
      ensures nMap[sKey] in sMap && nMap[sKey] in sMap[nMap[sKey]].nInfoArr
    {
    }

    lemma Arrays()
      requires Linked()
      ensures forall c :: c in stopMap ==> Distinct(stopMap[c].nInfoArr)
    {
    }

    lemma Others(sInfo: SubscribeInfo, nInfo: NotificationInfo)
      requires Linked() && nInfo in sMap && sMap[nInfo] == sInfo
      ensures sInfo.stop in stopMap && stopMap[sInfo.stop] == sInfo
      ensures forall c :: c in stopMap && stopMap[c] != sInfo ==> nInfo !in stopMap[c].nInfoArr
    {
    }

    // A key space event; read is what the path holds by then. Unknown keys notify nobody.
    method NotificationHandler(sKey: SKey, read: Option<string>)
      requires Valid()
      modifies Entry(sKey), Subscriber(sKey)
      ensures Valid()
      ensures sKey in nMap ==>
        var n := nMap[sKey];
        var s := sMap[n];
        n.cache == Json(read) && s.q == old(s.q) + if old(n.cache) == Json(read) then []
          else [Msg(n.path, Json(read), true)]
    {
      hide SubscribeInfo.Stream, Last, Changing, Synced, Distinct, Linked;
      Arrays();
      if sKey in nMap {
        OfKey(sKey);
        var nInfo := nMap[sKey];
        if nInfo in sMap {
          var sInfo := sMap[nInfo];
          Others(sInfo, nInfo);
          sInfo.Notify(nInfo, read);
          forall c | c in stopMap ensures stopMap[c].Stream(|stopMap[c].nInfoArr|) {
            assert old(allocated(stopMap[c]));
            assert old(stopMap[c].Stream(|stopMap[c].nInfoArr|));
          }
        }
      }
    }

    // read is what each path holds when the initial round reaches it. When a database fails, the maps are as before,
    // provided that nobody was registered under the same channel; nothing is sent.
    method StartSubscribe(sInfo: SubscribeInfo, m: map<nat, seq<NotificationInfo>>, works: nat -> bool,
      read: NotificationInfo -> Option<string>)
      returns (ok: bool)
      requires Valid() && sInfo.Unused() && sInfo.from == [] && sInfo !in stopMap.Values && Separate(m, sMap)
      modifies this, sInfo, EntriesOf(m, m.Keys)
      ensures ok <==> forall d :: d in m ==> works(d)
      ensures sInfo.stop !in old(stopMap) ==> Valid()
      ensures !ok ==> nMap == old(nMap) && sMap == old(sMap) && stopMap == old(stopMap) - {sInfo.stop} && sInfo.q == []
      ensures ok ==>
        stopMap == old(stopMap)[sInfo.stop := sInfo] && sMap == WithEntries(old(sMap), sInfo.nInfoArr, sInfo)
      ensures ok ==> Distinct(sInfo.nInfoArr) && Elems(sInfo.nInfoArr) == EntriesOf(m, m.Keys) && sInfo.FirstRound(read)
      ensures ok ==> Keyed(old(nMap), nMap, sInfo.nInfoArr)
    {
      hide Keyed, Links, SubscribeInfo.Stream, SubscribeInfo.FirstRound, WithKeys, WithEntries, EntriesOf, Distinct,
        Elems, Separate, Apart;
      ghost var st0 := stopMap;
      ok := RegisterLinked(sInfo, m, works);
      if ok { FirstMessages(sInfo, read, st0, EntriesOf(m, m.Keys)); }
      assert sInfo.stop !in st0 ==> forall c :: c in stopMap ==> c in st0 || (ok && stopMap[c] == sInfo);
    }

    // The registration keeps the maps linked and the streams of the others
    method RegisterLinked(sInfo: SubscribeInfo, m: map<nat, seq<NotificationInfo>>, works: nat -> bool)
      returns (ok: bool)
      requires Valid() && sInfo.nInfoArr == [] && sInfo !in stopMap.Values && Separate(m, sMap)
      modifies this, sInfo`nInfoArr, EntriesOf(m, m.Keys)`sKey
      ensures ok <==> forall d :: d in m ==> works(d)
      ensures sInfo.stop !in old(stopMap) ==> Linked()
      ensures Apart(sInfo, old(stopMap), EntriesOf(m, m.Keys))
      ensures forall c :: c in old(stopMap) ==> old(stopMap)[c].Stream(|old(stopMap)[c].nInfoArr|)
      ensures if ok then stopMap == old(stopMap)[sInfo.stop := sInfo] else stopMap == old(stopMap) - {sInfo.stop}
      ensures sInfo.stop !in old(stopMap) && !ok ==> stopMap == old(stopMap)
      ensures !ok ==> nMap == old(nMap) && sMap == old(sMap)
      ensures ok ==> sMap == WithEntries(old(sMap), sInfo.nInfoArr, sInfo) && Keyed(old(nMap), nMap, sInfo.nInfoArr)
      ensures ok ==> Distinct(sInfo.nInfoArr) && Elems(sInfo.nInfoArr) == EntriesOf(m, m.Keys)
      ensures ok ==> forall n :: n in sInfo.nInfoArr ==> n in EntriesOf(m, m.Keys)
    {
      hide Keyed, Links, SubscribeInfo.Stream, WithKeys, WithEntries, EntriesOf, Distinct, Elems, Separate, New;
      ghost var nm0, sm0, st0 := nMap, sMap, stopMap;
      NotMine(nm0, sm0, st0, sInfo, m);
      ghost var keys;
      ok, keys := RegisterOrUndo(sInfo, m, works);
      assert Links(nm0, sm0, st0);
      if ok {
        if sInfo.stop !in st0 { LinksWith(nm0, sm0, st0, sInfo, keys); }
      } else {
        assert sInfo.stop !in st0 ==> stopMap == st0;
      }
      forall c | c in st0 ensures st0[c].Stream(|st0[c].nInfoArr|) {
        assert old(allocated(st0[c]));
        assert forall i :: 0 <= i < |st0[c].nInfoArr| ==> st0[c].nInfoArr[i] in st0[c].nInfoArr;
        assert old(st0[c].Stream(|st0[c].nInfoArr|));
      }
    }

    // The initial round leaves the streams of the others alone
    method FirstMessages(sInfo: SubscribeInfo, read: NotificationInfo -> Option<string>, ghost st: StopMap,
      ghost mine: set<NotificationInfo>)
      requires !sInfo.syncDone && sInfo.q == [] && sInfo.from == [] && Distinct(sInfo.nInfoArr)
      requires (forall n :: n in sInfo.nInfoArr ==> n in mine) && Apart(sInfo, st, mine) && forall c :: c in st ==>
        st[c].Stream(|st[c].nInfoArr|)
      modifies sInfo`syncDone, sInfo`q, sInfo`from, sInfo.nInfoArr`cache
      ensures (forall c :: c in st ==> st[c].Stream(|st[c].nInfoArr|)) && sInfo.Stream(|sInfo.nInfoArr|)
        && sInfo.FirstRound(read)
    {
      hide SubscribeInfo.Stream, SubscribeInfo.FirstRound, Distinct;
      sInfo.InitialRound(read);
      forall c | c in st ensures st[c].Stream(|st[c].nInfoArr|) {
        assert old(allocated(st[c]));
        assert forall i :: 0 <= i < |st[c].nInfoArr| ==> st[c].nInfoArr[i] in st[c].nInfoArr;
        assert old(st[c].Stream(|st[c].nInfoArr|));
      }
    }

    // The registration alone: all of it, or nothing but the removal of the channel
    method RegisterOrUndo(sInfo: SubscribeInfo, m: map<nat, seq<NotificationInfo>>, works: nat -> bool)
      returns (ok: bool, ghost keys: seq<SKey>)
      requires sInfo.nInfoArr == [] && Separate(m, sMap) && sInfo !in stopMap.Values
      modifies this, sInfo`nInfoArr, EntriesOf(m, m.Keys)`sKey
      ensures ok <==> forall d :: d in m ==> works(d)
      ensures !ok ==> nMap == old(nMap) && sMap == old(sMap) && stopMap == old(stopMap) - {sInfo.stop}
      ensures ok && sInfo.stop !in old(stopMap) ==> New(old(nMap), old(sMap), old(stopMap), sInfo, keys)
      ensures ok ==>
        |keys| == |sInfo.nInfoArr| && Distinct(sInfo.nInfoArr) && Elems(sInfo.nInfoArr) == EntriesOf(m, m.Keys)
      ensures ok ==> forall n :: n in sInfo.nInfoArr ==> n in EntriesOf(m, m.Keys)
      ensures ok ==>
        nMap == WithKeys(old(nMap), sInfo.nInfoArr, keys) && sMap == WithEntries(old(sMap), sInfo.nInfoArr, sInfo)
      ensures ok ==> stopMap == old(stopMap)[sInfo.stop := sInfo] && Keyed(old(nMap), nMap, sInfo.nInfoArr)
    {
      hide WithKeys, WithEntries, EntriesOf, Registered, Keyed, Distinct, Elems, Separate, New, KeysOf;
      ghost var nm0, sm0, st0 := nMap, sMap, stopMap;
      stopMap := stopMap[sInfo.stop := sInfo];
      ghost var dbs;
      ok, dbs, keys := RegisterAll(sInfo, m, works);
      if !ok {
        Restored(nm0, sm0, m, dbs, sInfo, keys, nMap, sMap);
        Cleanup(sInfo.stop);
      } else {
        RegisteredKeyed(nm0, sm0, m, dbs, sInfo, keys, nMap, sMap);
        OnlyMine(nm0, sm0, st0, m, sInfo, keys, nMap, sMap);
        forall n | n in sInfo.nInfoArr ensures n in EntriesOf(m, m.Keys) { InElems(sInfo.nInfoArr, n); }
      }
    }

    // All databases in any order; the first that fails ends the registration
    method RegisterAll(sInfo: SubscribeInfo, m: map<nat, seq<NotificationInfo>>, works: nat -> bool)
      returns (ok: bool, ghost dbs: set<nat>, ghost keys: seq<SKey>)
      requires Separate(m, sMap) && sInfo.nInfoArr == []
      modifies this`nMap, this`sMap, sInfo`nInfoArr, EntriesOf(m, m.Keys)`sKey
      ensures dbs <= m.Keys && Registered(old(nMap), old(sMap), m, dbs, sInfo, keys, nMap, sMap)
      ensures (ok <==> forall d :: d in m ==> works(d)) && (ok ==> dbs == m.Keys)
    {
      ghost var nm0, sm0 := nMap, sMap;
      var left := m.Keys;
      keys := [];
      assert m.Keys - left == {};
      RegisteredNone(nm0, sm0, m, sInfo);
      while left != {}
        invariant left <= m.Keys && (forall d :: d in m && d !in left ==> works(d))
        invariant Registered(nm0, sm0, m, m.Keys - left, sInfo, keys, nMap, sMap)
      {
        var dbno :| dbno in left;
        forall n | n in m[dbno] ensures n in EntriesOf(m, m.Keys) {}
        hide Registered, Separate;
        ok, keys := RegisterOne(sInfo, m, dbno, works(dbno), nm0, sm0, m.Keys - left, keys);
        if !ok { return ok, m.Keys - left, keys; }
        assert m.Keys - (left - {dbno}) == m.Keys - left + {dbno};
        left := left - {dbno};
      }
      ok, dbs := true, m.Keys;
      assert m.Keys - left == m.Keys;
    }

    method RegisterOne(sInfo: SubscribeInfo, m: map<nat, seq<NotificationInfo>>, dbno: nat, works: bool,
      ghost nm0: NMap, ghost sm0: SMap, ghost dbs: set<nat>, ghost keys0: seq<SKey>)
      returns (ok: bool, ghost keys: seq<SKey>)
      requires dbno in m && dbno !in dbs && dbs <= m.Keys && Separate(m, sm0)
        && Registered(nm0, sm0, m, dbs, sInfo, keys0, nMap, sMap)
      modifies this`nMap, this`sMap, sInfo`nInfoArr, m[dbno]`sKey
      ensures ok == works
      ensures Registered(nm0, sm0, m, if ok then dbs + {dbno} else dbs, sInfo, keys, nMap, sMap)
    {
      hide WithKeys, WithEntries, EntriesOf, Registered, Distinct, Elems, Separate;
      ghost var a, nm1, sm1 := sInfo.nInfoArr, nMap, sMap;
      BeforeOne(nm0, sm0, m, dbs, dbno, sInfo, keys0, nMap, sMap);
      ghost var more;
      ok, more := StartDBSubscribe(m[dbno], sInfo, works);
      assert forall i :: 0 <= i < |a| ==> a[i].sKey == keys0[i];
      if ok {
        sInfo.nInfoArr := sInfo.nInfoArr + m[dbno];
        keys := keys0 + more;
        OneRegistered(nm0, sm0, m, dbs, dbno, sInfo, a, keys0, more);
      } else {
        keys := keys0;
        Unregistered(nm0, sm0, m, dbs, sInfo, keys0);
      }
    }

    // Registers the entries of one database; when its subscription fails they are taken out again
    method StartDBSubscribe(nInfoList: seq<NotificationInfo>, sInfo: SubscribeInfo, works: bool)
      returns (ok: bool, ghost keys: seq<SKey>)
      requires Distinct(nInfoList) && Elems(nInfoList) !! sMap.Keys
      modifies this`nMap, this`sMap, nInfoList`sKey
      ensures ok == works && |keys| == |nInfoList| && Distinct(keys) && Elems(keys) !! old(nMap.Keys)
        && fresh(Elems(keys))
      ensures forall i :: 0 <= i < |nInfoList| ==> nInfoList[i].sKey == keys[i]
      ensures if ok then nMap == WithKeys(old(nMap), nInfoList, keys)
        && sMap == WithEntries(old(sMap), nInfoList, sInfo)
        else nMap == old(nMap) && sMap == old(sMap)
    {
      hide WithKeys, WithEntries;
      ghost var nm0, sm0 := nMap, sMap;
      var sKeyList: seq<SKey>;
      sKeyList := AddAll(nInfoList, sInfo);
      keys := sKeyList;
      ok := works;
      if !ok {
        TakeOut(nInfoList, sKeyList);
        TakenOut(nm0, sm0, nInfoList, keys, sInfo);
      }
    }

    method AddAll(nInfoList: seq<NotificationInfo>, sInfo: SubscribeInfo) returns (sKeyList: seq<SKey>)
      requires Distinct(nInfoList)
      modifies this`nMap, this`sMap, nInfoList`sKey
      ensures |sKeyList| == |nInfoList| && Distinct(sKeyList) && fresh(Elems(sKeyList))
        && Elems(sKeyList) !! old(nMap.Keys)
      ensures forall i :: 0 <= i < |nInfoList| ==> nInfoList[i].sKey == sKeyList[i]
      ensures nMap == WithKeys(old(nMap), nInfoList, sKeyList) && sMap == WithEntries(old(sMap), nInfoList, sInfo)
    {
      ghost var nm0, sm0 := nMap, sMap;
      sKeyList := [];
      var i := 0;
      while i < |nInfoList|
        invariant i <= |nInfoList| && |sKeyList| == i && Distinct(sKeyList) && fresh(Elems(sKeyList))
        invariant forall k :: 0 <= k < i ==> nInfoList[k].sKey == sKeyList[k]
        invariant nMap == WithKeys(nm0, nInfoList[..i], sKeyList) && sMap == WithEntries(sm0, nInfoList[..i], sInfo)
      {
        hide WithKeys, WithEntries;
        var nInfo := nInfoList[i];
        var sKey := new SKey();
        assert nInfoList[..i + 1] == nInfoList[..i] + [nInfo];
        assert sKey !in Elems(sKeyList);
        PushEntry(nm0, sm0, nInfoList[..i], sKeyList, sInfo, nInfo, sKey);
        assert Elems(sKeyList + [sKey]) == Elems(sKeyList) + {sKey};
        sKeyList := sKeyList + [sKey];
        nInfo.sKey := sKey;
        nMap := nMap[sKey := nInfo];
        sMap := sMap[nInfo := sInfo];
        i := i + 1;
      }
      assert nInfoList[..i] == nInfoList;
    }

    // Forgets a subscriber; afterwards events on its keys reach nobody
    method Cleanup(stop: Chan)
      modifies this
      ensures stopMap == old(stopMap) - {stop}
      ensures if stop in old(stopMap) then
          nMap == old(nMap) - KeysOf(old(stopMap)[stop].nInfoArr)
            && sMap == old(sMap) - Elems(old(stopMap)[stop].nInfoArr)
        else nMap == old(nMap) && sMap == old(sMap)
    {
      hide KeysOf, Elems;
      if stop in stopMap {
        var sInfo := stopMap[stop];
        NoEntries(sInfo.nInfoArr);
        var i := 0;
        while i < |sInfo.nInfoArr|
          invariant i <= |sInfo.nInfoArr| && stopMap == old(stopMap)
          invariant nMap == old(nMap) - KeysOf(sInfo.nInfoArr[..i]) && sMap == old(sMap) - Elems(sInfo.nInfoArr[..i])
        {
          var nInfo := sInfo.nInfoArr[i];
          OneMoreEntry(sInfo.nInfoArr, i);
          if nInfo.sKey != null { nMap := nMap - {nInfo.sKey}; }
          sMap := sMap - {nInfo};
          i := i + 1;
        }
        assert sInfo.nInfoArr[..i] == sInfo.nInfoArr;
        stopMap := stopMap - {stop};
      }
    }

    // The stop channel is signalled: exactly the entries of its subscriber go
    method StopHandler(stop: Chan)
      requires Valid()
      modifies this
      ensures Valid() && stopMap == old(stopMap) - {stop}
      ensures stop in old(stopMap) ==>
        var s, sm, nm := old(stopMap)[stop], old(sMap), old(nMap);
        sMap == (map n | n in sm && sm[n] != s :: sm[n]) && nMap == map k | k in nm && sm[nm[k]] != s :: nm[k]
      ensures stop !in old(stopMap) ==> sMap == old(sMap) && nMap == old(nMap)
    {
      hide Links, SubscribeInfo.Stream;
      if stop in stopMap { LinksWithout(nMap, sMap, stopMap, stop); } else { assert stopMap - {stop} == stopMap; }
      Cleanup(stop);
      forall c | c in stopMap ensures stopMap[c].Stream(|stopMap[c].nInfoArr|) {
        assert old(allocated(stopMap[c]));
        assert stopMap[c] == old(stopMap)[c];
      }
    }

    method TakeOut(nInfoList: seq<NotificationInfo>, sKeyList: seq<SKey>)
      requires |nInfoList| == |sKeyList|
      modifies this`nMap, this`sMap
      ensures nMap == old(nMap) - Elems(sKeyList) && sMap == old(sMap) - Elems(nInfoList)
    {
      var i := 0;
      while i < |nInfoList|
        invariant i <= |nInfoList|
        invariant nMap == old(nMap) - Elems(sKeyList[..i]) && sMap == old(sMap) - Elems(nInfoList[..i])
      {
        assert Elems(sKeyList[..i + 1]) == Elems(sKeyList[..i]) + {sKeyList[i]};
        assert Elems(nInfoList[..i + 1]) == Elems(nInfoList[..i]) + {nInfoList[i]};
        nMap := nMap - {sKeyList[i]};
        sMap := sMap - {nInfoList[i]};
        i := i + 1;
      }
      assert nInfoList[..i] == nInfoList && sKeyList[..i] == sKeyList;
    }
  }

  // What is sent for a read that fails
  function Json(read: Option<string>): string { if read.Some? then read.value else "{}" }
}
