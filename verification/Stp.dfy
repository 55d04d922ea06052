// Spanning tree: global defaults, the VLANs that follow them, and the cap on instances (stp_app.go).
module Stp {
  import opened Wrappers
  import opened Numbers

  type Row = map<string, string>

  const PVST_MAX_INSTANCES := 255

  // STP|GLOBAL, absent while spanning tree is disabled, and STP_VLAN
  datatype State = State(global: Option<Row>, stpVlan: map<string, Row>)

  // Value.Get: an absent field reads as empty
  function Get(r: Row, field: string): string { if field in r then r[field] else "" }

  predicate Inherited(field: string) { field in {"forward_delay", "hello_time", "max_age", "priority"} }

  function VlanId(name: string): string { ReplaceFirst(name, "Vlan", "") }

  // The row of a VLAN that takes everything from the global values
  function DefaultRow(global: Row, vlan: string): Row {
    map["enabled" := "true", "forward_delay" := Get(global, "forward_delay"), "hello_time" := Get(global, "hello_time"),
      "max_age" := Get(global, "max_age"), "priority" := Get(global, "priority"), "vlanid" := VlanId(vlan)]
  }

  // CreateEntry writes the fields over what is stored; refused: the creates that validation turns down
  function Created(rows: map<string, Row>, global: Row, vlans: seq<string>, refused: set<string>): map<string, Row> {
    if vlans == [] then rows
    else
      var before := Created(rows, global, vlans[..|vlans| - 1], refused);
      var v := vlans[|vlans| - 1];
      if v in refused then before else before[v := (if v in before then before[v] else map[]) + DefaultRow(global, v)]
  }

  function Take(vlans: seq<string>, n: int): seq<string> {
    if n <= 0 then [] else if |vlans| <= n then vlans else vlans[..n]
  }

  // The fields that a global change carries into the VLANs
  function Carried(info: Row): Row { map f | f in info && f != "rootguard_timeout" && f != "bpdu_filter" :: info[f] }

  // A VLAN takes the new value of each field in which it has the old global value
  function Updated(row: Row, pairs: Row, old_: Row): Row {
    row + map f | f in pairs && Get(row, f) == Get(old_, f) :: pairs[f]
  }

  function GlobalDefault(node: string): (string, string) {
    match node
    case "rootguard-timeout" => ("rootguard_timeout", "30")
    case "hello-time" => ("hello_time", "2")
    case "max-age" => ("max_age", "20")
    case "forwarding-delay" => ("forward_delay", "15")
    case "bridge-priority" => ("priority", "32768")
    case "bpdu-filter" => ("bpdu_filter", "false")
    case _ => ("", "")
  }

  function ResetRow(row: Row, global: Row, node: string): Row {
    match node
    case "hello-time" => row["hello_time" := Get(global, "hello_time")]
    case "max-age" => row["max_age" := Get(global, "max_age")]
    case "bridge-priority" => row["priority" := Get(global, "priority")]
    case "forwarding-delay" => row["forward_delay" := Get(global, "forward_delay")]
    case "spanning-tree-enable" => row["enabled" := "false"]
    case _ => row
  }

  // The field a reset of a VLAN node puts back under the global value
  function ResetField(node: string): string {
    match node
    case "hello-time" => "hello_time"
    case "max-age" => "max_age"
    case "bridge-priority" => "priority"
    case "forwarding-delay" => "forward_delay"
    case _ => ""
  }

  datatype Step =
    | Enable(info: Row, vlans: seq<string>, refused: set<string>)   // vlans: the VLAN table in natural order
    | VlansCreated(vlans: seq<string>, refused: set<string>)        // in natural order
    | VlansRemoved(vlans: seq<string>)
    | GlobalSet(info: Row)
    | GlobalReset(node: string)
    | Override(vlan: string, fields: Row)
    | VlanReset(vlan: string, node: string)
    | Disable

  function WithGlobal(s: State, new_: Row, pairs: Row): State
    requires s.global.Some?
  {
    State(Some(new_), map v | v in s.stpVlan :: Updated(s.stpVlan[v], pairs, s.global.value))
  }

  ghost function Next(s: State, step: Step): State {
    match step
    case Enable(info, vlans, refused) =>
      if s.global.Some? then s
        else State(Some(info), Created(s.stpVlan, info, Take(vlans, PVST_MAX_INSTANCES), refused))
    case VlansCreated(vlans, refused) =>
      if s.global.None? || |s.stpVlan| >= PVST_MAX_INSTANCES then s
      else s.(stpVlan := Created(s.stpVlan, s.global.value, Take(vlans, PVST_MAX_INSTANCES - |s.stpVlan|), refused))
    case VlansRemoved(vlans) => s.(stpVlan := s.stpVlan - Elems(vlans))
    case GlobalSet(info) => if s.global.None? then s else WithGlobal(s, s.global.value + info, Carried(info))
    case GlobalReset(node) =>
      if s.global.None? then s
      else
        var (f, d) := GlobalDefault(node);
        WithGlobal(s, s.global.value[f := d], Carried(map[f := d]))
    case Override(vlan, fields) => if vlan in s.stpVlan then s.(stpVlan := s.stpVlan[vlan := s.stpVlan[vlan] + fields])
      else s
    case VlanReset(vlan, node) =>
      if s.global.None? || vlan !in s.stpVlan then s
      else s.(stpVlan := s.stpVlan[vlan := ResetRow(s.stpVlan[vlan], s.global.value, node)])
    case Disable => State(None, map[])
  }

  // ---- runs from disabled ----

  ghost function Run(steps: seq<Step>): State {
    if steps == [] then State(None, map[]) else Next(Run(steps[..|steps| - 1]), steps[|steps| - 1])
  }

  // v is among the rows a step creates
  ghost predicate Creates(s: State, step: Step, v: string) {
    match step
    case Enable(info, vlans, refused) => s.global.None? && v in Take(vlans, PVST_MAX_INSTANCES) && v !in refused
    case VlansCreated(vlans, refused) => s.global.Some? && v in Take(vlans, PVST_MAX_INSTANCES - |s.stpVlan|)
      && v !in refused
    case _ => false
  }

  // The VLAN has taken the field from the global values and has not been overridden in it since
  ghost predicate Follows(steps: seq<Step>, v: string, f: string) {
    if steps == [] then false
    else
      var before, step := steps[..|steps| - 1], steps[|steps| - 1];
      var s := Run(before);
      v in Next(s, step).stpVlan && Inherited(f)
      && (Creates(s, step, v)
        || (step.VlanReset? && step.vlan == v && ResetField(step.node) == f && s.global.Some?)
        || (Follows(before, v, f) && !(step.Override? && step.vlan == v && f in step.fields)))
  }

  ghost predicate Inv(s: State) {
    |s.stpVlan| <= PVST_MAX_INSTANCES && (s.global.None? ==> s.stpVlan == map[])
  }

  lemma OneMoreRow(rows: map<string, Row>, v: string, r: Row)
    ensures rows[v := r].Keys == rows.Keys + {v} && |rows[v := r]| <= |rows| + 1
  {
    assert rows[v := r].Keys == rows.Keys + {v};
    assert |rows[v := r]| == |rows[v := r].Keys| && |rows| == |rows.Keys|;
  }

  lemma {:induction false} CreatedKeys(rows: map<string, Row>, global: Row, vlans: seq<string>, refused: set<string>)
    ensures |Created(rows, global, vlans, refused)| <= |rows| + |vlans|
    decreases |vlans|
  {
    if vlans != [] {
      hide DefaultRow;
      var k := |vlans| - 1;
      CreatedKeys(rows, global, vlans[..k], refused);
      var before := Created(rows, global, vlans[..k], refused);
      OneMoreRow(before, vlans[k],
        (if vlans[k] in before then before[vlans[k]] else map[]) + DefaultRow(global, vlans[k]));
    }
  }

  lemma DefaultGet(row: Row, global: Row, v: string)
    ensures forall f :: Inherited(f) ==> Get(row + DefaultRow(global, v), f) == Get(global, f)
  {
  }

  // A created row has the global value in every inherited field; the other rows stay
  lemma {:induction false} CreatedRow(rows: map<string, Row>, global: Row, vlans: seq<string>, refused: set<string>,
    v: string)
    ensures var c := Created(rows, global, vlans, refused);
      if v in vlans && v !in refused then v in c && forall f :: Inherited(f) ==> Get(c[v], f) == Get(global, f)
      else (v in c <==> v in rows) && (v in c ==> c[v] == rows[v])
    decreases |vlans|
  {
    hide DefaultRow, Inherited, Get;
    if vlans != [] {
      var k := |vlans| - 1;
      if v == vlans[k] {
        DefaultGet(if v in Created(rows, global, vlans[..k], refused) then Created(rows, global, vlans[..k], refused)[v]
          else map[], global, v);
      }
      CreatedRow(rows, global, vlans[..k], refused, v);
      assert vlans == vlans[..k] + [vlans[k]];
    }
  }

  lemma TakeSize(vlans: seq<string>, n: int)
    ensures |Take(vlans, n)| <= if n < 0 then 0 else n
  {
  }

  // Every step keeps the cap
  lemma NextInv(s: State, step: Step)
    requires Inv(s)
    ensures Inv(Next(s, step))
  {
    hide Created, Take, Updated, Carried, GlobalDefault, ResetRow;
    match step {
      case Enable(info, vlans, refused) =>
        CreatedKeys(s.stpVlan, info, Take(vlans, PVST_MAX_INSTANCES), refused);
        TakeSize(vlans, PVST_MAX_INSTANCES);
      case VlansCreated(vlans, refused) =>
        if s.global.Some? {
          CreatedKeys(s.stpVlan, s.global.value, Take(vlans, PVST_MAX_INSTANCES - |s.stpVlan|), refused);
        }
        TakeSize(vlans, PVST_MAX_INSTANCES - |s.stpVlan|);
      case VlansRemoved(vlans) => Fewer(s.stpVlan.Keys, (s.stpVlan - Elems(vlans)).Keys);
      case GlobalSet(info) =>
        if s.global.Some? { Fewer(s.stpVlan.Keys, Next(s, step).stpVlan.Keys); }
      case GlobalReset(node) =>
        if s.global.Some? { Fewer(s.stpVlan.Keys, Next(s, step).stpVlan.Keys); }
      case _ =>
        Fewer(s.stpVlan.Keys, Next(s, step).stpVlan.Keys);
    }
  }

  lemma Fewer(a: set<string>, b: set<string>)
    requires b <= a
    ensures |b| <= |a|
  {
    assert a == b + (a - b);
  }

  lemma {:induction false} RunInv(steps: seq<Step>)
    ensures Inv(Run(steps))
    ensures |Run(steps).stpVlan| <= 255 && (Run(steps).global == None ==> Run(steps).stpVlan == map[])
  {
    if steps != [] {
      RunInv(steps[..|steps| - 1]);
      NextInv(Run(steps[..|steps| - 1]), steps[|steps| - 1]);
    }
  }

  // v has the global value in f
  ghost predicate Agrees(s: State, v: string, f: string) {
    s.global.Some? && v in s.stpVlan && Get(s.stpVlan[v], f) == Get(s.global.value, f)
  }

  lemma UpdatedGet(row: Row, pairs: Row, old_: Row, f: string)
    ensures Get(Updated(row, pairs, old_), f) == if f in pairs && Get(row, f) == Get(old_, f) then pairs[f]
      else Get(row, f)
  {
  }

  lemma InheritedCarried(info: Row, f: string)
    requires Inherited(f)
    ensures f in Carried(info) <==> f in info
    ensures f in info ==> Carried(info)[f] == info[f]
  {
  }

  // Any step but an override of the field keeps the agreement, whatever else it changes
  lemma AgreementKept(s: State, step: Step, v: string, f: string)
    requires Agrees(s, v, f) && Inherited(f) && v in Next(s, step).stpVlan
    requires !(step.Override? && step.vlan == v && f in step.fields)
    ensures Agrees(Next(s, step), v, f)
  {
    hide Carried, Updated;
    assert f != "enabled" by { assert "enabled"[0] == 'e'; }
    match step {
      case VlansCreated(vlans, refused) =>
        if |s.stpVlan| < PVST_MAX_INSTANCES {
          CreatedRow(s.stpVlan, s.global.value, Take(vlans, PVST_MAX_INSTANCES - |s.stpVlan|), refused, v);
        }
      case GlobalSet(info) =>
        UpdatedGet(s.stpVlan[v], Carried(info), s.global.value, f);
        InheritedCarried(info, f);
      case GlobalReset(node) =>
        var (g, d) := GlobalDefault(node);
        UpdatedGet(s.stpVlan[v], Carried(map[g := d]), s.global.value, f);
        InheritedCarried(map[g := d], f);
      case _ =>
    }
  }

  lemma AgreementStarts(s: State, step: Step, v: string, f: string)
    requires Inherited(f) && v in Next(s, step).stpVlan
    requires Creates(s, step, v) || (step.VlanReset? && step.vlan == v && ResetField(step.node) == f && s.global.Some?)
    ensures Agrees(Next(s, step), v, f)
  {
    match step {
      case Enable(info, vlans, refused) => CreatedRow(s.stpVlan, info, Take(vlans, PVST_MAX_INSTANCES), refused, v);
      case VlansCreated(vlans, refused) =>
        TakeSize(vlans, PVST_MAX_INSTANCES - |s.stpVlan|);
        CreatedRow(s.stpVlan, s.global.value, Take(vlans, PVST_MAX_INSTANCES - |s.stpVlan|), refused, v);
      case _ =>
    }
  }

  // In every run a field that follows the global value equals it
  lemma {:induction false} FollowersAgree(steps: seq<Step>, v: string, f: string)
    requires Follows(steps, v, f)
    ensures Agrees(Run(steps), v, f)
  {
    var before, step := steps[..|steps| - 1], steps[|steps| - 1];
    var s := Run(before);
    hide Run, Inherited, Next, Agrees;
    if Creates(s, step, v) || (step.VlanReset? && step.vlan == v && ResetField(step.node) == f && s.global.Some?) {
      AgreementStarts(s, step, v, f);
    } else {
      FollowersAgree(before, v, f);
      AgreementKept(s, step, v, f);
    }
  }

  // The reset of a field puts it back under the global value
  lemma ResetFollows(steps: seq<Step>, v: string, node: string, f: string)
    requires VlanField(node, f) && Run(steps).global.Some? && v in Run(steps).stpVlan
    ensures Follows(steps + [VlanReset(v, node)], v, f)
  {
    var all := steps + [VlanReset(v, node)];
    assert all[..|all| - 1] == steps && all[|all| - 1] == VlanReset(v, node);
  }

  // A created row is under the global value in each inherited field
  lemma CreationFollows(steps: seq<Step>, step: Step, v: string, f: string)
    requires Creates(Run(steps), step, v) && f in {"forward_delay", "hello_time", "max_age", "priority"}
    requires v in Next(Run(steps), step).stpVlan
    ensures Follows(steps + [step], v, f)
  {
    var all := steps + [step];
    assert all[..|all| - 1] == steps && all[|all| - 1] == step;
    hide Creates, Next, Run;
  }

  // Only an override of that field of that VLAN, or its removal, ends that
  lemma FollowsOn(steps: seq<Step>, step: Step, v: string, f: string)
    requires Follows(steps, v, f) && v in Next(Run(steps), step).stpVlan
    requires !(step.Override? && step.vlan == v && f in step.fields)
    ensures Follows(steps + [step], v, f)
  {
    var all := steps + [step];
    assert all[..|all| - 1] == steps && all[|all| - 1] == step;
    hide Creates, Next, Run;
  }

  // ---- what each step does, field by field ----

  // The global fields a reset puts back, and their defaults
  ghost predicate GlobalField(node: string, f: string, value: string) {
    (node == "rootguard-timeout" && f == "rootguard_timeout" && value == "30")
    || (node == "hello-time" && f == "hello_time" && value == "2")
    || (node == "max-age" && f == "max_age" && value == "20")
    || (node == "forwarding-delay" && f == "forward_delay" && value == "15")
    || (node == "bridge-priority" && f == "priority" && value == "32768")
    || (node == "bpdu-filter" && f == "bpdu_filter" && value == "false")
    || (f == "" && value == "" && node !in {"rootguard-timeout", "hello-time", "max-age", "forwarding-delay",
        "bridge-priority", "bpdu-filter"})
  }

  // The VLAN fields a reset puts back
  ghost predicate VlanField(node: string, f: string) {
    (node == "hello-time" && f == "hello_time") || (node == "max-age" && f == "max_age")
    || (node == "forwarding-delay" && f == "forward_delay") || (node == "bridge-priority" && f == "priority")
  }

  ghost predicate SameAt<T(!new)>(a: map<string, T>, b: map<string, T>, x: string) {
    (x in b <==> x in a) && (x in a ==> b[x] == a[x])
  }

  // An absent field reads as the empty string
  ghost predicate Reads(r: Row, f: string, value: string) { if f in r then r[f] == value else value == "" }

  lemma GetReads(r: Row, f: string)
    ensures Reads(r, f, Get(r, f))
  {
  }

  // r2 is r, with the value in f if r reads there as the old global row does
  ghost predicate FieldTaken(r: Row, r2: Row, f: string, value: string, old_: Row) {
    if exists v :: Reads(r, f, v) && Reads(old_, f, v) then r2 == r[f := value] else r2 == r
  }

  lemma UpdatedOne(r: Row, f: string, value: string, old_: Row)
    ensures FieldTaken(r, Updated(r, map[f := value], old_), f, value, old_)
  {
    GetReads(r, f);
    GetReads(old_, f);
    assert (exists v :: Reads(r, f, v) && Reads(old_, f, v)) <==> Get(r, f) == Get(old_, f);
    hide Reads;
    if Get(r, f) == Get(old_, f) {
      assert Updated(r, map[f := value], old_) == r[f := value];
    } else {
      assert Updated(r, map[f := value], old_) == r;
    }
  }

  // The reset of a global node: its field has the default, the other global fields stay, and so do the VLANs except in
  // that field, which follows where it agreed; the root guard timeout and the BPDU filter are not carried
  lemma GlobalResetMeaning(s: State, node: string, f: string, value: string)
    requires s.global.Some? && GlobalField(node, f, value)
    ensures var n := Next(s, GlobalReset(node));
      n.global == Some(s.global.value[f := value]) && n.stpVlan.Keys == s.stpVlan.Keys
      && forall v :: v in s.stpVlan ==>
        if f == "rootguard_timeout" || f == "bpdu_filter" then n.stpVlan[v] == s.stpVlan[v]
        else FieldTaken(s.stpVlan[v], n.stpVlan[v], f, value, s.global.value)
  {
    assert GlobalDefault(node) == (f, value);
    hide Updated, FieldTaken, GlobalDefault;
    var n := Next(s, GlobalReset(node));
    forall v | v in s.stpVlan
      ensures if f == "rootguard_timeout" || f == "bpdu_filter" then n.stpVlan[v] == s.stpVlan[v]
        else FieldTaken(s.stpVlan[v], n.stpVlan[v], f, value, s.global.value)
    {
      if f == "rootguard_timeout" || f == "bpdu_filter" {
        assert Carried(map[f := value]) == map[];
        UpdatedNone(s.stpVlan[v], s.global.value);
      } else {
        assert Carried(map[f := value]) == map[f := value];
        UpdatedOne(s.stpVlan[v], f, value, s.global.value);
      }
    }
  }

  lemma UpdatedNone(r: Row, old_: Row)
    ensures Updated(r, map[], old_) == r
  {
  }

  // A global update: its fields are set, and every other global field stays. A VLAN takes each field but the root guard
  // timeout and the BPDU filter where it read the same as the global row.
  lemma GlobalSetMeaning(s: State, info: Row)
    requires s.global.Some?
    ensures var n := Next(s, GlobalSet(info));
      n.global.Some? && n.stpVlan.Keys == s.stpVlan.Keys
      && (forall f ::
        if f in info then f in n.global.value && n.global.value[f] == info[f]
        else SameAt(s.global.value, n.global.value, f))
      && forall v, f :: v in s.stpVlan ==>
        if f in info && f != "rootguard_timeout" && f != "bpdu_filter" &&
            (exists x :: Reads(s.stpVlan[v], f, x) && Reads(s.global.value, f, x))
        then f in n.stpVlan[v] && n.stpVlan[v][f] == info[f]
        else SameAt(s.stpVlan[v], n.stpVlan[v], f)
  {
    forall v, f | v in s.stpVlan
      ensures (exists x :: Reads(s.stpVlan[v], f, x) && Reads(s.global.value, f, x))
        <==> Get(s.stpVlan[v], f) == Get(s.global.value, f)
    {
      SameReads(s.stpVlan[v], s.global.value, f);
    }
    hide Reads, Get;
    forall v, f | v in s.stpVlan
      ensures var r := Next(s, GlobalSet(info)).stpVlan[v];
        if f in Carried(info) && Get(s.stpVlan[v], f) == Get(s.global.value, f) then f in r && r[f] == info[f]
        else SameAt(s.stpVlan[v], r, f)
    {
      UpdatedAt(s.stpVlan[v], Carried(info), s.global.value, f);
    }
  }

  lemma SameReads(a: Row, b: Row, f: string)
    ensures (exists x :: Reads(a, f, x) && Reads(b, f, x)) <==> Get(a, f) == Get(b, f)
  {
    GetReads(a, f);
    GetReads(b, f);
  }

  lemma UpdatedAt(row: Row, pairs: Row, old_: Row, f: string)
    ensures var r := Updated(row, pairs, old_);
      if f in pairs && Get(row, f) == Get(old_, f) then f in r && r[f] == pairs[f] else SameAt(row, r, f)
  {
    hide Get;
  }

  // Without a global row neither does anything
  lemma DisabledStays(s: State, info: Row, node: string, v: string, vlans: seq<string>, refused: set<string>)
    requires s.global == None
    ensures Next(s, GlobalSet(info)) == s && Next(s, GlobalReset(node)) == s && Next(s, VlanReset(v, node)) == s
    ensures Next(s, VlansCreated(vlans, refused)) == s
  {
  }

  // The reset of a node of a VLAN: its field has the global value, the rest of the row and the other rows stay
  lemma VlanResetMeaning(s: State, v: string, node: string, f: string)
    requires s.global.Some? && v in s.stpVlan && VlanField(node, f)
    ensures var n := Next(s, VlanReset(v, node));
      n.global == s.global
      && exists x :: Reads(s.global.value, f, x) && n.stpVlan == s.stpVlan[v := s.stpVlan[v][f := x]]
  {
    GetReads(s.global.value, f);
    hide Reads;
  }

  lemma VlanDisableMeaning(s: State, v: string, node: string)
    requires s.global.Some? && v in s.stpVlan && forall f :: !VlanField(node, f)
    ensures Next(s, VlanReset(v, node)) == if node != "spanning-tree-enable" then s
      else s.(stpVlan := s.stpVlan[v := s.stpVlan[v]["enabled" := "false"]])
  {
    assert !VlanField(node, "hello_time") && !VlanField(node, "max_age") && !VlanField(node, "priority")
      && !VlanField(node, "forward_delay");
  }

  // The row of a VLAN that spanning tree is enabled on, over what is stored
  ghost predicate NewRow(r: Row, stored: Row, global: Row, v: string) {
    (forall f :: f in {"forward_delay", "hello_time", "max_age", "priority"} ==> f in r && Reads(global, f, r[f]))
    && "enabled" in r && r["enabled"] == "true" && "vlanid" in r && r["vlanid"] == ReplaceFirst(v, "Vlan", "")
    && forall f :: f !in {"forward_delay", "hello_time", "max_age", "priority", "enabled", "vlanid"} ==>
      SameAt(stored, r, f)
  }

  lemma DefaultRowNew(stored: Row, global: Row, v: string)
    ensures NewRow(stored + DefaultRow(global, v), stored, global, v)
  {
    forall f ensures Reads(global, f, Get(global, f)) { GetReads(global, f); }
  }

  lemma OneCreated(rows: map<string, Row>, global: Row, vlans: seq<string>, refused: set<string>)
    ensures vlans == [] ==> Created(rows, global, vlans, refused) == rows
    ensures vlans != [] ==>
      var v, before := vlans[|vlans| - 1], Created(rows, global, vlans[..|vlans| - 1], refused);
      var stored := if v in before then before[v] else map[];
      Created(rows, global, vlans, refused)
        == if v in refused then before else before[v := stored + DefaultRow(global, v)]
  {
  }

  // Rows are new for the accepted names, and stay otherwise
  lemma {:induction false} CreatedMeaning(rows: map<string, Row>, global: Row, vlans: seq<string>, refused: set<string>)
    requires Distinct(vlans)
    ensures var c := Created(rows, global, vlans, refused);
      forall v :: if v in vlans && v !in refused then
          v in c && NewRow(c[v], if v in rows then rows[v] else map[], global, v)
        else SameAt(rows, c, v)
    decreases |vlans|
  {
    hide DefaultRow, NewRow, Created;
    OneCreated(rows, global, vlans, refused);
    if vlans != [] {
      var k := |vlans| - 1;
      var before, v := vlans[..k], vlans[k];
      CreatedMeaning(rows, global, before, refused);
      assert vlans == before + [v] && v !in before;
      DefaultRowNew(if v in rows then rows[v] else map[], global, v);
    }
  }

  // Enabling: the global row is as given, and the first 255 VLANs have new rows
  lemma EnableMeaning(s: State, info: Row, vlans: seq<string>, refused: set<string>)
    requires s.global == None && Distinct(vlans)
    ensures var n := Next(s, Enable(info, vlans, refused));
      n.global == Some(info)
      && forall v :: if (exists i :: 0 <= i < |vlans| && i < 255 && vlans[i] == v) && v !in refused then
          v in n.stpVlan && NewRow(n.stpVlan[v], if v in s.stpVlan then s.stpVlan[v] else map[], info, v)
        else SameAt(s.stpVlan, n.stpVlan, v)
  {
    FirstOnes(vlans, 255);
    hide Created, NewRow, Take;
    CreatedMeaning(s.stpVlan, info, Take(vlans, 255), refused);
  }

  lemma FirstOnes(vlans: seq<string>, n: int)
    ensures forall v :: v in Take(vlans, n) <==> exists i :: 0 <= i < |vlans| && i < n && vlans[i] == v
    ensures Distinct(vlans) ==> Distinct(Take(vlans, n))
  {
    var t := Take(vlans, n);
    assert forall i :: 0 <= i < |t| ==> t[i] == vlans[i];
    forall v ensures v in t <==> exists i :: 0 <= i < |vlans| && i < n && vlans[i] == v {
      if i :| 0 <= i < |vlans| && i < n && vlans[i] == v { assert t[i] == v; }
    }
  }

  // New VLANs have rows while there is room for 255
  lemma VlansCreatedMeaning(s: State, vlans: seq<string>, refused: set<string>)
    requires s.global.Some? && Distinct(vlans)
    ensures var n := Next(s, VlansCreated(vlans, refused));
      n.global == s.global
      && forall v :: if (exists i :: 0 <= i < |vlans| && |s.stpVlan| + i < 255 && vlans[i] == v) && v !in refused then
          v in n.stpVlan && NewRow(n.stpVlan[v], if v in s.stpVlan then s.stpVlan[v] else map[], s.global.value, v)
        else SameAt(s.stpVlan, n.stpVlan, v)
  {
    FirstOnes(vlans, 255 - |s.stpVlan|);
    hide Created, NewRow, Take;
    if |s.stpVlan| < 255 { CreatedMeaning(s.stpVlan, s.global.value, Take(vlans, 255 - |s.stpVlan|), refused); }
  }

  // The steps that take rows away or set fields directly
  lemma OtherSteps(s: State, vlans: seq<string>, v: string, fields: Row)
    ensures Next(s, VlansRemoved(vlans)).global == s.global
    ensures forall x :: var n := Next(s, VlansRemoved(vlans)).stpVlan;
      (x in n <==> x in s.stpVlan && x !in vlans) && (x in n ==> n[x] == s.stpVlan[x])
    ensures Next(s, Override(v, fields)).global == s.global
    ensures Next(s, Override(v, fields)).stpVlan
      == if v in s.stpVlan then s.stpVlan[v := s.stpVlan[v] + fields] else s.stpVlan
    ensures Next(s, Disable) == State(None, map[])
  {
  }

  // ---- the operations ----

  lemma PushCreated(rows: map<string, Row>, global: Row, vlans: seq<string>, refused: set<string>, k: nat)
    requires k < |vlans|
    ensures Created(rows, global, vlans[..k + 1], refused) ==
      var before := Created(rows, global, vlans[..k], refused);
      var v := vlans[k];
      if v in refused then before else before[v := (if v in before then before[v] else map[]) + DefaultRow(global, v)]
  {
    assert vlans[..k + 1][..k] == vlans[..k];
  }

  class StpApp {
    var global: Option<Row>
    var stpVlan: map<string, Row>
    const natsort: seq<string> -> seq<string>

    constructor (natsort: seq<string> -> seq<string>)
      ensures Now() == Run([]) && this.natsort == natsort
    {
      this.natsort, global, stpVlan := natsort, None, map[];
    }

    function Now(): State
      reads this
    {
      State(global, stpVlan)
    }

    // The first rows of the list, up to a number
    method CreateRows(values: Row, vlanList: seq<string>, count: nat, refused: set<string>)
      modifies this`stpVlan
      ensures stpVlan == Created(old(stpVlan), values, Take(vlanList, count), refused)
    {
      var fDelay := Get(values, "forward_delay");
      var helloTime := Get(values, "hello_time");
      var maxAge := Get(values, "max_age");
      var priority := Get(values, "priority");
      var i := 0;
      while i < |vlanList|
        invariant i <= |vlanList| && stpVlan == Created(old(stpVlan), values, Take(vlanList[..i], count), refused)
      {
        hide Created;
        assert Take(vlanList[..i + 1], count) == if i < count then vlanList[..i + 1] else Take(vlanList[..i], count);
        assert i < count ==> Take(vlanList[..i], count) == vlanList[..i];
        PushCreated(old(stpVlan), values, vlanList, refused, i);
        if i < count {
          var v := vlanList[i];
          var defaultDBValues: Row := map["enabled" := "true", "forward_delay" := fDelay, "hello_time" := helloTime,
            "max_age" := maxAge, "priority" := priority, "vlanid" := VlanId(v)];
          assert defaultDBValues == DefaultRow(values, v);
          hide DefaultRow;
          if v !in refused { stpVlan := stpVlan[v := (if v in stpVlan then stpVlan[v] else map[]) + defaultDBValues]; }
        }
        i := i + 1;
      }
      assert vlanList[..i] == vlanList;
    }

    // Only from disabled
    method EnableStpMode(globalInfo: Row, vlanKeys: seq<string>, refused: set<string>)
      modifies this
      ensures Now() == Next(old(Now()), Enable(globalInfo, natsort(vlanKeys), refused))
    {
      hide Created;
      if global.Some? { return; }
      global := Some(globalInfo);
      CreateRows(globalInfo, natsort(vlanKeys), PVST_MAX_INSTANCES, refused);
    }

    method EnableStpOnVlanCreation(vlanList: seq<string>, refused: set<string>)
      modifies this
      ensures Now() == Next(old(Now()), VlansCreated(natsort(vlanList), refused))
    {
      hide Created;
      var existingEntriesCount := |stpVlan|;
      if existingEntriesCount < PVST_MAX_INSTANCES {
        if global.None? { return; }
        CreateRows(global.value, natsort(vlanList), PVST_MAX_INSTANCES - existingEntriesCount, refused);
      }
    }

    method RemoveStpConfigOnVlanDeletion(vlanList: seq<string>)
      modifies this
      ensures Now() == Next(old(Now()), VlansRemoved(vlanList))
    {
      var i := 0;
      while i < |vlanList|
        invariant i <= |vlanList| && global == old(global) && stpVlan == old(stpVlan) - Elems(vlanList[..i])
      {
        assert Elems(vlanList[..i + 1]) == Elems(vlanList[..i]) + {vlanList[i]};
        stpVlan := stpVlan - {vlanList[i]};
        i := i + 1;
      }
      assert vlanList[..i] == vlanList;
    }

    // The fields of one VLAN, in any order
    method UpdateVlan(vlan: string, fldValuePair: Row, old_: Row)
      requires vlan in stpVlan
      modifies this`stpVlan
      ensures stpVlan == old(stpVlan)[vlan := Updated(old(stpVlan)[vlan], fldValuePair, old_)]
    {
      ghost var row := stpVlan[vlan];
      var vlanEntry := stpVlan[vlan];
      var left := fldValuePair.Keys;
      assert Updated(row, fldValuePair - left, old_) == row;
      while left != {}
        invariant left <= fldValuePair.Keys
        invariant vlanEntry == Updated(row, fldValuePair - left, old_)
        invariant stpVlan == old(stpVlan)[vlan := vlanEntry]
      {
        var fldName :| fldName in left;
        NextField(row, fldValuePair, left, fldName, old_);
        hide Updated;
        if Get(vlanEntry, fldName) == Get(old_, fldName) {
          vlanEntry := vlanEntry[fldName := fldValuePair[fldName]];
          stpVlan := stpVlan[vlan := vlanEntry];
        }
        left := left - {fldName};
      }
      assert fldValuePair - left == fldValuePair;
    }

    method UpdateGlobalFieldsToStpVlanTable(fldValuePair: Row, stpGlobalDbEntry: Row)
      modifies this`stpVlan
      ensures stpVlan == map v | v in old(stpVlan) :: Updated(old(stpVlan)[v], fldValuePair, stpGlobalDbEntry)
    {
      hide Updated;
      var vlanKeys := stpVlan.Keys;
      ghost var rows := stpVlan;
      while vlanKeys != {}
        invariant vlanKeys <= rows.Keys
        invariant stpVlan == map v | v in rows :: if v in vlanKeys then rows[v]
          else Updated(rows[v], fldValuePair, stpGlobalDbEntry)
      {
        var v :| v in vlanKeys;
        UpdateVlan(v, fldValuePair, stpGlobalDbEntry);
        vlanKeys := vlanKeys - {v};
      }
    }

    // The new global row, and the fields to carry into the VLANs; the fields in any order
    method CopyFields(row: Row, globalInfo: Row) returns (tmpDbEntry: Row, fldValuePair: Row)
      ensures tmpDbEntry == row + globalInfo && fldValuePair == Carried(globalInfo)
    {
      tmpDbEntry, fldValuePair := row, map[];
      var left := globalInfo.Keys;
      while left != {}
        invariant left <= globalInfo.Keys
        invariant tmpDbEntry == row + (globalInfo - left) && fldValuePair == Carried(globalInfo) - left
      {
        var fld :| fld in left;
        var valStr := globalInfo[fld];
        CopyField(row, globalInfo, left, fld);
        hide Carried;
        tmpDbEntry := tmpDbEntry[fld := valStr];
        if fld != "rootguard_timeout" && fld != "bpdu_filter" { fldValuePair := fldValuePair[fld := valStr]; }
        left := left - {fld};
      }
      assert globalInfo - left == globalInfo && Carried(globalInfo) - left == Carried(globalInfo);
    }

    method HandleStpGlobalFieldsUpdation(globalInfo: Row)
      modifies this
      ensures Now() == Next(old(Now()), GlobalSet(globalInfo))
    {
      if global.None? { return; }
      var stpGlobalDBEntry := global.value;
      var tmpDbEntry, fldValuePair := CopyFields(stpGlobalDBEntry, globalInfo);
      global := Some(tmpDbEntry);
      UpdateGlobalFieldsToStpVlanTable(fldValuePair, stpGlobalDBEntry);
    }

    method HandleStpGlobalFieldsDeletion(node: string)
      modifies this
      ensures Now() == Next(old(Now()), GlobalReset(node))
    {
      if global.None? { return; }
      var stpGlobalDBEntry := global.value;
      var fldName, valStr := GlobalDefault(node).0, GlobalDefault(node).1;
      global := Some(stpGlobalDBEntry[fldName := valStr]);
      var fldValuePair: Row := map[];
      if fldName != "rootguard_timeout" && fldName != "bpdu_filter" { fldValuePair := fldValuePair[fldName := valStr]; }
      assert fldValuePair == Carried(map[fldName := valStr]);
      UpdateGlobalFieldsToStpVlanTable(fldValuePair, stpGlobalDBEntry);
    }

    // An update of the row of one VLAN
    method SetVlanFields(vlan: string, fields: Row)
      modifies this
      ensures Now() == Next(old(Now()), Override(vlan, fields))
    {
      if vlan in stpVlan { stpVlan := stpVlan[vlan := stpVlan[vlan] + fields]; }
    }

    method HandleVlanFieldsDeletion(vlan: string, node: string)
      modifies this
      ensures Now() == Next(old(Now()), VlanReset(vlan, node))
    {
      if global.None? || vlan !in stpVlan { return; }
      var g, dbEntry := global.value, stpVlan[vlan];
      match node {
        case "hello-time" => dbEntry := dbEntry["hello_time" := Get(g, "hello_time")];
        case "max-age" => dbEntry := dbEntry["max_age" := Get(g, "max_age")];
        case "bridge-priority" => dbEntry := dbEntry["priority" := Get(g, "priority")];
        case "forwarding-delay" => dbEntry := dbEntry["forward_delay" := Get(g, "forward_delay")];
        case "spanning-tree-enable" => dbEntry := dbEntry["enabled" := "false"];
        case _ =>
      }
      stpVlan := stpVlan[vlan := dbEntry];
    }

    method DisableStpMode()
      modifies this
      ensures Now() == Next(old(Now()), Disable)
    {
      stpVlan := map[];
      global := None;
    }
  }

  lemma CopyField(row: Row, info: Row, left: set<string>, f: string)
    requires f in left && left <= info.Keys
    ensures row + (info - (left - {f})) == (row + (info - left))[f := info[f]]
    ensures Carried(info) - (left - {f}) ==
      if f != "rootguard_timeout" && f != "bpdu_filter" then (Carried(info) - left)[f := info[f]]
        else Carried(info) - left
  {
  }

  lemma NextField(row: Row, pairs: Row, left: set<string>, f: string, old_: Row)
    requires f in left && left <= pairs.Keys
    ensures var before := Updated(row, pairs - left, old_);
      Updated(row, pairs - (left - {f}), old_)
        == if Get(before, f) == Get(old_, f) then before[f := pairs[f]] else before
  {
  }
}
