/**
 Editing inside a transaction. An edit is any script of in-place writes through the current lab; saving
 and loading may fail at any point. Whatever happens, a failed transaction leaves the lab as it was.
 */
module Transactions {
  import opened Numerals
  import opened LabModel
  import opened ManagedNames
  import opened Snapshots
  import Validation

  // ---------------------------------------------------------------- allocating what a value says

  method MakeVm(v: VmVal) returns (r: VmRec, ghost made: set<object>)
    ensures fresh(made) && VmOk(r, made) && VmValue(r, made) == v
  {
    var nics := FromSeq(v.networks);
    r, made := VmRec(v.fields, nics), Home(nics);
  }

  method MakeSwitch(v: SwVal) returns (r: SwRec, ghost made: set<object>)
    ensures fresh(made) && SwOk(r, made) && SwValue(r, made) == v
  {
    var ids := FromSeq(v.uplinks);
    r, made := SwRec(v.fields, v.mode, v.uplink, ids), Home(ids);
  }

  method MakeCaps(v: Option<CapsVal>) returns (c: Caps?, ghost made: set<object>)
    ensures fresh(made) && CapsOk(c, made) && CapsValue(c, made) == v
  {
    c, made := null, {};
    if v.Some? {
      var add := FromSeq(v.value.add);
      var drop := FromSeq(v.value.drop);
      c := new Caps(add, drop);
      made := Home(add) + Home(drop) + {c};
    }
  }

  method MakeEnv(v: Option<map<string, string>>) returns (c: StringMap?)
    ensures c != null ==> fresh(c)
    ensures match v case None => c == null case Some(m) => c != null && c.m == m
  {
    c := null;
    if v.Some? {
      c := new StringMap(v.value);
    }
  }

  method MakeContainer(v: CtVal) returns (r: CtRec, ghost made: set<object>)
    ensures fresh(made) && CtOk(r, made) && CtValue(r, made) == v
  {
    hide CapsOk, CapsValue;
    var command := FromSeq(v.command);
    var env := MakeEnv(v.env);
    var caps;
    caps, made := MakeCaps(v.caps);
    var nics := FromSeq(v.networks);
    ghost var all := made + Home(command) + Home(nics) + if env == null then {} else {env};
    WiderCaps(caps, made, all);
    made := all;
    r := CtRec(v.fields, command, env, caps, nics);
  }

  // ---------------------------------------------------------------- scripts of in-place writes

  datatype VmEdit =
    | VmFields(i: nat, fields: Scalars)
    | VmNics(i: nat, nics: SliceEdit<Nic>)
    | VmMove(from: int, to: int)
    | VmTruncate(n: int)
    | VmAppend(vm: VmVal)

  datatype CtEdit =
    | CtFields(i: nat, fields: Scalars)
    | CtNics(i: nat, nics: SliceEdit<Nic>)
    | CtCommand(i: nat, command: SliceEdit<string>)
    | CtEnv(i: nat, key: string, value: string)
    | CtNewEnv(i: nat, env: Option<map<string, string>>)
    | CtAdd(i: nat, add: SliceEdit<string>)
    | CtDrop(i: nat, drop: SliceEdit<string>)
    | CtNewCaps(i: nat, caps: Option<CapsVal>)
    | CtMove(from: int, to: int)
    | CtTruncate(n: int)
    | CtAppend(ct: CtVal)

  datatype SwEdit =
    | SwFields(i: nat, fields: Scalars, mode: string, uplink: string)
    | SwUplinks(i: nat, ids: SliceEdit<string>)
    | SwMove(from: int, to: int)
    | SwTruncate(n: int)
    | SwAppend(sw: SwVal)

  datatype Edit =
    | Vms(vm: VmEdit)
    | Containers(ct: CtEdit)
    | Switches(sw: SwEdit)
    | Uplinks(uplinks: SliceEdit<Uplink>)
    | Links(links: SliceEdit<Link>)
    | Disks(disks: SliceEdit<Disk>)
    | LayoutLinks(layoutLinks: SliceEdit<LayoutLink>)
    | Place(id: string, at: Position)
    | Unplace(id: string)
    | NewPositions
    | SetMeta(key: string, value: string)
    | NewNodes(nodes: NodesVal)

  // ---------------------------------------------------------------- what a script writes

  /** Edits whose effect does not depend on what memory the lab shares: the lists without references, positions, and new lists of nodes. */
  predicate Definite(e: Edit) {
    e.Uplinks? || e.Links? || e.Disks? || e.LayoutLinks? || e.Place? || e.Unplace? || e.NewPositions? || e.NewNodes?
  }

  function Written(v: LabVal, e: Edit): LabVal
    requires Definite(e)
  {
    match e
    case Uplinks(x) => v.(flat := v.flat.(uplinks := Edited(v.flat.uplinks, x)))
    case Links(x) => v.(flat := v.flat.(links := Edited(v.flat.links, x)))
    case Disks(x) => v.(flat := v.flat.(disks := Edited(v.flat.disks, x)))
    case LayoutLinks(x) => v.(flat := v.flat.(layoutLinks := Edited(v.flat.layoutLinks, x)))
    case Place(id, at) =>
      if v.maps.positions.None? then v else v.(maps := v.maps.(positions := Some(v.maps.positions.value[id := at])))
    case Unplace(id) =>
      if v.maps.positions.None? then v else v.(maps := v.maps.(positions := Some(v.maps.positions.value - {id})))
    case NewPositions => v.(maps := v.maps.(positions := Some(map[])))
    case NewNodes(nodes) => v.(nodes := nodes)
  }

  predicate AllDefinite(script: seq<Edit>) {
    forall i | 0 <= i < |script| :: Definite(script[i])
  }

  function WrittenAll(v: LabVal, script: seq<Edit>): LabVal
    requires AllDefinite(script)
  {
    if script == [] then v else Written(WrittenAll(v, script[..|script| - 1]), script[|script| - 1])
  }

  /** The memory that the lists of nodes lie in: not the lab itself, nor the other lists, nor the positions. */
  ghost function NodeMemory(repr: set<object>, l: LabObject, flat: FlatParts, positions: PositionMap?): (rest: set<object>)
    ensures rest <= repr && l !in rest
  {
    repr - {l} - Home(flat.uplinks) - Home(flat.links) - Home(flat.disks) - Home(flat.layoutLinks)
    - if positions == null then {} else {positions}
  }

  lemma VmOutside(r: VmRec, repr: set<object>, l: LabObject, flat: FlatParts, positions: PositionMap?)
    requires VmOk(r, repr)
    ensures VmOk(r, NodeMemory(repr, l, flat, positions))
  {
  }

  lemma SwitchOutside(r: SwRec, repr: set<object>, l: LabObject, flat: FlatParts, positions: PositionMap?)
    requires SwOk(r, repr)
    ensures SwOk(r, NodeMemory(repr, l, flat, positions))
  {
  }

  lemma CapsOutside(c: Caps?, repr: set<object>, l: LabObject, flat: FlatParts, positions: PositionMap?)
    requires CapsOk(c, repr)
    ensures CapsOk(c, NodeMemory(repr, l, flat, positions))
  {
  }

  lemma ContainerOutside(r: CtRec, repr: set<object>, l: LabObject, flat: FlatParts, positions: PositionMap?)
    requires CtOk(r, repr)
    ensures CtOk(r, NodeMemory(repr, l, flat, positions))
  {
    CapsOutside(r.caps, repr, l, flat, positions);
    hide CapsOk;
  }

  lemma NodesOutside(nodes: NodeParts, repr: set<object>, l: LabObject, flat: FlatParts, positions: PositionMap?)
    requires nodes.Ok(repr)
    ensures var rest := NodeMemory(repr, l, flat, positions); nodes.Ok(rest) && nodes.Val(rest) == nodes.Val(repr)
  {
    var rest := NodeMemory(repr, l, flat, positions);
    var vms, containers, switches := Contents(nodes.vms), Contents(nodes.containers), Contents(nodes.switches);
    assert In(nodes.vms, rest) && In(nodes.containers, rest) && In(nodes.switches, rest);
    hide NodeMemory, VmOk, CtOk, SwOk, VmValue, CtValue, SwValue;
    forall i | 0 <= i < |vms| ensures VmOk(vms[i], rest) { VmOutside(vms[i], repr, l, flat, positions); }
    forall i | 0 <= i < |containers| ensures CtOk(containers[i], rest) { ContainerOutside(containers[i], repr, l, flat, positions); }
    forall i | 0 <= i < |switches| ensures SwOk(switches[i], rest) { SwitchOutside(switches[i], repr, l, flat, positions); }
    WiderVms(vms, rest, repr);
    WiderContainers(containers, rest, repr);
    WiderSwitches(switches, rest, repr);
  }

  // ---------------------------------------------------------------- edits of lists of records

  /** Storing a record into a list of records within repr, at i. */
  method PutVm(l: LabObject, i: nat, r: VmRec)
    requires l.Valid() && VmOk(r, l.Repr) && i < |Contents(l.nodes.vms)|
    modifies l.Repr
    ensures l.Valid() && l.Repr == old(l.Repr)
  {
    l.nodes.vms.a[i] := r;
  }

  method PutContainer(l: LabObject, i: nat, r: CtRec)
    requires l.Valid() && CtOk(r, l.Repr) && i < |Contents(l.nodes.containers)|
    modifies l.Repr
    ensures l.Valid() && l.Repr == old(l.Repr)
  {
    l.nodes.containers.a[i] := r;
  }

  method PutSwitch(l: LabObject, i: nat, r: SwRec)
    requires l.Valid() && SwOk(r, l.Repr) && i < |Contents(l.nodes.switches)|
    modifies l.Repr
    ensures l.Valid() && l.Repr == old(l.Repr)
  {
    l.nodes.switches.a[i] := r;
  }

  /** Memory allocated by an edit becomes part of the lab. */
  ghost method Widen(l: LabObject, more: set<object>)
    requires l.Valid()
    modifies l`Repr
    ensures l.Valid() && l.Repr == old(l.Repr) + more
  {
    WiderParts(l.nodes, l.flat, l.maps, l.Repr, l.Repr, l.Repr, l.Repr + more);
    l.Repr := l.Repr + more;
  }

  method SetVms(l: LabObject, s: Slice<VmRec>)
    requires l.Valid() && In(s, l.Repr) && VmsOk(Contents(s), l.Repr)
    modifies l
    ensures l.Valid() && l.Repr == old(l.Repr)
  {
    l.nodes := l.nodes.(vms := s);
  }

  method MoveVms(l: LabObject, from: int, to: int)
    requires l.Valid()
    modifies l.Repr
    ensures l.Valid() && l.Repr == old(l.Repr)
  {
    var xs := Contents(l.nodes.vms);
    if 0 <= from < |xs| && 0 <= to < |xs| {
      PutVm(l, to, xs[from]);
    }
  }

  method TruncateVms(l: LabObject, n: int)
    requires l.Valid()
    modifies l.Repr
    ensures l.Valid() && l.Repr == old(l.Repr)
  {
    var s := l.nodes.vms;
    if s.Backed? && 0 <= n <= s.len {
      assert s.a[..n] == s.a[..s.len][..n];
      SetVms(l, Backed(s.a, n));
    }
  }

  method PushVms(l: LabObject, r: VmRec)
    requires l.Valid() && VmOk(r, l.Repr) && l.nodes.vms.Backed? && l.nodes.vms.len < l.nodes.vms.a.Length
    modifies l.Repr
    ensures l.Valid() && l.Repr == old(l.Repr)
  {
    var s := l.nodes.vms;
    ghost var was := Contents(s);
    s.a[s.len] := r;
    assert s.a[..s.len] == was;
    assert s.a[..s.len + 1] == was + [r];
    SetVms(l, Backed(s.a, s.len + 1));
  }

  /** append: into spare capacity, or to a fresh array. */
  method AppendVms(l: LabObject, r: VmRec)
    requires l.Valid() && VmOk(r, l.Repr)
    modifies l.Repr
    ensures l.Valid() && fresh(l.Repr - old(l.Repr))
  {
    var s := l.nodes.vms;
    if s.Backed? && s.len < s.a.Length {
      PushVms(l, r);
    } else {
      var grown := FromSeq(Contents(s) + [r]);
      Widen(l, Home(grown));
      SetVms(l, grown);
    }
  }

  method SetContainers(l: LabObject, s: Slice<CtRec>)
    requires l.Valid() && In(s, l.Repr) && CtsOk(Contents(s), l.Repr)
    modifies l
    ensures l.Valid() && l.Repr == old(l.Repr)
  {
    l.nodes := l.nodes.(containers := s);
  }

  method MoveContainers(l: LabObject, from: int, to: int)
    requires l.Valid()
    modifies l.Repr
    ensures l.Valid() && l.Repr == old(l.Repr)
  {
    var xs := Contents(l.nodes.containers);
    if 0 <= from < |xs| && 0 <= to < |xs| {
      PutContainer(l, to, xs[from]);
    }
  }

  method TruncateContainers(l: LabObject, n: int)
    requires l.Valid()
    modifies l.Repr
    ensures l.Valid() && l.Repr == old(l.Repr)
  {
    var s := l.nodes.containers;
    if s.Backed? && 0 <= n <= s.len {
      assert s.a[..n] == s.a[..s.len][..n];
      SetContainers(l, Backed(s.a, n));
    }
  }

  method PushContainers(l: LabObject, r: CtRec)
    requires l.Valid() && CtOk(r, l.Repr) && l.nodes.containers.Backed? && l.nodes.containers.len < l.nodes.containers.a.Length
    modifies l.Repr
    ensures l.Valid() && l.Repr == old(l.Repr)
  {
    var s := l.nodes.containers;
    ghost var was := Contents(s);
    s.a[s.len] := r;
    assert s.a[..s.len] == was;
    assert s.a[..s.len + 1] == was + [r];
    SetContainers(l, Backed(s.a, s.len + 1));
  }

  /** append: into spare capacity, or to a fresh array. */
  method GrowContainers(l: LabObject, r: CtRec)
    requires l.Valid() && CtOk(r, l.Repr)
    modifies l.Repr
    ensures l.Valid() && fresh(l.Repr - old(l.Repr))
  {
    var grown := FromSeq(Contents(l.nodes.containers) + [r]);
    Widen(l, Home(grown));
    SetContainers(l, grown);
  }

  method AppendContainers(l: LabObject, r: CtRec)
    requires l.Valid() && CtOk(r, l.Repr)
    modifies l.Repr
    ensures l.Valid() && fresh(l.Repr - old(l.Repr))
  {
    var s := l.nodes.containers;
    if s.Backed? && s.len < s.a.Length {
      PushContainers(l, r);
    } else {
      GrowContainers(l, r);
    }
  }

  method SetSwitches(l: LabObject, s: Slice<SwRec>)
    requires l.Valid() && In(s, l.Repr) && SwsOk(Contents(s), l.Repr)
    modifies l
    ensures l.Valid() && l.Repr == old(l.Repr)
  {
    l.nodes := l.nodes.(switches := s);
  }

  method MoveSwitches(l: LabObject, from: int, to: int)
    requires l.Valid()
    modifies l.Repr
    ensures l.Valid() && l.Repr == old(l.Repr)
  {
    var xs := Contents(l.nodes.switches);
    if 0 <= from < |xs| && 0 <= to < |xs| {
      PutSwitch(l, to, xs[from]);
    }
  }

  method TruncateSwitches(l: LabObject, n: int)
    requires l.Valid()
    modifies l.Repr
    ensures l.Valid() && l.Repr == old(l.Repr)
  {
    var s := l.nodes.switches;
    if s.Backed? && 0 <= n <= s.len {
      assert s.a[..n] == s.a[..s.len][..n];
      SetSwitches(l, Backed(s.a, n));
    }
  }

  method PushSwitches(l: LabObject, r: SwRec)
    requires l.Valid() && SwOk(r, l.Repr) && l.nodes.switches.Backed? && l.nodes.switches.len < l.nodes.switches.a.Length
    modifies l.Repr
    ensures l.Valid() && l.Repr == old(l.Repr)
  {
    var s := l.nodes.switches;
    ghost var was := Contents(s);
    s.a[s.len] := r;
    assert s.a[..s.len] == was;
    assert s.a[..s.len + 1] == was + [r];
    SetSwitches(l, Backed(s.a, s.len + 1));
  }

  /** append: into spare capacity, or to a fresh array. */
  method AppendSwitches(l: LabObject, r: SwRec)
    requires l.Valid() && SwOk(r, l.Repr)
    modifies l.Repr
    ensures l.Valid() && fresh(l.Repr - old(l.Repr))
  {
    var s := l.nodes.switches;
    if s.Backed? && s.len < s.a.Length {
      PushSwitches(l, r);
    } else {
      var grown := FromSeq(Contents(s) + [r]);
      Widen(l, Home(grown));
      SetSwitches(l, grown);
    }
  }

  // ---------------------------------------------------------------- edits one level down

  method EditVmNics(l: LabObject, i: nat, e: SliceEdit<Nic>)
    requires l.Valid() && i < |Contents(l.nodes.vms)|
    modifies l.Repr
    ensures l.Valid() && fresh(l.Repr - old(l.Repr))
  {
    var r := Contents(l.nodes.vms)[i];
    var nics := EditSlice(r.networks, e);
    Widen(l, Home(nics));
    PutVm(l, i, r.(networks := nics));
  }

  method EditSwitchUplinks(l: LabObject, i: nat, e: SliceEdit<string>)
    requires l.Valid() && i < |Contents(l.nodes.switches)|
    modifies l.Repr
    ensures l.Valid() && fresh(l.Repr - old(l.Repr))
  {
    var r := Contents(l.nodes.switches)[i];
    var ids := EditSlice(r.uplinks, e);
    Widen(l, Home(ids));
    PutSwitch(l, i, r.(uplinks := ids));
  }

  method EditContainerNics(l: LabObject, i: nat, e: SliceEdit<Nic>)
    requires l.Valid() && i < |Contents(l.nodes.containers)|
    modifies l.Repr
    ensures l.Valid() && fresh(l.Repr - old(l.Repr))
  {
    var r := Contents(l.nodes.containers)[i];
    var nics := EditSlice(r.networks, e);
    Widen(l, Home(nics));
    PutContainer(l, i, r.(networks := nics));
  }

  method EditCommand(l: LabObject, i: nat, e: SliceEdit<string>)
    requires l.Valid() && i < |Contents(l.nodes.containers)|
    modifies l.Repr
    ensures l.Valid() && fresh(l.Repr - old(l.Repr))
  {
    var r := Contents(l.nodes.containers)[i];
    var command := EditSlice(r.command, e);
    Widen(l, Home(command));
    PutContainer(l, i, r.(command := command));
  }

  method EditEnv(l: LabObject, i: nat, key: string, value: string)
    requires l.Valid() && i < |Contents(l.nodes.containers)|
    modifies l.Repr
    ensures l.Valid() && fresh(l.Repr - old(l.Repr))
  {
    var r := Contents(l.nodes.containers)[i];
    if r.env != null {
      r.env.m := r.env.m[key := value];
    }
  }

  method NewEnv(l: LabObject, i: nat, env: Option<map<string, string>>)
    requires l.Valid() && i < |Contents(l.nodes.containers)|
    modifies l.Repr
    ensures l.Valid() && fresh(l.Repr - old(l.Repr))
  {
    var r := Contents(l.nodes.containers)[i];
    if env.Some? {
      var made := new StringMap(env.value);
      Widen(l, {made});
      PutContainer(l, i, r.(env := made));
    } else {
      PutContainer(l, i, r.(env := null));
    }
  }

  method EditStrings(l: LabObject, s: Slice<string>, e: SliceEdit<string>) returns (r: Slice<string>)
    requires l.Valid() && In(s, l.Repr)
    modifies l.Repr
    ensures l.Valid() && fresh(l.Repr - old(l.Repr)) && old(l.Repr) <= l.Repr && In(r, l.Repr)
  {
    r := EditSlice(s, e);
    Widen(l, Home(r));
  }

  method PutCaps(l: LabObject, caps: Caps, add: Slice<string>, drop: Slice<string>)
    requires l.Valid() && caps in l.Repr && In(add, l.Repr) && In(drop, l.Repr)
    modifies caps
    ensures l.Valid() && l.Repr == old(l.Repr)
  {
    caps.add, caps.drop := add, drop;
  }

  method EditCaps(l: LabObject, i: nat, e: SliceEdit<string>, adding: bool)
    requires l.Valid() && i < |Contents(l.nodes.containers)|
    modifies l.Repr
    ensures l.Valid() && fresh(l.Repr - old(l.Repr))
  {
    var caps := Contents(l.nodes.containers)[i].caps;
    if caps != null {
      assert CtOk(Contents(l.nodes.containers)[i], l.Repr);
      var add, drop := caps.add, caps.drop;
      if adding {
        add := EditStrings(l, add, e);
      } else {
        drop := EditStrings(l, drop, e);
      }
      PutCaps(l, caps, add, drop);
    }
  }

  method NewCaps(l: LabObject, i: nat, v: Option<CapsVal>)
    requires l.Valid() && i < |Contents(l.nodes.containers)|
    modifies l.Repr
    ensures l.Valid() && fresh(l.Repr - old(l.Repr))
  {
    var r := Contents(l.nodes.containers)[i];
    if v.Some? {
      var add := FromSeq(v.value.add);
      var drop := FromSeq(v.value.drop);
      var caps := new Caps(add, drop);
      Widen(l, {caps} + Home(add) + Home(drop));
      PutContainer(l, i, r.(caps := caps));
    } else {
      PutContainer(l, i, r.(caps := null));
    }
  }

  method EditVm(l: LabObject, e: VmEdit)
    requires l.Valid()
    modifies l.Repr
    ensures l.Valid() && fresh(l.Repr - old(l.Repr))
  {
    match e
    case VmFields(i, fields) =>
      if i < |Contents(l.nodes.vms)| { PutVm(l, i, Contents(l.nodes.vms)[i].(fields := fields)); }
    case VmNics(i, nics) =>
      if i < |Contents(l.nodes.vms)| { EditVmNics(l, i, nics); }
    case VmMove(from, to) => MoveVms(l, from, to);
    case VmTruncate(n) => TruncateVms(l, n);
    case VmAppend(vm) =>
      var r;
      ghost var made;
      r, made := MakeVm(vm);
      Widen(l, made);
      AppendVms(l, r);
  }

  method EditSwitch(l: LabObject, e: SwEdit)
    requires l.Valid()
    modifies l.Repr
    ensures l.Valid() && fresh(l.Repr - old(l.Repr))
  {
    match e
    case SwFields(i, fields, mode, uplink) =>
      if i < |Contents(l.nodes.switches)| {
        PutSwitch(l, i, Contents(l.nodes.switches)[i].(fields := fields, mode := mode, uplink := uplink));
      }
    case SwUplinks(i, ids) =>
      if i < |Contents(l.nodes.switches)| { EditSwitchUplinks(l, i, ids); }
    case SwMove(from, to) => MoveSwitches(l, from, to);
    case SwTruncate(n) => TruncateSwitches(l, n);
    case SwAppend(sw) =>
      var r;
      ghost var made;
      r, made := MakeSwitch(sw);
      Widen(l, made);
      AppendSwitches(l, r);
  }

  method EditContainer(l: LabObject, e: CtEdit)
    requires l.Valid()
    modifies l.Repr
    ensures l.Valid() && fresh(l.Repr - old(l.Repr))
  {
    match e
    case CtMove(from, to) => MoveContainers(l, from, to);
    case CtTruncate(n) => TruncateContainers(l, n);
    case CtAppend(ct) =>
      var r;
      ghost var made;
      r, made := MakeContainer(ct);
      Widen(l, made);
      AppendContainers(l, r);
    case _ =>
      if e.i < |Contents(l.nodes.containers)| { EditContainerAt(l, e); }
  }

  method EditContainerAt(l: LabObject, e: CtEdit)
    requires l.Valid() && !e.CtMove? && !e.CtTruncate? && !e.CtAppend? && e.i < |Contents(l.nodes.containers)|
    modifies l.Repr
    ensures l.Valid() && fresh(l.Repr - old(l.Repr))
  {
    match e
    case CtFields(i, fields) => PutContainer(l, i, Contents(l.nodes.containers)[i].(fields := fields));
    case CtNics(i, nics) => EditContainerNics(l, i, nics);
    case CtCommand(i, command) => EditCommand(l, i, command);
    case CtEnv(i, key, value) => EditEnv(l, i, key, value);
    case CtNewEnv(i, env) => NewEnv(l, i, env);
    case CtAdd(i, add) => EditCaps(l, i, add, true);
    case CtDrop(i, drop) => EditCaps(l, i, drop, false);
    case CtNewCaps(i, caps) => NewCaps(l, i, caps);
  }

  lemma NodesApart(l: LabObject, rest: set<object>)
    requires rest == NodeMemory(l.Repr, l, l.flat, l.maps.positions)
    ensures l !in rest && rest <= l.Repr && (l.maps.positions != null ==> l.maps.positions !in rest)
    ensures rest !! Home(l.flat.uplinks) && rest !! Home(l.flat.links) && rest !! Home(l.flat.disks) && rest !! Home(l.flat.layoutLinks)
  {
  }

  lemma NodesWider(nodes: NodeParts, rest: set<object>, wider: set<object>)
    requires nodes.Ok(rest) && rest <= wider
    ensures nodes.Ok(wider) && nodes.Val(wider) == nodes.Val(rest)
  {
    hide VmValues, CtValues, SwValues, VmsOk, CtsOk, SwsOk;
    WiderVms(Contents(nodes.vms), rest, wider);
    WiderContainers(Contents(nodes.containers), rest, wider);
    WiderSwitches(Contents(nodes.switches), rest, wider);
  }

  /** New lists without references, the memory of the nodes untouched. */
  method SetFlat(l: LabObject, flat: FlatParts, ghost more: set<object>, ghost rest: set<object>)
    requires l in l.Repr && l.maps.Ok(l.Repr) && rest <= l.Repr && l !in rest && l.nodes.Ok(rest) && flat.Ok(l.Repr + more)
    modifies l
    ensures l.Valid() && l.Repr == old(l.Repr) + more
    ensures l.Val() == LabVal(old(l.id), old(l.nodes.Val(rest)), old(flat.Val(l.Repr + more)), old(l.maps.Val(l.Repr)))
  {
    hide NodeParts.Ok, NodeParts.Val;
    ghost var wider := l.Repr + more;
    l.flat := flat;
    l.Repr := wider;
    NodesWider(l.nodes, rest, wider);
  }

  method EditUplinks(l: LabObject, e: SliceEdit<Uplink>)
    requires l.Valid()
    modifies l.Repr
    ensures l.Valid() && fresh(l.Repr - old(l.Repr))
    ensures l.Val() == Written(old(l.Val()), Uplinks(e))
  {
    hide NodeParts.Ok, NodeParts.Val, NodeMemory;
    ghost var rest := NodeMemory(l.Repr, l, l.flat, l.maps.positions);
    NodesOutside(l.nodes, l.Repr, l, l.flat, l.maps.positions);
    NodesApart(l, rest);
    var s := EditSlice(l.flat.uplinks, e);
    SetFlat(l, l.flat.(uplinks := s), Home(s), rest);
  }

  method EditLinks(l: LabObject, e: SliceEdit<Link>)
    requires l.Valid()
    modifies l.Repr
    ensures l.Valid() && fresh(l.Repr - old(l.Repr))
    ensures l.Val() == Written(old(l.Val()), Links(e))
  {
    hide NodeParts.Ok, NodeParts.Val, NodeMemory;
    ghost var rest := NodeMemory(l.Repr, l, l.flat, l.maps.positions);
    NodesOutside(l.nodes, l.Repr, l, l.flat, l.maps.positions);
    NodesApart(l, rest);
    var s := EditSlice(l.flat.links, e);
    SetFlat(l, l.flat.(links := s), Home(s), rest);
  }

  method EditDisks(l: LabObject, e: SliceEdit<Disk>)
    requires l.Valid()
    modifies l.Repr
    ensures l.Valid() && fresh(l.Repr - old(l.Repr))
    ensures l.Val() == Written(old(l.Val()), Disks(e))
  {
    hide NodeParts.Ok, NodeParts.Val, NodeMemory;
    ghost var rest := NodeMemory(l.Repr, l, l.flat, l.maps.positions);
    NodesOutside(l.nodes, l.Repr, l, l.flat, l.maps.positions);
    NodesApart(l, rest);
    var s := EditSlice(l.flat.disks, e);
    SetFlat(l, l.flat.(disks := s), Home(s), rest);
  }

  method EditLayoutLinks(l: LabObject, e: SliceEdit<LayoutLink>)
    requires l.Valid()
    modifies l.Repr
    ensures l.Valid() && fresh(l.Repr - old(l.Repr))
    ensures l.Val() == Written(old(l.Val()), LayoutLinks(e))
  {
    hide NodeParts.Ok, NodeParts.Val, NodeMemory;
    ghost var rest := NodeMemory(l.Repr, l, l.flat, l.maps.positions);
    NodesOutside(l.nodes, l.Repr, l, l.flat, l.maps.positions);
    NodesApart(l, rest);
    var s := EditSlice(l.flat.layoutLinks, e);
    SetFlat(l, l.flat.(layoutLinks := s), Home(s), rest);
  }

  method EditPositions(l: LabObject, e: Edit)
    requires l.Valid() && (e.Place? || e.Unplace?)
    modifies l.Repr
    ensures l.Valid() && l.Repr == old(l.Repr)
    ensures l.Val() == Written(old(l.Val()), e)
  {
    hide NodeParts.Ok, NodeParts.Val, NodeMemory;
    ghost var rest := NodeMemory(l.Repr, l, l.flat, l.maps.positions);
    NodesOutside(l.nodes, l.Repr, l, l.flat, l.maps.positions);
    NodesApart(l, rest);
    var positions := l.maps.positions;
    if positions != null {
      positions.m := if e.Place? then positions.m[e.id := e.at] else positions.m - {e.id};
    }
    NodesWider(l.nodes, rest, l.Repr);
  }

  method EditMeta(l: LabObject, key: string, value: string)
    requires l.Valid()
    modifies l.Repr
    ensures l.Valid() && l.Repr == old(l.Repr)
  {
    var meta := l.maps.meta;
    if meta != null {
      meta.m := meta.m[key := value];
    }
  }

  method MakePositions(l: LabObject)
    requires l.Valid()
    modifies l.Repr
    ensures l.Valid() && fresh(l.Repr - old(l.Repr))
    ensures l.Val() == Written(old(l.Val()), NewPositions)
  {
    hide NodeParts.Ok, NodeParts.Val, NodeMemory;
    ghost var rest := NodeMemory(l.Repr, l, l.flat, l.maps.positions);
    NodesOutside(l.nodes, l.Repr, l, l.flat, l.maps.positions);
    NodesApart(l, rest);
    var made := new PositionMap(map[]);
    ghost var wider := l.Repr + {made};
    l.maps := l.maps.(positions := made);
    l.Repr := wider;
    NodesWider(l.nodes, rest, wider);
  }

  /** New lists of VMs, containers and switches, in fresh memory. */
  method MakeNodes(l: LabObject, v: NodesVal)
    requires l.Valid()
    modifies l.Repr
    ensures l.Valid() && fresh(l.Repr - old(l.Repr))
    ensures l.Val() == Written(old(l.Val()), NewNodes(v))
  {
    hide NodeParts.Ok, NodeParts.Val;
    var nodes;
    ghost var made;
    nodes, made := BuildNodes(v);
    ghost var wider := l.Repr + made;
    l.nodes := nodes;
    l.Repr := wider;
    NodesWider(nodes, made, wider);
  }

  method EditOnce(l: LabObject, e: Edit)
    requires l.Valid()
    modifies l.Repr
    ensures l.Valid() && fresh(l.Repr - old(l.Repr))
    ensures Definite(e) ==> l.Val() == Written(old(l.Val()), e)
  {
    match e
    case Vms(x) => EditVm(l, x);
    case Containers(x) => EditContainer(l, x);
    case Switches(x) => EditSwitch(l, x);
    case Uplinks(x) => EditUplinks(l, x);
    case Links(x) => EditLinks(l, x);
    case Disks(x) => EditDisks(l, x);
    case LayoutLinks(x) => EditLayoutLinks(l, x);
    case Place(_, _) => EditPositions(l, e);
    case Unplace(_) => EditPositions(l, e);
    case NewPositions => MakePositions(l);
    case SetMeta(key, value) => EditMeta(l, key, value);
    case NewNodes(nodes) => MakeNodes(l, nodes);
  }

  method RunScript(l: LabObject, script: seq<Edit>)
    requires l.Valid()
    modifies l.Repr
    ensures l.Valid() && fresh(l.Repr - old(l.Repr))
    ensures AllDefinite(script) ==> l.Val() == WrittenAll(old(l.Val()), script)
  {
    hide LabObject.Valid, LabObject.Val, Written;
    for i := 0 to |script|
      invariant l.Valid() && fresh(l.Repr - old(l.Repr))
      invariant AllDefinite(script[..i]) ==> l.Val() == WrittenAll(old(l.Val()), script[..i])
    {
      assert script[..i + 1][..i] == script[..i];
      EditOnce(l, script[i]);
      if AllDefinite(script[..i + 1]) { DefiniteSoFar(script, i); }
    }
    assert script[..|script|] == script;
  }

  lemma DefiniteSoFar(script: seq<Edit>, i: nat)
    requires i < |script| && AllDefinite(script[..i + 1])
    ensures AllDefinite(script[..i]) && Definite(script[i])
  {
    assert script[..i + 1][i] == script[i];
    assert forall h | 0 <= h < i :: script[..i + 1][h] == script[..i][h];
  }

  // ---------------------------------------------------------------- the session

  /** Building a lab object from what a file says. */
  method BuildNodes(v: NodesVal) returns (c: NodeParts, ghost made: set<object>)
    ensures fresh(made) && c.Ok(made) && c.Val(made) == v
  {
    hide VmValues, CtValues, SwValues, VmsOk, CtsOk, SwsOk;
    ghost var vmsMade, containersMade, switchesMade;
    var vms, containers, switches;
    vms, vmsMade := BuildVms(v.vms);
    containers, containersMade := BuildContainers(v.containers);
    switches, switchesMade := BuildSwitches(v.switches);
    made := vmsMade + containersMade + switchesMade;
    WiderVms(Contents(vms), vmsMade, made);
    WiderContainers(Contents(containers), containersMade, made);
    WiderSwitches(Contents(switches), switchesMade, made);
    c := NodeParts(vms, containers, switches);
  }

  method BuildVms(vs: seq<VmVal>) returns (out: Slice<VmRec>, ghost made: set<object>)
    ensures fresh(made) && In(out, made) && VmsOk(Contents(out), made) && VmValues(Contents(out), made) == vs
  {
    hide VmValue, VmOk;
    var recs: seq<VmRec> := [];
    made := {};
    for i := 0 to |vs|
      invariant fresh(made) && |recs| == i && VmsOk(recs, made)
      invariant forall h | 0 <= h < i :: VmValue(recs[h], made) == vs[h]
    {
      var c;
      ghost var more;
      c, more := MakeVm(vs[i]);
      WiderVms(recs, made, made + more);
      WiderVms([c], more, made + more);
      assert VmValue([c][0], made + more) == vs[i];
      recs, made := recs + [c], made + more;
    }
    out := FromSeq(recs);
    WiderVms(recs, made, made + Home(out));
    made := made + Home(out);
  }

  method BuildContainers(vs: seq<CtVal>) returns (out: Slice<CtRec>, ghost made: set<object>)
    ensures fresh(made) && In(out, made) && CtsOk(Contents(out), made) && CtValues(Contents(out), made) == vs
  {
    hide CtValue, CtOk;
    var recs: seq<CtRec> := [];
    made := {};
    for i := 0 to |vs|
      invariant fresh(made) && |recs| == i && CtsOk(recs, made)
      invariant forall h | 0 <= h < i :: CtValue(recs[h], made) == vs[h]
    {
      var c;
      ghost var more;
      c, more := MakeContainer(vs[i]);
      WiderContainers(recs, made, made + more);
      WiderContainers([c], more, made + more);
      assert CtValue([c][0], made + more) == vs[i];
      recs, made := recs + [c], made + more;
    }
    out := FromSeq(recs);
    WiderContainers(recs, made, made + Home(out));
    made := made + Home(out);
  }

  method BuildSwitches(vs: seq<SwVal>) returns (out: Slice<SwRec>, ghost made: set<object>)
    ensures fresh(made) && In(out, made) && SwsOk(Contents(out), made) && SwValues(Contents(out), made) == vs
  {
    hide SwValue, SwOk;
    var recs: seq<SwRec> := [];
    made := {};
    for i := 0 to |vs|
      invariant fresh(made) && |recs| == i && SwsOk(recs, made)
      invariant forall h | 0 <= h < i :: SwValue(recs[h], made) == vs[h]
    {
      var c;
      ghost var more;
      c, more := MakeSwitch(vs[i]);
      WiderSwitches(recs, made, made + more);
      WiderSwitches([c], more, made + more);
      assert SwValue([c][0], made + more) == vs[i];
      recs, made := recs + [c], made + more;
    }
    out := FromSeq(recs);
    WiderSwitches(recs, made, made + Home(out));
    made := made + Home(out);
  }

  method BuildTwo<A, B>(xs: seq<A>, ys: seq<B>) returns (c: Slice<A>, d: Slice<B>, ghost made: set<object>)
    ensures fresh(made) && In(c, made) && In(d, made) && Contents(c) == xs && Contents(d) == ys
  {
    c := FromSeq(xs);
    d := FromSeq(ys);
    made := Home(c) + Home(d);
  }

  method BuildFlat(v: FlatVal) returns (c: FlatParts, ghost made: set<object>)
    ensures fresh(made) && c.Ok(made) && c.Val(made) == v
  {
    var uplinks, links, disks, layoutLinks;
    ghost var more;
    uplinks, links, made := BuildTwo(v.uplinks, v.links);
    disks, layoutLinks, more := BuildTwo(v.disks, v.layoutLinks);
    made := made + more;
    c := FlatParts(uplinks, links, disks, layoutLinks);
  }

  method BuildMaps(v: MapsVal) returns (c: MapParts, ghost made: set<object>)
    ensures fresh(made) && c.Ok(made) && c.Val(made) == v
  {
    var positions: PositionMap? := null;
    if v.positions.Some? {
      positions := new PositionMap(v.positions.value);
    }
    var meta := MakeEnv(v.meta);
    c := MapParts(positions, meta);
    made := (if positions == null then {} else {positions}) + if meta == null then {} else {meta};
  }

  method Build(v: LabVal) returns (out: LabObject)
    ensures out.Valid() && out in out.Repr && fresh(out.Repr) && out.Val() == v
  {
    hide NodeParts.Ok, NodeParts.Val, FlatParts.Ok, FlatParts.Val, MapParts.Ok, MapParts.Val;
    ghost var nodesMade, flatMade, mapsMade;
    var nodes, flat, maps;
    nodes, nodesMade := BuildNodes(v.nodes);
    flat, flatMade := BuildFlat(v.flat);
    maps, mapsMade := BuildMaps(v.maps);
    ghost var made := nodesMade + flatMade + mapsMade;
    WiderParts(nodes, flat, maps, nodesMade, flatMade, mapsMade, made);
    out := new LabObject(v.id, nodes, flat, maps, made);
  }

  // ---------------------------------------------------------------- what the rules see

  function VmOf(v: VmVal): Workload {
    Workload(v.fields.id, v.fields.name, v.fields.service, v.fields.disk, v.networks)
  }

  function ContainerOf(v: CtVal): Workload {
    Workload(v.fields.id, v.fields.name, v.fields.service, v.fields.disk, v.networks)
  }

  function SwitchOf(v: SwVal): Switch {
    Switch(v.fields.id, v.fields.name, v.mode, v.uplink, v.uplinks)
  }

  /** The lab the rules are about, within everything a file says. */
  function LabOf(v: LabVal): Lab {
    Lab(seq(|v.nodes.vms|, i requires 0 <= i < |v.nodes.vms| => VmOf(v.nodes.vms[i])),
        seq(|v.nodes.containers|, i requires 0 <= i < |v.nodes.containers| => ContainerOf(v.nodes.containers[i])),
        seq(|v.nodes.switches|, i requires 0 <= i < |v.nodes.switches| => SwitchOf(v.nodes.switches[i])),
        v.flat.uplinks, v.flat.links, v.flat.disks, if v.maps.positions.Some? then v.maps.positions.value else map[], v.flat.layoutLinks)
  }

  /** Normalize, of which nothing is assumed, path resolution, the hashes, and the rules Validate has for the remaining fields. */
  datatype Format = Format(normal: LabVal -> LabVal, resolve: PathFn, hashes: Hashes, others: LabVal -> bool) {
    function NamingOf(v: LabVal): Naming {
      Naming(v.id, hashes.stem, hashes.link, hashes.container)
    }

    /** What Validate accepts: every rule of the lab holds, names differ, and the remaining fields are in order. */
    ghost predicate Accepts(v: LabVal) {
      others(v) && Validation.Accepted(NamingOf(v), LabOf(v), resolve)
    }
  }

  datatype Hashes = Hashes(stem: string -> string, link: string -> string, container: string -> string)

  method Validate(format: Format, v: LabVal) returns (ok: bool)
    ensures ok <==> format.Accepts(v)
  {
    hide Validation.Accepted;
    var problems := Validation.Validate(format.NamingOf(v), LabOf(v), format.resolve);
    ok := format.others(v) && problems == [];
  }

  /** Which file operations succeed: the save, the load after it, and the load after a failed save. */
  datatype Io = Io(saves: bool, loads: bool, reloads: bool)

  datatype Request = Abandoned | Commit(script: seq<Edit>, rejects: bool, io: Io)

  class Session {
    var current: LabObject
    var file: Option<LabVal>
    var revision: nat

    constructor (current: LabObject, file: Option<LabVal>)
      ensures this.current == current && this.file == file && revision == 0
    {
      this.current, this.file, revision := current, file, 0;
    }

    method Replace(l: LabObject)
      modifies this
      ensures current == l && file == old(file) && revision == old(revision) + 1
    {
      current := l;
      revision := revision + 1;
    }

    /** SaveFile works on a copy, and the file changes in one step or not at all. */
    method SaveFile(format: Format, saves: bool) returns (ok: bool)
      requires current.Valid()
      modifies this`file
      ensures ok <==> saves && format.Accepts(format.normal(old(current.Val())))
      ensures file == if ok then Some(format.normal(old(current.Val()))) else old(file)
    {
      var copy := Clone(current);
      var v := format.normal(copy.Val());
      var accepted := Validate(format, v);
      ok := saves && accepted;
      if ok {
        file := Some(v);
      }
    }

    method LoadFile(format: Format, loads: bool) returns (loaded: LabObject?)
      ensures loaded != null <==> loads && file.Some? && format.Accepts(format.normal(file.value))
      ensures loaded != null ==>
        loaded.Valid() && fresh(loaded.Repr) && loaded.Val() == format.normal(file.value) && format.Accepts(loaded.Val())
    {
      loaded := null;
      if loads && file.Some? {
        var accepted := Validate(format, format.normal(file.value));
        if accepted {
          loaded := Build(format.normal(file.value));
        }
      }
    }

    method SaveAndReload(format: Format, io: Io) returns (ok: bool)
      requires current.Valid() && this !in current.Repr
      modifies this
      ensures current.Valid() && this !in current.Repr && (current == old(current) || fresh(current.Repr))
      ensures var saved := io.saves && format.Accepts(format.normal(old(current.Val())));
        && file == (if saved then Some(format.normal(old(current.Val()))) else old(file))
        && (ok <==> saved && io.loads && format.Accepts(format.normal(file.value)))
        && (ok ==> current.Val() == format.normal(file.value) && fresh(current.Repr))
      ensures revision >= old(revision) && (ok ==> revision > old(revision))
    {
      hide Format.Accepts, LabObject.Val;
      var saved := SaveFile(format, io.saves);
      if !saved {
        var previous := LoadFile(format, io.reloads);
        if previous != null {
          Replace(previous);
        }
        return false;
      }
      var loaded := LoadFile(format, io.loads);
      if loaded == null {
        return false;
      }
      Replace(loaded);
      return true;
    }

    /**
     A whole mutation: snapshot, any script of in-place writes, then either a refusal by the callback or a
     commit. If it fails, the lab in memory is what it was; the file is too, unless saving succeeded and
     only the load after it failed. If it succeeds, memory and file agree on a valid lab.
     */
    method Mutate(script: seq<Edit>, rejects: bool, format: Format, io: Io) returns (ok: bool, ghost edited: LabVal)
      requires current.Valid() && this !in current.Repr
      modifies this, current.Repr
      ensures current.Valid() && this !in current.Repr && fresh(current.Repr)
      ensures !ok ==> current.Val() == old(current.Val())
      ensures var saved := !rejects && io.saves && format.Accepts(format.normal(edited));
        && file == (if saved then Some(format.normal(edited)) else old(file))
        && (ok <==> saved && io.loads && format.Accepts(format.normal(file.value)))
        && (ok ==> current.Val() == format.normal(file.value))
      ensures AllDefinite(script) ==> edited == WrittenAll(old(current.Val()), script)
      ensures revision > old(revision)
    {
      hide LabObject.Valid, LabObject.Val, Format.Accepts, WrittenAll;
      var snapshot := Clone(current);
      RunScript(current, script);
      edited := current.Val();
      if rejects {
        Replace(snapshot);
        return false, edited;
      }
      ok := SaveAndReload(format, io);
      if !ok {
        Replace(snapshot);
      }
    }

    /**
     Every lab a session ever holds meets every rule, whatever is edited and whichever file operation fails. A request
     that begins a mutation and then returns early has taken a snapshot and written nothing.
     */
    method Run(requests: seq<Request>, format: Format) returns (ghost labs: seq<LabVal>)
      requires current.Valid() && this !in current.Repr && format.Accepts(current.Val())
      modifies this, current.Repr
      ensures |labs| == |requests| + 1 && labs[0] == old(current.Val())
      ensures forall i | 0 <= i < |labs| :: format.Accepts(labs[i])
      ensures forall i | 0 <= i < |labs| ::
        Valid(LabOf(labs[i]), format.resolve) && ManagedNamesOk(format.NamingOf(labs[i]), LabOf(labs[i]))
      ensures current.Valid() && current.Val() == labs[|requests|]
    {
      hide LabObject.Valid, LabObject.Val;
      labs := [current.Val()];
      for i := 0 to |requests|
        invariant current.Valid() && this !in current.Repr && format.Accepts(current.Val())
        invariant |labs| == i + 1 && labs[i] == current.Val()
        invariant labs[0] == old(current.Val())
        invariant fresh(current.Repr - old(current.Repr))
        invariant forall j | 0 <= j < |labs| :: format.Accepts(labs[j])
      {
        match requests[i] {
          case Abandoned =>
            var _ := Clone(current);
          case Commit(script, rejects, io) =>
            var ok;
            ghost var edited;
            ok, edited := Mutate(script, rejects, format, io);
        }
        labs := labs + [current.Val()];
      }
    }
  }
}
