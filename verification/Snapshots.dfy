/**
 The loaded lab as it lies in memory: slices over backing arrays, maps and capability records behind
 references. A snapshot is a deep copy; edits write in place, append into spare capacity, move elements
 and truncate. What matters is that none of this reaches the snapshot.
 */
module Snapshots {
  import opened Numerals
  import opened LabModel

  // ---------------------------------------------------------------- slices

  datatype Slice<T> = Nil | Backed(a: array<T>, len: nat)

  predicate Fits<T>(s: Slice<T>) {
    s.Backed? ==> s.len <= s.a.Length
  }

  function Home<T>(s: Slice<T>): set<object> {
    if s.Backed? then {s.a} else {}
  }

  function Contents<T>(s: Slice<T>): seq<T>
    requires Fits(s)
    reads Home(s)
  {
    if s.Backed? then s.a[..s.len] else []
  }

  /** append([]T(nil), in...): a fresh array, or nil for nothing. */
  method Copy<T>(s: Slice<T>) returns (c: Slice<T>)
    requires Fits(s)
    ensures Fits(c) && Contents(c) == Contents(s) && (c.Backed? ==> fresh(c.a))
  {
    if s.Nil? || s.len == 0 {
      return Nil;
    }
    var a := new T[s.len](i requires 0 <= i < s.len reads s.a => s.a[i]);
    c := Backed(a, s.len);
    assert Contents(c) == Contents(s);
  }

  method FromSeq<T>(xs: seq<T>) returns (c: Slice<T>)
    ensures Fits(c) && Contents(c) == xs && (c.Backed? ==> fresh(c.a))
  {
    if xs == [] {
      return Nil;
    }
    var a := new T[|xs|](i requires 0 <= i < |xs| => xs[i]);
    c := Backed(a, |xs|);
    assert Contents(c) == xs;
  }

  /** What Go code does to a slice it edits: element writes, moves of an in-place filter, reslicing, append. */
  datatype SliceEdit<T> = Put(i: int, x: T) | Move(from: int, to: int) | Truncate(n: int) | Append(x: T) | Replace(xs: seq<T>)

  function Edited<T>(xs: seq<T>, e: SliceEdit<T>): seq<T> {
    match e
    case Put(i, x) => if 0 <= i < |xs| then xs[i := x] else xs
    case Move(from, to) => if 0 <= from < |xs| && 0 <= to < |xs| then xs[to := xs[from]] else xs
    case Truncate(n) => if 0 <= n <= |xs| then xs[..n] else xs
    case Append(x) => xs + [x]
    case Replace(ys) => ys
  }

  method EditSlice<T>(s: Slice<T>, e: SliceEdit<T>) returns (r: Slice<T>)
    requires Fits(s)
    modifies Home(s)
    ensures Fits(r) && Contents(r) == Edited(old(Contents(s)), e)
    ensures r.Backed? ==> fresh(r.a) || (s.Backed? && r.a == s.a)
  {
    r := s;
    match e
    case Put(i, x) =>
      if s.Backed? && 0 <= i < s.len { s.a[i] := x; }
    case Move(from, to) =>
      if s.Backed? && 0 <= from < s.len && 0 <= to < s.len { s.a[to] := s.a[from]; }
    case Truncate(n) =>
      if s.Backed? && 0 <= n <= s.len {
        r := Backed(s.a, n);
        assert s.a[..n] == s.a[..s.len][..n];
      }
    case Append(x) =>
      if s.Backed? && s.len < s.a.Length {
        s.a[s.len] := x;
        r := Backed(s.a, s.len + 1);
        assert s.a[..s.len + 1] == old(Contents(s)) + [x];
      } else {
        r := FromSeq(Contents(s) + [x]);
      }
    case Replace(xs) =>
      r := FromSeq(xs);
  }

  // ---------------------------------------------------------------- the records

  class StringMap {
    var m: map<string, string>

    constructor (m: map<string, string>)
      ensures this.m == m
    {
      this.m := m;
    }
  }

  class PositionMap {
    var m: map<string, Position>

    constructor (m: map<string, Position>)
      ensures this.m == m
    {
      this.m := m;
    }
  }

  class Caps {
    var add: Slice<string>
    var drop: Slice<string>

    constructor (add: Slice<string>, drop: Slice<string>)
      ensures this.add == add && this.drop == drop
    {
      this.add, this.drop := add, drop;
    }
  }

  /** The scalar fields of a node; those the rules do not mention are folded into one. */
  datatype Scalars = Scalars(id: string, name: string, service: string, disk: string, others: string)

  datatype VmRec = VmRec(fields: Scalars, networks: Slice<Nic>)
  datatype CtRec = CtRec(fields: Scalars, command: Slice<string>, env: StringMap?, caps: Caps?, networks: Slice<Nic>)
  datatype SwRec = SwRec(fields: Scalars, mode: string, uplink: string, uplinks: Slice<string>)

  datatype CapsVal = CapsVal(add: seq<string>, drop: seq<string>)
  datatype VmVal = VmVal(fields: Scalars, networks: seq<Nic>)
  datatype CtVal = CtVal(fields: Scalars, command: seq<string>, env: Option<map<string, string>>, caps: Option<CapsVal>, networks: seq<Nic>)
  datatype SwVal = SwVal(fields: Scalars, mode: string, uplink: string, uplinks: seq<string>)

  datatype NodesVal = NodesVal(vms: seq<VmVal>, containers: seq<CtVal>, switches: seq<SwVal>)
  datatype FlatVal = FlatVal(uplinks: seq<Uplink>, links: seq<Link>, disks: seq<Disk>, layoutLinks: seq<LayoutLink>)
  datatype MapsVal = MapsVal(positions: Option<map<string, Position>>, meta: Option<map<string, string>>)

  /** What a deep comparison sees, except that a nil slice and an empty one are the same. */
  datatype LabVal = LabVal(id: string, nodes: NodesVal, flat: FlatVal, maps: MapsVal)

  // ---------------------------------------------------------------- reading records

  /** The slice lies within repr. */
  predicate In<T>(s: Slice<T>, repr: set<object>) {
    s.Backed? ==> s.a in repr && s.len <= s.a.Length
  }

  ghost predicate VmOk(r: VmRec, repr: set<object>) {
    In(r.networks, repr)
  }

  ghost predicate CapsOk(c: Caps?, repr: set<object>)
    reads repr
  {
    c != null ==> c in repr && In(c.add, repr) && In(c.drop, repr)
  }

  ghost predicate CtOk(r: CtRec, repr: set<object>)
    reads repr
  {
    In(r.command, repr) && (r.env != null ==> r.env in repr) && CapsOk(r.caps, repr) && In(r.networks, repr)
  }

  ghost predicate SwOk(r: SwRec, repr: set<object>) {
    In(r.uplinks, repr)
  }

  function VmValue(r: VmRec, ghost repr: set<object>): VmVal
    requires VmOk(r, repr)
    reads repr
  {
    VmVal(r.fields, Contents(r.networks))
  }

  function CapsValue(c: Caps?, ghost repr: set<object>): Option<CapsVal>
    requires CapsOk(c, repr)
    reads repr
  {
    if c == null then None else Some(CapsVal(Contents(c.add), Contents(c.drop)))
  }

  function CtValue(r: CtRec, ghost repr: set<object>): CtVal
    requires CtOk(r, repr)
    reads repr
  {
    CtVal(r.fields, Contents(r.command), if r.env == null then None else Some(r.env.m), CapsValue(r.caps, repr), Contents(r.networks))
  }

  function SwValue(r: SwRec, ghost repr: set<object>): SwVal
    requires SwOk(r, repr)
    reads repr
  {
    SwVal(r.fields, r.mode, r.uplink, Contents(r.uplinks))
  }

  // ---------------------------------------------------------------- the lab object

  ghost predicate VmsOk(xs: seq<VmRec>, repr: set<object>) {
    forall i | 0 <= i < |xs| :: VmOk(xs[i], repr)
  }

  ghost predicate CtsOk(xs: seq<CtRec>, repr: set<object>)
    reads repr
  {
    forall i | 0 <= i < |xs| :: CtOk(xs[i], repr)
  }

  ghost predicate SwsOk(xs: seq<SwRec>, repr: set<object>) {
    forall i | 0 <= i < |xs| :: SwOk(xs[i], repr)
  }

  function VmValues(xs: seq<VmRec>, ghost repr: set<object>): seq<VmVal>
    requires VmsOk(xs, repr)
    reads repr
  {
    seq(|xs|, i requires 0 <= i < |xs| && VmOk(xs[i], repr) reads repr => VmValue(xs[i], repr))
  }

  function CtValues(xs: seq<CtRec>, ghost repr: set<object>): seq<CtVal>
    requires CtsOk(xs, repr)
    reads repr
  {
    seq(|xs|, i requires 0 <= i < |xs| && CtOk(xs[i], repr) reads repr => CtValue(xs[i], repr))
  }

  function SwValues(xs: seq<SwRec>, ghost repr: set<object>): seq<SwVal>
    requires SwsOk(xs, repr)
    reads repr
  {
    seq(|xs|, i requires 0 <= i < |xs| && SwOk(xs[i], repr) reads repr => SwValue(xs[i], repr))
  }

  /** The lists whose elements refer to further memory. */
  datatype NodeParts = NodeParts(vms: Slice<VmRec>, containers: Slice<CtRec>, switches: Slice<SwRec>) {
    ghost predicate Ok(repr: set<object>)
      reads repr
    {
      && In(vms, repr) && In(containers, repr) && In(switches, repr)
      && VmsOk(Contents(vms), repr) && CtsOk(Contents(containers), repr) && SwsOk(Contents(switches), repr)
    }

    function Val(ghost repr: set<object>): NodesVal
      requires Ok(repr)
      reads repr
    {
      NodesVal(VmValues(Contents(vms), repr), CtValues(Contents(containers), repr), SwValues(Contents(switches), repr))
    }
  }

  /** The lists whose elements hold no references. */
  datatype FlatParts = FlatParts(uplinks: Slice<Uplink>, links: Slice<Link>, disks: Slice<Disk>, layoutLinks: Slice<LayoutLink>) {
    predicate Ok(repr: set<object>) {
      In(uplinks, repr) && In(links, repr) && In(disks, repr) && In(layoutLinks, repr)
    }

    function Val(ghost repr: set<object>): FlatVal
      requires Ok(repr)
      reads repr
    {
      FlatVal(Contents(uplinks), Contents(links), Contents(disks), Contents(layoutLinks))
    }
  }

  datatype MapParts = MapParts(positions: PositionMap?, meta: StringMap?) {
    predicate Ok(repr: set<object>) {
      (positions != null ==> positions in repr) && (meta != null ==> meta in repr)
    }

    function Val(ghost repr: set<object>): MapsVal
      requires Ok(repr)
      reads repr
    {
      MapsVal(if positions == null then None else Some(positions.m), if meta == null then None else Some(meta.m))
    }
  }

  /** The lab struct, its fields grouped by what they refer to. */
  class LabObject {
    var id: string
    var nodes: NodeParts
    var flat: FlatParts
    var maps: MapParts
    ghost var Repr: set<object>

    /** Everything reachable lies in Repr; nothing is assumed about sharing inside it. */
    ghost predicate Valid()
      reads this, Repr
    {
      this in Repr && nodes.Ok(Repr) && flat.Ok(Repr) && maps.Ok(Repr)
    }

    function Val(): LabVal
      requires Valid()
      reads this, Repr
    {
      LabVal(id, nodes.Val(Repr), flat.Val(Repr), maps.Val(Repr))
    }

    constructor (id: string, nodes: NodeParts, flat: FlatParts, maps: MapParts, ghost repr: set<object>)
      requires nodes.Ok(repr) && flat.Ok(repr) && maps.Ok(repr)
      ensures Valid() && Repr == repr + {this}
      ensures Val() == LabVal(id, nodes.Val(repr), flat.Val(repr), maps.Val(repr))
    {
      this.id, this.nodes, this.flat, this.maps := id, nodes, flat, maps;
      Repr := repr + {this};
      new;
      WiderParts(nodes, flat, maps, repr, repr, repr, Repr);
    }
  }

  // ---------------------------------------------------------------- cloning

  method CloneVm(r: VmRec, ghost repr: set<object>) returns (c: VmRec, ghost made: set<object>)
    requires VmOk(r, repr)
    ensures fresh(made) && VmOk(c, made) && VmValue(c, made) == VmValue(r, repr)
  {
    var nics := Copy(r.networks);
    c := r.(networks := nics);
    made := Home(nics);
  }

  method CloneVms(s: Slice<VmRec>, ghost repr: set<object>) returns (out: Slice<VmRec>, ghost made: set<object>)
    requires In(s, repr) && VmsOk(Contents(s), repr)
    ensures fresh(made) && In(out, made) && VmsOk(Contents(out), made)
    ensures VmValues(Contents(out), made) == VmValues(Contents(s), repr)
  {
    hide VmValue, VmOk;
    ghost var was := Contents(s);
    var recs: seq<VmRec> := [];
    made := {};
    for i := 0 to |Contents(s)|
      invariant fresh(made) && Contents(s) == was && |recs| == i && VmsOk(was, repr) && VmsOk(recs, made)
      invariant forall h | 0 <= h < i :: VmValue(recs[h], made) == VmValue(was[h], repr)
    {
      var c;
      ghost var more;
      c, more := CloneVm(Contents(s)[i], repr);
      WiderVms(recs, made, made + more);
      WiderVms([c], more, made + more);
      assert VmValue([c][0], made + more) == VmValue(was[i], repr);
      recs, made := recs + [c], made + more;
    }
    out := FromSeq(recs);
    WiderVms(recs, made, made + Home(out));
    made := made + Home(out);
  }

  method CloneSwitch(r: SwRec, ghost repr: set<object>) returns (c: SwRec, ghost made: set<object>)
    requires SwOk(r, repr)
    ensures fresh(made) && SwOk(c, made) && SwValue(c, made) == SwValue(r, repr)
  {
    var ids := Copy(r.uplinks);
    c := r.(uplinks := ids);
    made := Home(ids);
  }

  method CloneSwitches(s: Slice<SwRec>, ghost repr: set<object>) returns (out: Slice<SwRec>, ghost made: set<object>)
    requires In(s, repr) && SwsOk(Contents(s), repr)
    ensures fresh(made) && In(out, made) && SwsOk(Contents(out), made)
    ensures SwValues(Contents(out), made) == SwValues(Contents(s), repr)
  {
    hide SwValue, SwOk;
    ghost var was := Contents(s);
    var recs: seq<SwRec> := [];
    made := {};
    for i := 0 to |Contents(s)|
      invariant fresh(made) && Contents(s) == was && |recs| == i && SwsOk(was, repr) && SwsOk(recs, made)
      invariant forall h | 0 <= h < i :: SwValue(recs[h], made) == SwValue(was[h], repr)
    {
      var c;
      ghost var more;
      c, more := CloneSwitch(Contents(s)[i], repr);
      WiderSwitches(recs, made, made + more);
      WiderSwitches([c], more, made + more);
      assert SwValue([c][0], made + more) == SwValue(was[i], repr);
      recs, made := recs + [c], made + more;
    }
    out := FromSeq(recs);
    WiderSwitches(recs, made, made + Home(out));
    made := made + Home(out);
  }

  method CloneCaps(r: Caps?, ghost repr: set<object>) returns (c: Caps?, ghost made: set<object>)
    requires CapsOk(r, repr)
    ensures fresh(made) && CapsOk(c, made) && CapsValue(c, made) == CapsValue(r, repr)
  {
    c, made := null, {};
    if r != null {
      var add := Copy(r.add);
      var drop := Copy(r.drop);
      c := new Caps(add, drop);
      made := Home(add) + Home(drop) + {c};
    }
  }

  method CloneStringMap(r: StringMap?) returns (c: StringMap?)
    ensures c != null ==> fresh(c)
    ensures if r == null then c == null else c != null && c.m == r.m
  {
    c := null;
    if r != null {
      c := new StringMap(r.m);
    }
  }

  method ClonePositionMap(r: PositionMap?) returns (c: PositionMap?)
    ensures c != null ==> fresh(c)
    ensures if r == null then c == null else c != null && c.m == r.m
  {
    c := null;
    if r != null {
      c := new PositionMap(r.m);
    }
  }

  method CloneContainer(r: CtRec, ghost repr: set<object>) returns (c: CtRec, ghost made: set<object>)
    requires CtOk(r, repr)
    ensures fresh(made) && CtOk(c, made) && CtValue(c, made) == CtValue(r, repr)
  {
    hide Contents, CapsValue, CapsOk;
    var command := Copy(r.command);
    var env := CloneStringMap(r.env);
    var caps;
    ghost var capsMade;
    caps, capsMade := CloneCaps(r.caps, repr);
    var nics := Copy(r.networks);
    made := capsMade + Home(command) + Home(nics) + if env == null then {} else {env};
    WiderCaps(caps, capsMade, made);
    c := CtRec(r.fields, command, env, caps, nics);
  }

  lemma WiderCaps(c: Caps?, repr: set<object>, wider: set<object>)
    requires CapsOk(c, repr) && repr <= wider
    ensures CapsOk(c, wider) && CapsValue(c, wider) == CapsValue(c, repr)
  {
  }

  method CloneContainers(s: Slice<CtRec>, ghost repr: set<object>) returns (out: Slice<CtRec>, ghost made: set<object>)
    requires In(s, repr) && CtsOk(Contents(s), repr)
    ensures fresh(made) && In(out, made) && CtsOk(Contents(out), made)
    ensures CtValues(Contents(out), made) == CtValues(Contents(s), repr)
  {
    hide CtValue, CtOk;
    ghost var was := Contents(s);
    var recs: seq<CtRec> := [];
    made := {};
    for i := 0 to |Contents(s)|
      invariant fresh(made) && Contents(s) == was && |recs| == i && CtsOk(was, repr) && CtsOk(recs, made)
      invariant forall h | 0 <= h < i :: CtValue(recs[h], made) == CtValue(was[h], repr)
    {
      var c;
      ghost var more;
      c, more := CloneContainer(Contents(s)[i], repr);
      WiderContainers(recs, made, made + more);
      WiderContainers([c], more, made + more);
      assert CtValue([c][0], made + more) == CtValue(was[i], repr);
      recs, made := recs + [c], made + more;
    }
    out := FromSeq(recs);
    WiderContainers(recs, made, made + Home(out));
    made := made + Home(out);
  }

  method CloneNodes(n: NodeParts, ghost repr: set<object>) returns (c: NodeParts, ghost made: set<object>)
    requires n.Ok(repr)
    ensures fresh(made) && c.Ok(made) && c.Val(made) == n.Val(repr)
  {
    hide VmValues, CtValues, SwValues, VmsOk, CtsOk, SwsOk;
    ghost var vmsMade, containersMade, switchesMade;
    var vms, containers, switches;
    vms, vmsMade := CloneVms(n.vms, repr);
    containers, containersMade := CloneContainers(n.containers, repr);
    switches, switchesMade := CloneSwitches(n.switches, repr);
    made := vmsMade + containersMade + switchesMade;
    WiderVms(Contents(vms), vmsMade, made);
    WiderContainers(Contents(containers), containersMade, made);
    WiderSwitches(Contents(switches), switchesMade, made);
    c := NodeParts(vms, containers, switches);
  }

  method CopyTwo<A, B>(a: Slice<A>, b: Slice<B>, ghost repr: set<object>)
    returns (c: Slice<A>, d: Slice<B>, ghost made: set<object>)
    requires In(a, repr) && In(b, repr)
    ensures fresh(made) && In(c, made) && In(d, made) && Contents(c) == Contents(a) && Contents(d) == Contents(b)
  {
    c := Copy(a);
    d := Copy(b);
    made := Home(c) + Home(d);
  }

  method CloneFlat(f: FlatParts, ghost repr: set<object>) returns (c: FlatParts, ghost made: set<object>)
    requires f.Ok(repr)
    ensures fresh(made) && c.Ok(made) && c.Val(made) == f.Val(repr)
  {
    var uplinks, links, disks, layoutLinks;
    ghost var more;
    uplinks, links, made := CopyTwo(f.uplinks, f.links, repr);
    disks, layoutLinks, more := CopyTwo(f.disks, f.layoutLinks, repr);
    made := made + more;
    c := FlatParts(uplinks, links, disks, layoutLinks);
  }

  method CloneMaps(m: MapParts, ghost repr: set<object>) returns (c: MapParts, ghost made: set<object>)
    requires m.Ok(repr)
    ensures fresh(made) && c.Ok(made) && c.Val(made) == m.Val(repr)
  {
    var positions := ClonePositionMap(m.positions);
    var meta := CloneStringMap(m.meta);
    c := MapParts(positions, meta);
    made := (if positions == null then {} else {positions}) + if meta == null then {} else {meta};
  }

  /** Clone: the copy says what the original says and shares no memory with anything that existed. */
  method Clone(l: LabObject) returns (out: LabObject)
    requires l.Valid()
    ensures out.Valid() && out in out.Repr && fresh(out.Repr) && out.Val() == l.Val()
  {
    hide NodeParts.Ok, NodeParts.Val, FlatParts.Ok, FlatParts.Val, MapParts.Ok, MapParts.Val;
    ghost var nodesMade, flatMade, mapsMade;
    var nodes, flat, maps;
    nodes, nodesMade := CloneNodes(l.nodes, l.Repr);
    flat, flatMade := CloneFlat(l.flat, l.Repr);
    maps, mapsMade := CloneMaps(l.maps, l.Repr);
    ghost var made := nodesMade + flatMade + mapsMade;
    WiderParts(nodes, flat, maps, nodesMade, flatMade, mapsMade, made);
    out := new LabObject(l.id, nodes, flat, maps, made);
  }

  lemma WiderParts(nodes: NodeParts, flat: FlatParts, maps: MapParts, a: set<object>, b: set<object>, c: set<object>, wider: set<object>)
    requires nodes.Ok(a) && flat.Ok(b) && maps.Ok(c) && a <= wider && b <= wider && c <= wider
    ensures nodes.Ok(wider) && flat.Ok(wider) && maps.Ok(wider)
    ensures nodes.Val(wider) == nodes.Val(a) && flat.Val(wider) == flat.Val(b) && maps.Val(wider) == maps.Val(c)
  {
    hide VmValues, CtValues, SwValues, VmsOk, CtsOk, SwsOk;
    WiderVms(Contents(nodes.vms), a, wider);
    WiderContainers(Contents(nodes.containers), a, wider);
    WiderSwitches(Contents(nodes.switches), a, wider);
  }

  lemma WiderVms(xs: seq<VmRec>, repr: set<object>, wider: set<object>)
    requires VmsOk(xs, repr) && repr <= wider
    ensures VmsOk(xs, wider) && VmValues(xs, wider) == VmValues(xs, repr)
    ensures forall h | 0 <= h < |xs| :: VmValue(xs[h], wider) == VmValue(xs[h], repr)
  {
    forall h | 0 <= h < |xs| ensures VmOk(xs[h], wider) { assert VmOk(xs[h], repr); }
  }

  lemma WiderContainers(xs: seq<CtRec>, repr: set<object>, wider: set<object>)
    requires CtsOk(xs, repr) && repr <= wider
    ensures CtsOk(xs, wider) && CtValues(xs, wider) == CtValues(xs, repr)
    ensures forall h | 0 <= h < |xs| :: CtValue(xs[h], wider) == CtValue(xs[h], repr)
  {
    forall h | 0 <= h < |xs| ensures CtOk(xs[h], wider) { assert CtOk(xs[h], repr); }
  }

  lemma WiderSwitches(xs: seq<SwRec>, repr: set<object>, wider: set<object>)
    requires SwsOk(xs, repr) && repr <= wider
    ensures SwsOk(xs, wider) && SwValues(xs, wider) == SwValues(xs, repr)
    ensures forall h | 0 <= h < |xs| :: SwValue(xs[h], wider) == SwValue(xs[h], repr)
  {
    forall h | 0 <= h < |xs| ensures SwOk(xs[h], wider) { assert SwOk(xs[h], repr); }
  }
}
