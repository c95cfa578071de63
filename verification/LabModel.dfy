/**
 The lab a file describes, and the rules a saved lab obeys. Identifiers are trimmed text; folding is
 lower-casing of ASCII letters, which is all a valid identifier contains.
 */
module LabModel {
  import opened Numerals

  datatype Nic = Nic(switch: string, uplink: string, mac: string)

  /** A VM or a container; service is the container's managed service and unused for VMs. */
  datatype Workload = Workload(id: string, name: string, service: string, disk: string, nics: seq<Nic>)

  /** uplink is the legacy single reference, uplinks the list that replaced it. */
  datatype Switch = Switch(id: string, name: string, mode: string, uplink: string, uplinks: seq<string>)
  datatype Uplink = Uplink(id: string, name: string, mode: string)

  datatype Endpoint = Endpoint(typ: string, id: string, nic: int)
  datatype Link = Link(from: Endpoint, to: Endpoint)

  datatype Disk = Disk(id: string, path: string, kind: string, base: string, attachedType: string, attachedTo: string)

  datatype Position = Position(x: int, y: int)
  datatype LayoutEnd = LayoutEnd(typ: string, id: string)
  datatype LayoutLink = LayoutLink(from: LayoutEnd, to: LayoutEnd)

  datatype Lab = Lab(vms: seq<Workload>, containers: seq<Workload>, switches: seq<Switch>, uplinks: seq<Uplink>,
                     links: seq<Link>, disks: seq<Disk>, positions: map<string, Position>, layoutLinks: seq<LayoutLink>)

  /** The loaded lab as the editing operations change it in place. */
  class LabState {
    var vms: seq<Workload>
    var containers: seq<Workload>
    var switches: seq<Switch>
    var uplinks: seq<Uplink>
    var links: seq<Link>
    var disks: seq<Disk>
    var positions: map<string, Position>
    var layoutLinks: seq<LayoutLink>

    function View(): Lab
      reads this
    {
      Lab(vms, containers, switches, uplinks, links, disks, positions, layoutLinks)
    }

    constructor (l: Lab)
      ensures View() == l
    {
      vms, containers, switches, uplinks := l.vms, l.containers, l.switches, l.uplinks;
      links, disks, positions, layoutLinks := l.links, l.disks, l.positions, l.layoutLinks;
    }
  }

  // ---------------------------------------------------------------- nodes

  datatype Kind = VM | CT | SW | UP
  datatype NodeName = NodeName(id: string, name: string)

  function KindText(k: Kind): string {
    match k case VM => "vm" case CT => "container" case SW => "switch" case UP => "external"
  }

  function KindOf(typ: string): Option<Kind> {
    if typ == "vm" then Some(VM)
    else if typ == "container" then Some(CT)
    else if typ == "switch" then Some(SW)
    else if typ == "external" then Some(UP)
    else None
  }

  function Count(l: Lab, k: Kind): nat {
    match k case VM => |l.vms| case CT => |l.containers| case SW => |l.switches| case UP => |l.uplinks|
  }

  function NodeAt(l: Lab, k: Kind, i: nat): NodeName
    requires i < Count(l, k)
  {
    match k
    case VM => NodeName(l.vms[i].id, l.vms[i].name)
    case CT => NodeName(l.containers[i].id, l.containers[i].name)
    case SW => NodeName(l.switches[i].id, l.switches[i].name)
    case UP => NodeName(l.uplinks[i].id, l.uplinks[i].name)
  }

  /** Position of the first node with this id, or the number of nodes. */
  function Find(l: Lab, k: Kind, id: string, from: nat := 0): (i: nat)
    requires from <= Count(l, k)
    ensures from <= i <= Count(l, k)
    ensures i < Count(l, k) ==> NodeAt(l, k, i).id == id
    ensures forall j | from <= j < i :: NodeAt(l, k, j).id != id
    decreases Count(l, k) - from
  {
    if from == Count(l, k) || NodeAt(l, k, from).id == id then from else Find(l, k, id, from + 1)
  }

  predicate Has(l: Lab, k: Kind, id: string) {
    Find(l, k, id) < Count(l, k)
  }

  function Group(l: Lab, typ: string): seq<Workload> {
    if typ == "vm" then l.vms else if typ == "container" then l.containers else []
  }

  // ---------------------------------------------------------------- identity

  function FoldChar(c: char): char {
    if 'A' <= c <= 'Z' then (c as int + 32) as char else c
  }

  function Fold(s: string): string {
    seq(|s|, i requires 0 <= i < |s| => FoldChar(s[i]))
  }

  predicate EqualFold(a: string, b: string) {
    Fold(a) == Fold(b)
  }

  predicate IdChar(c: char) {
    'a' <= c <= 'z' || 'A' <= c <= 'Z' || IsDigit(c) || c == '_' || c == '-'
  }

  predicate ValidId(id: string) {
    id != [] && id[0] != '_' && id[0] != '-' && forall i | 0 <= i < |id| :: IdChar(id[i])
  }

  predicate IsUuid(id: string) {
    |id| == 36 && forall i | 0 <= i < 36 ::
      if i == 8 || i == 13 || i == 18 || i == 23 then id[i] == '-'
      else IsDigit(id[i]) || 'a' <= FoldChar(id[i]) <= 'f'
  }

  predicate ValidNodeId(id: string) {
    ValidId(id) && !IsUuid(id)
  }

  /** A name equal to the id up to case adds no second reference. */
  predicate Named(n: NodeName) {
    n.name != "" && !EqualFold(n.name, n.id)
  }

  predicate RefersTo(n: NodeName, folded: string) {
    Fold(n.id) == folded || (Named(n) && Fold(n.name) == folded)
  }

  predicate Clash(a: NodeName, b: NodeName) {
    RefersTo(a, Fold(b.id)) || (Named(b) && RefersTo(a, Fold(b.name)))
  }

  predicate NameOk(n: NodeName) {
    ValidNodeId(n.id) && (Named(n) ==> ValidNodeId(n.name))
  }

  /** No two nodes, of whatever kinds, share an id or name up to case. */
  ghost predicate IdentityOk(l: Lab) {
    && (forall k: Kind, i: nat | i < Count(l, k) :: NameOk(NodeAt(l, k, i)))
    && (forall j: Kind, h: nat, k: Kind, i: nat | h < Count(l, j) && i < Count(l, k) && (j != k || h != i) ::
          !Clash(NodeAt(l, j, h), NodeAt(l, k, i)))
  }

  // ---------------------------------------------------------------- references

  function AppendNew(out: seq<string>, id: string): seq<string> {
    if id == "" || id in out then out else out + [id]
  }

  function Deduplicated(ids: seq<string>): seq<string> {
    if ids == [] then [] else AppendNew(Deduplicated(ids[..|ids| - 1]), ids[|ids| - 1])
  }

  /** SwitchExternalLinks: both fields, without blanks and repetitions. */
  function SwitchUplinks(sw: Switch): seq<string> {
    AppendNew(Deduplicated(sw.uplinks), sw.uplink)
  }

  predicate SwitchOk(l: Lab, sw: Switch) {
    && sw.mode in {"bridge", "nat", "macnat-bridge"}
    && (sw.mode == "macnat-bridge" ==> SwitchUplinks(sw) != [])
    && forall u | u in SwitchUplinks(sw) :: Has(l, UP, u)
  }

  predicate SwitchesOk(l: Lab) {
    forall i | 0 <= i < |l.switches| :: SwitchOk(l, l.switches[i])
  }

  predicate Free(nic: Nic) {
    nic.switch == "" && nic.uplink == ""
  }

  predicate NicOk(l: Lab, nic: Nic) {
    && (nic.switch == "" || nic.uplink == "")
    && (nic.switch != "" ==> Has(l, SW, nic.switch))
    && (nic.uplink != "" ==> Has(l, UP, nic.uplink))
  }

  predicate NicsOk(l: Lab, ws: seq<Workload>) {
    forall i, j | 0 <= i < |ws| && 0 <= j < |ws[i].nics| :: NicOk(l, ws[i].nics[j])
  }

  predicate NetworksOk(l: Lab) {
    NicsOk(l, l.vms) && NicsOk(l, l.containers)
  }

  predicate IsDhcp(w: Workload) {
    w.service == "dhcp"
  }

  predicate DhcpSwitchOk(l: Lab, id: string) {
    var i := Find(l, SW, id);
    i < |l.switches| ==>
      && l.switches[i].mode == "nat"
      && forall u | u in SwitchUplinks(l.switches[i]) ::
           var j := Find(l, UP, u); j < |l.uplinks| ==> l.uplinks[j].mode != "macnat"
  }

  /** A DHCP container has one interface, on a NAT switch of its own without a MACNAT uplink. */
  predicate DhcpOk(l: Lab) {
    && (forall i | 0 <= i < |l.containers| :: l.containers[i].service in {"", "dhcp"})
    && (forall i | 0 <= i < |l.containers| && IsDhcp(l.containers[i]) ::
          var w := l.containers[i];
          && w.disk == "" && |w.nics| == 1 && w.nics[0].switch != "" && w.nics[0].uplink == "" && w.nics[0].mac == ""
          && DhcpSwitchOk(l, w.nics[0].switch))
    && (forall i, j | 0 <= i < j < |l.containers| && IsDhcp(l.containers[i]) && IsDhcp(l.containers[j]) ::
          |l.containers[i].nics| == 1 && |l.containers[j].nics| == 1
          ==> l.containers[i].nics[0].switch != l.containers[j].nics[0].switch)
    && (forall k | 0 <= k < |l.links| :: !DhcpEnd(l, l.links[k].from) && !DhcpEnd(l, l.links[k].to))
  }

  predicate DhcpEnd(l: Lab, e: Endpoint) {
    e.typ == "container" && exists i | 0 <= i < |l.containers| :: l.containers[i].id == e.id && IsDhcp(l.containers[i])
  }

  // ---------------------------------------------------------------- direct links

  function FindWorkload(ws: seq<Workload>, id: string): (i: nat)
    ensures i <= |ws|
    ensures i < |ws| ==> ws[i].id == id
    ensures forall j | 0 <= j < i :: ws[j].id != id
  {
    if ws == [] then 0
    else if ws[0].id == id then 0
    else 1 + FindWorkload(ws[1..], id)
  }

  predicate EndpointOk(l: Lab, e: Endpoint) {
    var ws := Group(l, e.typ);
    var i := FindWorkload(ws, e.id);
    i < |ws| && 0 <= e.nic < |ws[i].nics| && Free(ws[i].nics[e.nic])
  }

  predicate Touches(link: Link, e: Endpoint) {
    link.from == e || link.to == e
  }

  predicate LinksApart(links: seq<Link>) {
    forall i, j | 0 <= i < j < |links| :: !Touches(links[i], links[j].from) && !Touches(links[i], links[j].to)
  }

  /** Endpoints exist, differ, are otherwise unconnected, and are linked at most once. */
  predicate LinksOk(l: Lab) {
    && (forall i | 0 <= i < |l.links| ::
          l.links[i].from != l.links[i].to && EndpointOk(l, l.links[i].from) && EndpointOk(l, l.links[i].to))
    && LinksApart(l.links)
  }

  // ---------------------------------------------------------------- disks

  /** Path resolution against the lab's directory; all that is used of it is stated in PathsOk. */
  type PathFn = string -> string

  ghost predicate PathsOk(resolve: PathFn) {
    && (forall p :: resolve(resolve(p)) == resolve(p))
    && (forall p :: resolve(p) != "")
  }

  function DiskKind(d: Disk): string {
    if d.kind == "" then "base" else d.kind
  }

  function FindDisk(disks: seq<Disk>, id: string): (i: nat)
    ensures i <= |disks|
    ensures i < |disks| ==> disks[i].id == id
    ensures forall j | 0 <= j < i :: disks[j].id != id
  {
    if disks == [] then 0
    else if disks[0].id == id then 0
    else 1 + FindDisk(disks[1..], id)
  }

  predicate BaseOk(disks: seq<Disk>, d: Disk) {
    && (DiskKind(d) == "layer" <==> d.base != "")
    && (d.base != "" ==>
          (d.base != d.id && var i := FindDisk(disks, d.base); i < |disks| && DiskKind(disks[i]) == "base"))
  }

  predicate AttachmentOk(l: Lab, d: Disk, resolve: PathFn) {
    if d.attachedType == "" then d.attachedTo == ""
    else
      var ws := Group(l, d.attachedType);
      var i := FindWorkload(ws, d.attachedTo);
      && i < |ws| && !(d.attachedType == "vm" && d.kind == "data")
      && ws[i].disk != "" && resolve(ws[i].disk) == resolve(d.path)
  }

  predicate DiskOk(l: Lab, d: Disk, resolve: PathFn) {
    && ValidId(d.id) && d.path != "" && d.kind in {"", "base", "layer", "data"}
    && BaseOk(l.disks, d) && AttachmentOk(l, d, resolve)
  }

  predicate SameTarget(a: Disk, b: Disk) {
    a.attachedType != "" && a.attachedType == b.attachedType && a.attachedTo == b.attachedTo
  }

  /** Layers rest on existing base disks; a workload has at most one disk, and its path is that disk's. */
  predicate DisksOk(l: Lab, resolve: PathFn) {
    && (forall i | 0 <= i < |l.disks| :: DiskOk(l, l.disks[i], resolve))
    && (forall i, j | 0 <= i < j < |l.disks| :: l.disks[i].id != l.disks[j].id && !SameTarget(l.disks[i], l.disks[j]))
  }

  // ---------------------------------------------------------------- layout

  predicate HasNode(l: Lab, id: string) {
    Has(l, VM, id) || Has(l, CT, id) || Has(l, SW, id) || Has(l, UP, id)
  }

  predicate LayoutEndOk(l: Lab, e: LayoutEnd) {
    var k := KindOf(e.typ);
    k.Some? && Has(l, k.value, e.id)
  }

  predicate LayoutOk(l: Lab) {
    && (forall id | id in l.positions :: HasNode(l, id))
    && (forall i | 0 <= i < |l.layoutLinks| :: LayoutEndOk(l, l.layoutLinks[i].from) && LayoutEndOk(l, l.layoutLinks[i].to))
  }

  ghost predicate Valid(l: Lab, resolve: PathFn) {
    && IdentityOk(l) && SwitchesOk(l) && NetworksOk(l) && DhcpOk(l) && LinksOk(l) && DisksOk(l, resolve) && LayoutOk(l)
  }

  // ---------------------------------------------------------------- consequences used everywhere

  lemma SameIdSameNode(l: Lab, j: Kind, h: nat, k: Kind, i: nat)
    requires IdentityOk(l) && h < Count(l, j) && i < Count(l, k) && NodeAt(l, j, h).id == NodeAt(l, k, i).id
    ensures j == k && h == i
  {
    assert Clash(NodeAt(l, j, h), NodeAt(l, k, i));
  }

  lemma FindsNode(l: Lab, k: Kind, i: nat)
    requires IdentityOk(l) && i < Count(l, k)
    ensures Find(l, k, NodeAt(l, k, i).id) == i && NodeAt(l, k, i).id != ""
  {
    var f := Find(l, k, NodeAt(l, k, i).id);
    if f == Count(l, k) { assert false; }
    SameIdSameNode(l, k, f, k, i);
    assert NameOk(NodeAt(l, k, i));
  }

  lemma FindWorkloadIsFind(l: Lab, k: Kind, id: string)
    requires k == VM || k == CT
    ensures FindWorkload(Group(l, KindText(k)), id) == Find(l, k, id)
  {
    var f, g := Find(l, k, id), FindWorkload(Group(l, KindText(k)), id);
    assert forall j | 0 <= j < Count(l, k) :: NodeAt(l, k, j).id == Group(l, KindText(k))[j].id;
  }
}
