/**
 The names the runtime gives to what a lab describes: domains, container names and bridges. Names of VMs and most
 containers differ as their ids do; a bridge name drops every '-' and '_', so ids that differ can share one.
 */
module ManagedNames {
  import opened ByteOrder
  import opened LabModel
  import opened Numerals

  /** The lab's own id, and the hashes as the digits they are printed with: any functions of the text. */
  datatype Naming = Naming(labId: string, stemDigits: string -> string, linkDigits: string -> string, containerDigits: string -> string)

  const MANAGED_PREFIX: string := "foxlab"
  const MAX_BASE: nat := 13
  const STEM: nat := 7

  // ---------------------------------------------------------------- the names

  function ManagedName(n: Naming, id: string): string {
    Fold(MANAGED_PREFIX + "-" + n.labId + "-" + id)
  }

  function Stripped(s: string): string {
    if s == [] then []
    else Stripped(s[..|s| - 1]) + if s[|s| - 1] == '_' || s[|s| - 1] == '-' then [] else [s[|s| - 1]]
  }

  /** At most fifteen characters: the stripped name, or its stem and six digits. */
  function BridgeName(n: Naming, managed: string): string {
    var stripped := Stripped(Fold(managed));
    var clean := if stripped == "" then MANAGED_PREFIX else stripped;
    if |clean| <= MAX_BASE then "fl" + clean else "fl" + clean[..STEM] + n.stemDigits(clean)
  }

  function DomainName(n: Naming, id: string): string {
    ManagedName(n, id)
  }

  predicate IsAlnum(c: char) {
    'a' <= c <= 'z' || 'A' <= c <= 'Z' || IsDigit(c)
  }

  predicate IsSeparator(c: char) {
    c == '.' || c == '_' || c == '-'
  }

  /** Letters and digits, with single separators between them. */
  predicate RuntimeName(s: string) {
    && s != [] && IsAlnum(s[0]) && IsAlnum(s[|s| - 1])
    && (forall i | 0 <= i < |s| :: IsAlnum(s[i]) || IsSeparator(s[i]))
    && forall i | 0 <= i < |s| - 1 :: IsAlnum(s[i]) || IsAlnum(s[i + 1])
  }

  predicate KeepsItsName(n: Naming, id: string) {
    |ManagedName(n, id)| <= 76 && RuntimeName(ManagedName(n, id))
  }

  function ContainerName(n: Naming, id: string): string {
    if KeepsItsName(n, id) then ManagedName(n, id) else "foxlab-c-" + n.containerDigits(n.labId + ['\0'] + id)
  }

  /** networkEndpointKey. */
  function EndKey(e: Endpoint): string {
    e.typ + ":" + e.id + ":" + Itoa(e.nic)
  }

  function LinkBridge(n: Naming, x: Link): string {
    var from, to := EndKey(x.from), EndKey(x.to);
    var first, second := if Less(to, from) then to else from, if Less(to, from) then from else to;
    "flp2p" + n.linkDigits(n.labId + "|" + first + "|" + second)
  }

  /** Switches and uplinks have a bridge of their own. */
  predicate HasBridge(k: Kind) {
    k == SW || k == UP
  }

  function BridgeId(k: Kind, id: string): string {
    if k == UP then "uplink-" + id else id
  }

  /** The bridge of a switch or an uplink with this id, as names are compared. */
  function Bridge(n: Naming, k: Kind, id: string): string {
    Fold(BridgeName(n, ManagedName(n, BridgeId(k, id))))
  }

  // ---------------------------------------------------------------- the rule

  predicate NamesApart(names: seq<string>) {
    forall i, j | 0 <= i < j < |names| :: Fold(names[i]) != Fold(names[j])
  }

  function DomainNames(n: Naming, l: Lab): seq<string> {
    seq(|l.vms|, i requires 0 <= i < |l.vms| => DomainName(n, l.vms[i].id))
  }

  function ContainerNames(n: Naming, l: Lab): seq<string> {
    seq(|l.containers|, i requires 0 <= i < |l.containers| => ContainerName(n, l.containers[i].id))
  }

  function SwitchBridges(n: Naming, l: Lab): seq<string> {
    seq(|l.switches|, i requires 0 <= i < |l.switches| => BridgeName(n, ManagedName(n, l.switches[i].id)))
  }

  function UplinkBridges(n: Naming, l: Lab): seq<string> {
    seq(|l.uplinks|, i requires 0 <= i < |l.uplinks| => BridgeName(n, ManagedName(n, "uplink-" + l.uplinks[i].id)))
  }

  function LinkBridges(n: Naming, l: Lab): seq<string> {
    seq(|l.links|, i requires 0 <= i < |l.links| => LinkBridge(n, l.links[i]))
  }

  /** validateManagedNameCollisions finds nothing: domains, containers and bridges each have names of their own. */
  predicate ManagedNamesOk(n: Naming, l: Lab) {
    && NamesApart(DomainNames(n, l)) && NamesApart(ContainerNames(n, l))
    && NamesApart(SwitchBridges(n, l) + UplinkBridges(n, l) + LinkBridges(n, l))
  }

  // ---------------------------------------------------------------- what it comes to on unique ids

  /** No two switches or uplinks share a bridge. */
  ghost predicate BridgesApart(n: Naming, l: Lab) {
    forall j: Kind, h: nat, k: Kind, i: nat | HasBridge(j) && HasBridge(k) && h < Count(l, j) && i < Count(l, k) && (j != k || h != i) ::
      Bridge(n, j, NodeAt(l, j, h).id) != Bridge(n, k, NodeAt(l, k, i).id)
  }

  /** Two names that contain hash digits meet another: the links' bridges, or the names of containers whose own name will not do. */
  predicate HashesMeet(n: Naming, l: Lab) {
    || (exists i, j :: 0 <= i < j < |l.links| && Fold(LinkBridge(n, l.links[i])) == Fold(LinkBridge(n, l.links[j])))
    || (exists i, j :: 0 <= i < j < |l.containers| && ContainersMeet(n, l.containers[i].id, l.containers[j].id))
  }

  predicate ContainersMeet(n: Naming, a: string, b: string) {
    !(KeepsItsName(n, a) && KeepsItsName(n, b)) && Fold(ContainerName(n, a)) == Fold(ContainerName(n, b))
  }

  lemma FoldTwice(s: string)
    ensures Fold(Fold(s)) == Fold(s)
  {
  }

  lemma FoldConcat(a: string, b: string)
    ensures Fold(a + b) == Fold(a) + Fold(b)
  {
  }

  /** Managed names differ as ids do up to case. */
  lemma ManagedNamesDiffer(n: Naming, a: string, b: string)
    ensures ManagedName(n, a) == ManagedName(n, b) <==> Fold(a) == Fold(b)
  {
    hide Fold;
    var head := MANAGED_PREFIX + "-" + n.labId + "-";
    FoldConcat(head, a);
    FoldConcat(head, b);
    assert (Fold(head) + Fold(a))[|Fold(head)|..] == Fold(a) && (Fold(head) + Fold(b))[|Fold(head)|..] == Fold(b);
  }

  lemma IdsDiffer(l: Lab, k: Kind, i: nat, j: nat)
    requires IdentityOk(l) && i < j < Count(l, k)
    ensures Fold(NodeAt(l, k, i).id) != Fold(NodeAt(l, k, j).id)
  {
    assert !Clash(NodeAt(l, k, i), NodeAt(l, k, j));
  }

  /** Domain names never collide on unique ids. */
  lemma DomainsAreApart(n: Naming, l: Lab)
    requires IdentityOk(l)
    ensures NamesApart(DomainNames(n, l))
  {
    hide Fold, IdentityOk, ManagedName;
    forall i, j | 0 <= i < j < |l.vms|
      ensures Fold(DomainName(n, l.vms[i].id)) != Fold(DomainName(n, l.vms[j].id))
    {
      IdsDiffer(l, VM, i, j);
      ManagedNamesDiffer(n, l.vms[i].id, l.vms[j].id);
      ManagedIsFolded(n, l.vms[i].id);
      ManagedIsFolded(n, l.vms[j].id);
    }
  }

  lemma ManagedIsFolded(n: Naming, id: string)
    ensures Fold(ManagedName(n, id)) == ManagedName(n, id)
  {
    hide Fold;
    FoldTwice(MANAGED_PREFIX + "-" + n.labId + "-" + id);
  }

  /** Nor do container names, unless one of them had to be hashed. */
  lemma ContainersAreApartExactly(n: Naming, l: Lab)
    requires IdentityOk(l)
    ensures NamesApart(ContainerNames(n, l)) <==>
      !exists i, j :: 0 <= i < j < |l.containers| && ContainersMeet(n, l.containers[i].id, l.containers[j].id)
  {
    hide Fold, IdentityOk, ManagedName, KeepsItsName;
    var names := ContainerNames(n, l);
    forall i, j | 0 <= i < j < |l.containers|
      ensures Fold(names[i]) == Fold(names[j]) <==> ContainersMeet(n, l.containers[i].id, l.containers[j].id)
    {
      IdsDiffer(l, CT, i, j);
      ManagedNamesDiffer(n, l.containers[i].id, l.containers[j].id);
      ManagedIsFolded(n, l.containers[i].id);
      ManagedIsFolded(n, l.containers[j].id);
    }
  }

  // ---------------------------------------------------------------- bridges of nodes and of links

  lemma {:induction false} StrippedConcat(a: string, b: string)
    ensures Stripped(a + b) == Stripped(a) + Stripped(b)
  {
    if b == [] {
      assert a + b == a;
    } else {
      StrippedConcat(a, b[..|b| - 1]);
      assert (a + b)[..|a + b| - 1] == a + b[..|b| - 1];
    }
  }

  lemma StrippedPrefix()
    ensures Stripped(Fold(MANAGED_PREFIX)) == MANAGED_PREFIX && Fold(MANAGED_PREFIX) == MANAGED_PREFIX
  {
    assert Fold("foxlab") == "foxlab";
    assert "foxlab"[..5] == "foxla" && "foxla"[..4] == "foxl" && "foxl"[..3] == "fox" && "fox"[..2] == "fo" && "fo"[..1] == "f" && "f"[..0] == "";
    assert Stripped("f") == "f" && Stripped("fo") == "fo" && Stripped("fox") == "fox" && Stripped("foxl") == "foxl" && Stripped("foxla") == "foxla";
  }

  /** What is left of a managed name starts with the prefix. */
  lemma CleanStarts(n: Naming, id: string)
    ensures var clean := Stripped(Fold(ManagedName(n, id))); |clean| >= 6 && clean[..6] == MANAGED_PREFIX
  {
    hide Fold, Stripped;
    var rest := "-" + n.labId + "-" + id;
    assert MANAGED_PREFIX + "-" + n.labId + "-" + id == MANAGED_PREFIX + rest;
    FoldTwice(MANAGED_PREFIX + rest);
    FoldConcat(MANAGED_PREFIX, rest);
    StrippedConcat(Fold(MANAGED_PREFIX), Fold(rest));
    StrippedPrefix();
  }

  /** A link's bridge is never that of a switch or an uplink, whatever the hashes. */
  lemma LinkBridgesAreOther(n: Naming, id: string, x: Link)
    ensures Fold(BridgeName(n, ManagedName(n, id))) != Fold(LinkBridge(n, x))
  {
    hide Stripped, ManagedName, EndKey, Less;
    CleanStarts(n, id);
    var a, b := BridgeName(n, ManagedName(n, id)), LinkBridge(n, x);
    assert a[2] == 'f' && b[2] == 'p';
    assert Fold(a)[2] == 'f' && Fold(b)[2] == 'p';
  }

  /** What a bridge name is made from: the prefix, the lab's id and the node's, without '-' and '_'. */
  lemma CleanOf(n: Naming, id: string)
    ensures Stripped(Fold(ManagedName(n, id))) == Stripped(Fold(MANAGED_PREFIX + "-" + n.labId + "-")) + Stripped(Fold(id))
  {
    hide Fold, Stripped;
    var head := MANAGED_PREFIX + "-" + n.labId + "-";
    FoldTwice(head + id);
    FoldConcat(head, id);
    StrippedConcat(Fold(head), Fold(id));
  }

  /** Ids that differ only in case, '-' and '_' share a bridge, whatever the hashes. */
  lemma TwinsShareBridge(n: Naming, j: Kind, a: string, k: Kind, b: string)
    requires Stripped(Fold(BridgeId(j, a))) == Stripped(Fold(BridgeId(k, b)))
    ensures Bridge(n, j, a) == Bridge(n, k, b)
  {
    hide Fold, Stripped, ManagedName;
    CleanOf(n, BridgeId(j, a));
    CleanOf(n, BridgeId(k, b));
  }

  predicate Short(n: Naming, k: Kind, id: string) {
    |Stripped(Fold(ManagedName(n, BridgeId(k, id))))| <= MAX_BASE
  }

  /** And where the names are short, that is the only way to share one. */
  lemma ShortBridgesMeetExactly(n: Naming, j: Kind, a: string, k: Kind, b: string)
    requires Short(n, j, a) && Short(n, k, b)
    ensures Bridge(n, j, a) == Bridge(n, k, b) <==> Stripped(Fold(BridgeId(j, a))) == Stripped(Fold(BridgeId(k, b)))
  {
    hide Fold, Stripped, ManagedName;
    var head := Stripped(Fold(MANAGED_PREFIX + "-" + n.labId + "-"));
    var x, y := Stripped(Fold(BridgeId(j, a))), Stripped(Fold(BridgeId(k, b)));
    CleanOf(n, BridgeId(j, a));
    CleanOf(n, BridgeId(k, b));
    CleanStarts(n, BridgeId(j, a));
    CleanStarts(n, BridgeId(k, b));
    FoldConcat("fl", head + x);
    FoldConcat("fl", head + y);
    StrippedIsFolded(MANAGED_PREFIX + "-" + n.labId + "-" , BridgeId(j, a));
    StrippedIsFolded(MANAGED_PREFIX + "-" + n.labId + "-" , BridgeId(k, b));
    if Bridge(n, j, a) == Bridge(n, k, b) {
      assert (Fold("fl") + (head + x))[|Fold("fl")|..] == head + x && (Fold("fl") + (head + y))[|Fold("fl")|..] == head + y;
      assert (head + x)[|head|..] == x && (head + y)[|head|..] == y;
    }
  }

  lemma {:induction false} FoldedStays(s: string)
    requires Fold(s) == s
    ensures Fold(Stripped(s)) == Stripped(s)
  {
    if s != [] {
      var init, last := s[..|s| - 1], s[|s| - 1];
      assert Fold(s)[|s| - 1] == FoldChar(last);
      assert Fold(init) == init by { assert forall i | 0 <= i < |init| :: FoldChar(init[i]) == Fold(s)[i]; }
      FoldedStays(init);
      FoldConcat(Stripped(init), [last]);
    }
  }

  lemma StrippedIsFolded(head: string, id: string)
    ensures Fold(Stripped(Fold(head)) + Stripped(Fold(id))) == Stripped(Fold(head)) + Stripped(Fold(id))
  {
    hide Fold, Stripped;
    FoldTwice(head);
    FoldTwice(id);
    FoldedStays(Fold(head));
    FoldedStays(Fold(id));
    FoldConcat(Stripped(Fold(head)), Stripped(Fold(id)));
  }

  lemma ConcatApart(a: seq<string>, b: seq<string>)
    ensures NamesApart(a + b) <==>
      NamesApart(a) && NamesApart(b) && forall i, j | 0 <= i < |a| && 0 <= j < |b| :: Fold(a[i]) != Fold(b[j])
  {
    hide Fold;
    var s := a + b;
    if NamesApart(s) {
      forall i, j | 0 <= i < j < |b| ensures Fold(b[i]) != Fold(b[j]) { assert s[|a| + i] == b[i] && s[|a| + j] == b[j]; }
      forall i, j | 0 <= i < |a| && 0 <= j < |b| ensures Fold(a[i]) != Fold(b[j]) { assert s[i] == a[i] && s[|a| + j] == b[j]; }
      forall i, j | 0 <= i < j < |a| ensures Fold(a[i]) != Fold(a[j]) { assert s[i] == a[i] && s[j] == a[j]; }
    }
  }

  lemma BridgeListsApart(n: Naming, l: Lab)
    ensures BridgesApart(n, l) <==> NamesApart(SwitchBridges(n, l) + UplinkBridges(n, l))
  {
    hide Fold, BridgeName, ManagedName;
    var a, b := SwitchBridges(n, l), UplinkBridges(n, l);
    ConcatApart(a, b);
    forall i: nat | i < |a| ensures Fold(a[i]) == Bridge(n, SW, NodeAt(l, SW, i).id) {}
    forall i: nat | i < |b| ensures Fold(b[i]) == Bridge(n, UP, NodeAt(l, UP, i).id) {}
    if BridgesApart(n, l) {
      forall i: nat, j: nat | i < j < |a| ensures Fold(a[i]) != Fold(a[j]) { assert i < Count(l, SW) && j < Count(l, SW); }
      forall i: nat, j: nat | i < j < |b| ensures Fold(b[i]) != Fold(b[j]) { assert i < Count(l, UP) && j < Count(l, UP); }
      forall i: nat, j: nat | i < |a| && j < |b| ensures Fold(a[i]) != Fold(b[j]) { assert i < Count(l, SW) && j < Count(l, UP); }
    }
    if NamesApart(a) && NamesApart(b) && forall i, j | 0 <= i < |a| && 0 <= j < |b| :: Fold(a[i]) != Fold(b[j]) {
      forall j: Kind, h: nat, k: Kind, i: nat | HasBridge(j) && HasBridge(k) && h < Count(l, j) && i < Count(l, k) && (j != k || h != i)
        ensures Bridge(n, j, NodeAt(l, j, h).id) != Bridge(n, k, NodeAt(l, k, i).id)
      {
      }
    }
  }

  lemma LinkNamesApart(n: Naming, l: Lab)
    ensures NamesApart(LinkBridges(n, l)) <==>
      !exists i, j :: 0 <= i < j < |l.links| && Fold(LinkBridge(n, l.links[i])) == Fold(LinkBridge(n, l.links[j]))
  {
    hide Fold, LinkBridge;
    assert forall i | 0 <= i < |l.links| :: LinkBridges(n, l)[i] == LinkBridge(n, l.links[i]);
  }

  lemma NodesAvoidLinks(n: Naming, l: Lab)
    ensures var nodes := SwitchBridges(n, l) + UplinkBridges(n, l);
      forall i, j | 0 <= i < |nodes| && 0 <= j < |l.links| :: Fold(nodes[i]) != Fold(LinkBridges(n, l)[j])
  {
    hide Fold, LinkBridge, BridgeName, ManagedName;
    var nodes := SwitchBridges(n, l) + UplinkBridges(n, l);
    forall i, j | 0 <= i < |nodes| && 0 <= j < |l.links|
      ensures Fold(nodes[i]) != Fold(LinkBridges(n, l)[j])
    {
      var id := if i < |l.switches| then l.switches[i].id else "uplink-" + l.uplinks[i - |l.switches|].id;
      assert nodes[i] == BridgeName(n, ManagedName(n, id));
      LinkBridgesAreOther(n, id, l.links[j]);
    }
  }

  /** On unique ids the collision check finds nothing exactly if no two switches or uplinks share a bridge and no hashed names meet. */
  lemma NamesOkExactly(n: Naming, l: Lab)
    requires IdentityOk(l)
    ensures ManagedNamesOk(n, l) <==> BridgesApart(n, l) && !HashesMeet(n, l)
  {
    hide IdentityOk, NamesApart, DomainNames, ContainerNames, SwitchBridges, UplinkBridges, LinkBridges, BridgesApart, ContainersMeet,
      LinkBridge, Fold;
    DomainsAreApart(n, l);
    ContainersAreApartExactly(n, l);
    BridgeListsApart(n, l);
    NodesAvoidLinks(n, l);
    ConcatApart(SwitchBridges(n, l) + UplinkBridges(n, l), LinkBridges(n, l));
    LinkNamesApart(n, l);
    LinkCount(n, l);
  }

  lemma LinkCount(n: Naming, l: Lab)
    ensures |LinkBridges(n, l)| == |l.links|
  {
  }

  // ---------------------------------------------------------------- the check itself

  /** register for one map of names. */
  method RegisterNames(names: seq<string>) returns (collisions: seq<string>)
    ensures collisions == [] <==> NamesApart(names)
  {
    hide Fold;
    collisions := [];
    var seen: set<string> := {};
    for i := 0 to |names|
      invariant collisions == [] <==> NamesApart(names[..i])
      invariant forall key :: key in seen <==> exists h :: 0 <= h < i && key == Fold(names[h])
    {
      OneNameMore(names, i);
      if Fold(names[i]) in seen {
        collisions := collisions + [names[i]];
      } else {
        seen := seen + {Fold(names[i])};
      }
    }
    assert names[..|names|] == names;
  }

  lemma OneNameMore(names: seq<string>, i: nat)
    requires i < |names|
    ensures NamesApart(names[..i + 1]) <==> NamesApart(names[..i]) && forall h | 0 <= h < i :: Fold(names[h]) != Fold(names[i])
  {
    hide Fold;
    assert names[..i + 1] == names[..i] + [names[i]];
    ConcatApart(names[..i], [names[i]]);
    assert forall h | 0 <= h < i :: names[..i][h] == names[h];
    assert NamesApart([names[i]]);
  }

  /** validateManagedNameCollisions. */
  method ValidateManagedNames(n: Naming, l: Lab) returns (collisions: seq<string>)
    ensures collisions == [] <==> ManagedNamesOk(n, l)
  {
    hide NamesApart, DomainNames, ContainerNames, SwitchBridges, UplinkBridges, LinkBridges;
    var domains := RegisterNames(DomainNames(n, l));
    var containers := RegisterNames(ContainerNames(n, l));
    var bridges := RegisterNames(SwitchBridges(n, l) + UplinkBridges(n, l) + LinkBridges(n, l));
    collisions := domains + containers + bridges;
  }
}
