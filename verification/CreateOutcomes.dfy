/**
 When a node can be created or renamed on a valid lab and what the new node is: its name, its mode, and where
 its interfaces and uplinks lead, said without the operations' own definitions.
 */
module CreateOutcomes {
  import opened Numerals
  import opened LabModel
  import opened Lookup
  import opened NetworkLinks
  import opened NicConnections
  import opened Disks
  import opened Relabelling
  import opened Renaming
  import opened RenameEffects
  import opened DeleteEffects
  import opened Creates
  import opened CreateEffects

  // ---------------------------------------------------------------- names and references

  /** A well-formed name that no node other than `self` has as id or name, whatever the case. */
  ghost predicate FreeBut(l: Lab, name: string, self: string) {
    && ValidNodeId(name)
    && forall k: Kind, i: nat | i < Count(l, k) && NodeAt(l, k, i).id != self ::
         Fold(NodeAt(l, k, i).id) != Fold(name) && Fold(NodeAt(l, k, i).name) != Fold(name)
  }

  lemma FreeInWords(l: Lab, name: string, self: string)
    ensures FreeBut(l, name, self) <==> ValidNodeId(name) && !NameTaken(l, name, self)
  {
    hide IsUuid, IdChar;
    if ValidNodeId(name) {
      assert |Fold(name)| == |name| > 0;
      forall k: Kind, i: nat | i < Count(l, k)
        ensures MatchesRef(NodeAt(l, k, i), name)
           <==> Fold(NodeAt(l, k, i).id) == Fold(name) || Fold(NodeAt(l, k, i).name) == Fold(name)
      {
        assert Fold("") == "";
      }
    }
  }

  lemma NobodyIsUnnamed(l: Lab, name: string)
    requires IdentityOk(l)
    ensures FreeBut(l, name, "") <==> NameFree(l, name)
  {
    hide NameTaken, FreeBut, IdentityOk;
    FreeInWords(l, name, "");
  }

  /** A name is refused exactly where the node bearing it would break the rule on identities. */
  lemma RefusedExactly(l: Lab, m: Lab, k: Kind, name: string)
    requires IdentityOk(l) && Gains(l, m, k, name)
    ensures NameFree(l, name) <==> IdentityOk(m)
  {
    hide IdentityOk, NameFree, ValidNodeId, Gains;
    if NameFree(l, name) {
      GainsIdentity(l, m, k, name);
    } else if IdentityOk(m) {
      NewNodeIsFree(l, m, k, name);
    }
  }

  lemma NewNodeIsFree(l: Lab, m: Lab, k: Kind, name: string)
    requires IdentityOk(l) && IdentityOk(m) && Gains(l, m, k, name)
    ensures NameFree(l, name)
  {
    hide ValidNodeId, EqualFold, Clash, MatchesRef;
    assert NodeAt(m, k, Count(l, k)) == NodeName(name, "");
    assert NameOk(NodeAt(m, k, Count(l, k)));
    NamedByNobody(name);
    forall j: Kind, h: nat | h < Count(l, j)
      ensures !MatchesRef(NodeAt(l, j, h), name)
    {
      assert NodeAt(m, j, h) == NodeAt(l, j, h);
      assert !Clash(NodeAt(m, j, h), NodeAt(m, k, Count(l, k)));
      NoClashNoMatching(NodeAt(l, j, h), name);
    }
  }

  lemma NamedByNobody(name: string)
    ensures ValidNodeId(name) ==> name != ""
  {
  }

  lemma NoClashNoMatching(n: NodeName, name: string)
    requires !Clash(n, NodeName(name, ""))
    ensures !MatchesRef(n, name)
  {
    hide Fold;
  }

  /** An optional reference that was not given, or leads to the node with this id. */
  predicate Given(l: Lab, k: Kind, ref: string, id: string) {
    if ref == "" then id == "" else Resolve(l, k, ref) == Found(id)
  }

  lemma OptionalIsGiven(l: Lab, k: Kind, ref: string)
    requires IdentityOk(l)
    ensures var r := OptionalRef(l, k, ref);
      if r.None? then forall id :: !Given(l, k, ref, id)
      else Given(l, k, ref, r.value) && (r.value == "" <==> ref == "") && forall id :: Given(l, k, ref, id) ==> id == r.value
  {
    hide IdentityOk, Resolve;
    if ref != "" && Resolve(l, k, ref).Found? {
      ResolvedNodeExists(l, k, ref);
      FindsNode(l, k, Find(l, k, Resolve(l, k, ref).id));
    }
  }

  // ---------------------------------------------------------------- VMs and containers

  /** The lab with one workload more, below the others of its kind. */
  predicate HasNewWorkload(l: Lab, m: Lab, k: Kind, w: Workload) {
    && IsWorkload(k)
    && m == (if k == VM then l.(vms := l.vms + [w], positions := m.positions) else l.(containers := l.containers + [w], positions := m.positions))
    && m.positions == l.positions[w.id := Position(80, 80 + 96 * (if k == VM then |l.vms| + 1 else |l.containers| + 1))]
  }

  /** The interfaces asked for: one on the switch or the uplink named, or else on the first switch there is. */
  predicate StartsWith(l: Lab, nics: seq<Nic>, switchRef: string, uplinkRef: string, mac: string) {
    if switchRef != "" then |nics| == 1 && nics[0].uplink == "" && nics[0].mac == mac && Resolve(l, SW, switchRef) == Found(nics[0].switch)
    else if uplinkRef != "" then |nics| == 1 && nics[0].switch == "" && nics[0].mac == mac && Resolve(l, UP, uplinkRef) == Found(nics[0].uplink)
    else if l.switches == [] then nics == []
    else nics == [Nic(l.switches[0].id, "", mac)]
  }

  lemma StartsAsAsked(l: Lab, switchRef: string, uplinkRef: string, mac: string)
    requires IdentityOk(l)
    ensures var nics := FirstNics(l, switchRef, uplinkRef, mac);
      && (nics.Some? <==> (exists s :: Given(l, SW, switchRef, s)) && (exists u :: Given(l, UP, uplinkRef, u)) && (switchRef == "" || uplinkRef == ""))
      && (nics.Some? ==> StartsWith(l, nics.value, switchRef, uplinkRef, mac))
  {
    hide IdentityOk, OptionalRef, Resolve;
    OptionalIsGiven(l, SW, switchRef);
    OptionalIsGiven(l, UP, uplinkRef);
    if l.switches != [] { FindsNode(l, SW, 0); }
  }

  /**
   A workload is created exactly if the name is free, each reference given leads somewhere, and not both are given. It is
   the last of its kind, has the name and the disk asked for and starts with the interfaces asked for; a VM's has no MAC.
   */
  lemma CreatesWorkloadExactly(l: Lab, k: Kind, name: string, disk: string, switchRef: string, uplinkRef: string, mac: string)
    requires IdentityOk(l) && IsWorkload(k)
    ensures var after := CreateWorkload(l, k, name, disk, switchRef, uplinkRef, mac);
      && (after.Some? <==>
            && FreeBut(l, name, "") && (exists s :: Given(l, SW, switchRef, s)) && (exists u :: Given(l, UP, uplinkRef, u))
            && (switchRef == "" || uplinkRef == ""))
      && (after.Some? ==> exists nics ::
            StartsWith(l, nics, switchRef, uplinkRef, if k == CT then mac else "")
            && HasNewWorkload(l, after.value, k, Workload(name, "", "", disk, nics)))
  {
    hide IdentityOk, FirstNics, FreeBut, NameFree, Given, StartsWith;
    var given := if k == CT then mac else "";
    NobodyIsUnnamed(l, name);
    StartsAsAsked(l, switchRef, uplinkRef, given);
    var nics := FirstNics(l, switchRef, uplinkRef, given);
    if NameFree(l, name) && nics.Some? {
      assert StartsWith(l, nics.value, switchRef, uplinkRef, given);
      assert HasNewWorkload(l, CreateWorkload(l, k, name, disk, switchRef, uplinkRef, mac).value, k, Workload(name, "", "", disk, nics.value));
    }
  }

  // ---------------------------------------------------------------- switches and uplinks

  predicate HasNewSwitch(l: Lab, m: Lab, sw: Switch) {
    m == l.(switches := l.switches + [sw], positions := l.positions[sw.id := Position(448, 80 + 96 * (|l.switches| + 1))])
  }

  /** The uplinks of a new switch: the one named, if one was. */
  predicate UplinksAsked(l: Lab, ids: seq<string>, uplinkRef: string) {
    if uplinkRef == "" then ids == [] else |ids| == 1 && Resolve(l, UP, uplinkRef) == Found(ids[0])
  }

  /** A switch is created exactly if the name is free, the mode known, an uplink named exists, and MACNAT bridging has one. */
  lemma CreatesSwitchExactly(l: Lab, name: string, mode: string, uplinkRef: string)
    requires IdentityOk(l)
    ensures var after := CreateSwitch(l, name, mode, uplinkRef);
      && (after.Some? <==>
            && FreeBut(l, name, "") && (exists u :: Given(l, UP, uplinkRef, u)) && mode in {"", "bridge", "nat", "macnat-bridge"}
            && (mode == "macnat-bridge" ==> uplinkRef != ""))
      && (after.Some? ==> exists ids ::
            UplinksAsked(l, ids, uplinkRef)
            && HasNewSwitch(l, after.value, Switch(name, "", if mode == "" then "bridge" else mode, "", ids)))
  {
    hide IdentityOk, FreeBut, NameFree, OptionalRef;
    NobodyIsUnnamed(l, name);
    OptionalIsGiven(l, UP, uplinkRef);
    var u := OptionalRef(l, UP, uplinkRef);
    if CreateSwitch(l, name, mode, uplinkRef).Some? {
      var ids := if u.value == "" then [] else [u.value];
      assert UplinksAsked(l, ids, uplinkRef);
    }
  }

  /** An uplink is created exactly if the name is free and the mode known. */
  lemma CreatesExternalExactly(l: Lab, name: string, mode: string)
    requires IdentityOk(l)
    ensures CreateExternal(l, name, mode).Some? <==> FreeBut(l, name, "") && mode in {"", "nat", "direct", "macnat"}
    ensures var after := CreateExternal(l, name, mode);
      after.Some? ==>
        after.value == l.(uplinks := l.uplinks + [Uplink(name, "", if mode == "" then "nat" else mode)],
                          positions := l.positions[name := Position(832, 80 + 96 * (|l.uplinks| + 1))])
  {
    hide IdentityOk, FreeBut, NameFree;
    NobodyIsUnnamed(l, name);
  }

  // ---------------------------------------------------------------- DHCP services

  /** A NAT switch none of whose uplinks is in MACNAT mode. */
  predicate Suits(l: Lab, i: nat) {
    && i < |l.switches| && l.switches[i].mode == "nat"
    && forall j | 0 <= j < |l.uplinks| && l.uplinks[j].mode == "macnat" :: l.uplinks[j].id !in l.switches[i].uplinks && l.uplinks[j].id != l.switches[i].uplink
  }

  predicate Served(l: Lab, switch: string) {
    exists i | 0 <= i < |l.containers| :: l.containers[i].service == "dhcp" && |l.containers[i].nics| == 1 && l.containers[i].nics[0].switch == switch
  }

  /** The switch named, or else the first that suits. */
  predicate Chosen(l: Lab, switchRef: string, i: nat) {
    && i < |l.switches|
    && if switchRef != "" then Resolve(l, SW, switchRef) == Found(l.switches[i].id) else Suits(l, i) && forall j | 0 <= j < i :: !Suits(l, j)
  }

  lemma SuitsInWords(l: Lab, i: nat)
    requires IdentityOk(l) && i < |l.switches|
    ensures Suits(l, i) <==> CompatibleSwitch(l, l.switches[i])
    ensures CompatibleSwitch(l, l.switches[i]) <==> DhcpCompatible(l, l.switches[i].id)
  {
    hide IdentityOk, SwitchUplinks;
    var sw := l.switches[i];
    FindsNode(l, SW, i);
    assert NodeAt(l, SW, i).id == sw.id;
    forall j: nat | j < |l.uplinks|
      ensures l.uplinks[j].id in SwitchUplinks(sw) <==> l.uplinks[j].id in sw.uplinks || l.uplinks[j].id == sw.uplink
      ensures Find(l, UP, l.uplinks[j].id) == j
    {
      FindsNode(l, UP, j);
      assert NodeAt(l, UP, j).id == l.uplinks[j].id;
      InSwitchUplinks(sw, l.uplinks[j].id);
    }
    forall u | u in SwitchUplinks(sw) && Find(l, UP, u) < |l.uplinks|
      ensures l.uplinks[Find(l, UP, u)].id == u
    {
      assert NodeAt(l, UP, Find(l, UP, u)).id == u;
    }
  }

  lemma {:induction false} FirstThatSuits(l: Lab, from: nat)
    requires IdentityOk(l) && from <= |l.switches|
    ensures var id := FirstCompatible(l, from);
      if id == "" then forall i: nat | from <= i :: !Suits(l, i)
      else exists i: nat :: from <= i < |l.switches| && Suits(l, i) && l.switches[i].id == id && forall j | from <= j < i :: !Suits(l, j)
    decreases |l.switches| - from
  {
    hide IdentityOk, Suits, CompatibleSwitch;
    if from < |l.switches| {
      SuitsInWords(l, from);
      if CompatibleSwitch(l, l.switches[from]) {
        FindsNode(l, SW, from);
        assert NodeAt(l, SW, from).id == l.switches[from].id;
      } else {
        FirstThatSuits(l, from + 1);
      }
    } else {
      NoneBeyond(l);
    }
  }

  lemma NoneBeyond(l: Lab)
    ensures forall i: nat | |l.switches| <= i :: !Suits(l, i)
  {
  }

  /** The switch the operation settles on, as an index: none where the reference leads nowhere or nothing suits. */
  lemma ChosenIs(l: Lab, switchRef: string)
    requires IdentityOk(l)
    ensures var c := if switchRef != "" then OptionalRef(l, SW, switchRef) else Some(FirstCompatible(l));
      if c.None? || c.value == "" then forall i: nat :: !Chosen(l, switchRef, i)
      else exists i: nat :: Chosen(l, switchRef, i) && l.switches[i].id == c.value && forall j: nat :: Chosen(l, switchRef, j) ==> j == i
  {
    hide IdentityOk, Suits, OptionalRef, CompatibleSwitch;
    if switchRef != "" {
      NamedSwitchIs(l, switchRef);
    } else {
      FirstThatSuits(l, 0);
      var id := FirstCompatible(l);
      if id != "" {
        var i: nat :| i < |l.switches| && Suits(l, i) && l.switches[i].id == id && forall j | 0 <= j < i :: !Suits(l, j);
        assert Chosen(l, "", i);
      }
    }
  }

  lemma NamedSwitchIs(l: Lab, switchRef: string)
    requires IdentityOk(l) && switchRef != ""
    ensures var c := OptionalRef(l, SW, switchRef);
      if c.None? || c.value == "" then forall i: nat :: !Chosen(l, switchRef, i)
      else exists i: nat :: Chosen(l, switchRef, i) && l.switches[i].id == c.value && forall j: nat :: Chosen(l, switchRef, j) ==> j == i
  {
    hide IdentityOk, Resolve;
    var r := Resolve(l, SW, switchRef);
    if r.Found? {
      ResolvedNodeExists(l, SW, switchRef);
      var i := Find(l, SW, r.id);
      FindsNode(l, SW, i);
      assert NodeAt(l, SW, i).id == l.switches[i].id == r.id;
      assert Chosen(l, switchRef, i);
      forall j: nat | Chosen(l, switchRef, j)
        ensures j == i
      {
        assert NodeAt(l, SW, j).id == l.switches[j].id;
        FindsNode(l, SW, j);
      }
    }
  }

  lemma ServedInWords(l: Lab, switch: string)
    requires switch != ""
    ensures Served(l, switch) <==> HasDhcpOn(l, switch)
  {
  }

  /**
   A DHCP service is created exactly if the name is free and the switch chosen, named or not, suits and has no service
   yet; the first switch that suits is not passed over where it has one. The service has one interface on that switch.
   */
  lemma CreatesDhcpExactly(l: Lab, name: string, switchRef: string)
    requires IdentityOk(l)
    ensures CreateDhcp(l, name, switchRef).Some?
      <==> FreeBut(l, name, "") && exists i: nat :: Chosen(l, switchRef, i) && Suits(l, i) && !Served(l, l.switches[i].id)
    ensures forall i: nat | Chosen(l, switchRef, i) && CreateDhcp(l, name, switchRef).Some? ::
      HasNewWorkload(l, CreateDhcp(l, name, switchRef).value, CT, Workload(name, "", "dhcp", "", [Nic(l.switches[i].id, "", "")]))
  {
    hide IdentityOk, FreeBut, NameFree, OptionalRef, Suits, Chosen, Served, HasDhcpOn, FirstCompatible, DhcpCompatible, CompatibleSwitch;
    NobodyIsUnnamed(l, name);
    ChosenIs(l, switchRef);
    ChosenExists(l, switchRef);
    var c := if switchRef != "" then OptionalRef(l, SW, switchRef) else Some(FirstCompatible(l));
    if c.Some? && c.value != "" {
      var i: nat :| Chosen(l, switchRef, i) && l.switches[i].id == c.value && forall j: nat :: Chosen(l, switchRef, j) ==> j == i;
      SuitsInWords(l, i);
      ServedInWords(l, c.value);
    }
  }

  lemma ChosenExists(l: Lab, switchRef: string)
    ensures forall i: nat | Chosen(l, switchRef, i) :: i < |l.switches|
  {
  }

  // ---------------------------------------------------------------- renaming

  /** A node can be renamed exactly to its own id, or to a well-formed name that no other node has. */
  lemma RenamesExactly(l: Lab, k: Kind, from: string, to: string)
    ensures RenameNode(l, k, from, to).Some? <==> from == to || (Has(l, k, from) && FreeBut(l, to, from))
  {
    hide NameTaken, FreeBut;
    FreeInWords(l, to, from);
  }
}
