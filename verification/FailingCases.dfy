/** Inputs for which an operation does something else than it reports, on labs that meet every rule. */
module FailingCases {
  import opened Numerals
  import opened LabModel
  import opened Lookup
  import opened Disks
  import opened DiskRules
  import opened DiskEditing
  import opened Deletes
  import opened Creates
  import opened ManagedNames
  import opened NameEffects
  import opened SampleLab
  import opened Snapshots
  import opened Transactions
  import Editing
  import EditingSessions
  import Validation

  // ---------------------------------------------------------------- two unnamed VMs

  /** Two unnamed VMs without interfaces, and a base disk nobody uses. */
  function Pair(): Lab {
    Lab([Workload("a", "", "", "", []), Workload("b", "", "", "", [])], [], [], [], [],
        [Disk("base", "q", "base", "", "", "")], map[], [])
  }

  lemma PairIdentities()
    ensures IdentityOk(Pair())
  {
    hide Clash, NameOk;
    forall k: Kind, i: nat | i < Count(Pair(), k)
      ensures NameOk(NodeAt(Pair(), k, i))
    {
      OneLetterIds(if i == 0 then "a" else "b", "z");
    }
    forall j: Kind, h: nat, k: Kind, i: nat | h < Count(Pair(), j) && i < Count(Pair(), k) && (j != k || h != i)
      ensures !Clash(NodeAt(Pair(), j, h), NodeAt(Pair(), k, i))
    {
      OneLetterIds(if h == 0 then "a" else "b", if i == 0 then "a" else "b");
    }
  }

  lemma PairIsValid(resolve: PathFn)
    ensures Valid(Pair(), resolve)
  {
    hide IdentityOk;
    PairIdentities();
    assert DiskOk(Pair(), Pair().disks[0], resolve);
  }

  lemma PairIsUnnamed()
    ensures Unnamed(Pair(), VM) == 2
  {
    assert Matches(Pair(), VM, "", true, 1) == 1;
  }

  /** Detaching from the empty reference succeeds and changes nothing. */
  lemma DetachFromNobody(resolve: PathFn)
    ensures Valid(Pair(), resolve) && DetachDisk(Pair(), "vm", "", "") == Some(Pair())
  {
    hide Unnamed, IdentityOk, ResolveDiskTarget;
    PairIsValid(resolve);
    PairIsUnnamed();
    EmptyDestinationExactly(Pair(), "vm", "");
    assert AttachedIndex(Pair().disks, Destination("", ""), "") == 0;
    var d := Pair().disks[0];
    assert Pair().disks[0 := d.(attachedType := "", attachedTo := "")] == Pair().disks;
    NowherePath(Pair());
  }

  /** Creating a layer and attaching it to the empty reference succeeds and attaches it to nothing. */
  lemma LayerForNobody(resolve: PathFn)
    ensures Valid(Pair(), resolve)
    ensures var m := CreateLayerAndAttach(Pair(), "base", "lay", "vm", "", "p");
      && m.Some? && m == CreateLayer(Pair(), "base", "lay", "p")
      && m.value.disks[1] == Disk("lay", "p", "layer", "base", "", "")
  {
    hide Unnamed, IdentityOk, ResolveDiskTarget, Vacate, WithPath;
    PairIsValid(resolve);
    PairIsUnnamed();
    EmptyDestinationExactly(Pair(), "vm", "");
    assert LayerOk(Pair(), "base", "lay");
    LayerLeftUnattached(Pair(), "base", "lay", "vm", "", "p", resolve);
  }

  /** With a reference that is not empty neither happens: what is created is attached, what is detached was attached. */
  lemma NamedReferencesAreServed(l: Lab, base: string, layer: string, typ: string, ref: string, id: string, path: string, resolve: PathFn)
    requires Valid(l, resolve) && ref != ""
    ensures var m := CreateLayerAndAttach(l, base, layer, typ, ref, path);
      m.Some? ==> m.value.disks != [] && m.value.disks[|m.value.disks| - 1].attachedType != ""
    ensures DetachDisk(l, typ, ref, id) != Some(l)
  {
    hide Valid, Unnamed, ResolveDiskTarget, Vacate, WithPath;
    if CreateLayerAndAttach(l, base, layer, typ, ref, path).Some? {
      LayerLeftUnattached(l, base, layer, typ, ref, path, resolve);
      var to := ResolveDiskTarget(l, typ, ref).value;
      WithPathKeepsDisks(AppendDisk(Vacate(l, to.typ, to.id), Attached(Disk(layer, path, "layer", base, "", ""), to)), to.typ, to.id, path);
    }
    if DetachDisk(l, typ, ref, id).Some? { DetachOfNothing(l, typ, ref, id, resolve); }
  }

  // ---------------------------------------------------------------- a switch under a DHCP service

  /** Deleting the switch of the sample lab is handed to the commit, which must reject it. */
  lemma DeletingSwitchStrandsDhcp(resolve: PathFn)
    requires PathsOk(resolve)
    ensures var op := Editing.OpDelete(SW, "s");
      && Editing.StrandsDhcp(Sample(), op) && Editing.Apply(Sample(), op, resolve).Some?
      && Valid(Sample(), resolve) && !Valid(Editing.Apply(Sample(), op, resolve).value, resolve)
  {
    hide Valid, PathsOk, Deleted;
    SampleIsValid(resolve);
    SampleResolvesSwitch();
    assert Sample().containers[1].nics[0].switch == "s" && IsDhcp(Sample().containers[1]);
    Editing.RulesBreakExactly(Sample(), Editing.OpDelete(SW, "s"), resolve);
  }

  lemma SampleResolvesSwitch()
    ensures Resolve(Sample(), SW, "s") == Found("s")
  {
    assert Matches(Sample(), SW, "s", false, 1) == 1;
  }

  // ---------------------------------------------------------------- names that share a bridge

  /** A single switch. */
  function OneSwitch(id: string): Lab {
    Lab([], [], [Switch(id, "", "bridge", "", [])], [], [], [], map[], [])
  }

  lemma OneSwitchIsAccepted(n: Naming, id: string, resolve: PathFn)
    requires ValidNodeId(id)
    ensures Validation.Accepted(n, OneSwitch(id), resolve)
  {
    hide ValidNodeId, Fold;
    var l := OneSwitch(id);
    assert Deduplicated([]) == [];
    assert IdentityOk(l) by {
      forall k: Kind, i: nat | i < Count(l, k) ensures NameOk(NodeAt(l, k, i)) && k == SW && i == 0 {}
    }
    NamesOkExactly(n, l);
  }

  /**
   Creating a switch whose id differs from that of another only in '-' and '_' is handed to the commit, and the commit
   rejects it, whatever the lab is called and whatever the hashes.
   */
  lemma TwinSwitchIsRejected(n: Naming, id: string, twin: string, resolve: PathFn)
    requires ValidNodeId(id) && ValidNodeId(twin) && |id| != |twin| && Stripped(Fold(id)) == Stripped(Fold(twin)) && PathsOk(resolve)
    ensures var l, op := OneSwitch(id), Editing.OpCreateSwitch(twin, "bridge", "");
      && Validation.Accepted(n, l, resolve) && Editing.Apply(l, op, resolve).Some?
      && !Editing.StrandsDhcp(l, op) && Editing.TakesBridge(n, l, op)
      && !Validation.Accepted(n, Editing.Apply(l, op, resolve).value, resolve)
  {
    hide ValidNodeId, Stripped, Validation.Accepted, PathsOk, Bridge;
    var l, op := OneSwitch(id), Editing.OpCreateSwitch(twin, "bridge", "");
    OneSwitchIsAccepted(n, id, resolve);
    TwinsShareBridge(n, SW, id, SW, twin);
    TwinIsFree(id, twin);
    assert l.switches[0].id == id;
    assert id != "" by { NotEmpty(id); }
    Editing.CommitRejectsExactly(n, l, op, resolve);
  }

  lemma NotEmpty(id: string)
    requires ValidNodeId(id)
    ensures id != ""
  {
  }

  lemma TwinIsFree(id: string, twin: string)
    requires ValidNodeId(id) && ValidNodeId(twin) && |id| != |twin|
    ensures NameFree(OneSwitch(id), twin)
  {
    hide ValidNodeId;
    NotEmpty(twin);
    assert |Fold(id)| != |Fold(twin)|;
    forall k: Kind, i: nat | i < Count(OneSwitch(id), k) ensures !MatchesRef(NodeAt(OneSwitch(id), k, i), twin) {}
  }

  lemma StripsTo(head: string, tail: string)
    requires Stripped(Fold(head)) == head && Stripped(Fold(tail)) == tail
    ensures Stripped(Fold(head + "-" + tail)) == head + tail && Stripped(Fold(head + tail)) == head + tail
  {
    hide Fold;
    FoldConcat(head, tail);
    StrippedConcat(Fold(head), Fold(tail));
    FoldConcat(head + "-", tail);
    FoldConcat(head, "-");
    assert Fold("-") == "-" by { OneDash(); }
    StrippedConcat(Fold(head) + "-", Fold(tail));
    StrippedConcat(Fold(head), "-");
    assert Stripped("-") == [];
  }

  lemma OneDash()
    ensures Fold("-") == "-"
  {
  }

  lemma {:induction false} NothingToStrip(s: string)
    requires '-' !in s && '_' !in s
    ensures Stripped(s) == s
  {
    if s != [] {
      NothingToStrip(s[..|s| - 1]);
      assert s == s[..|s| - 1] + [s[|s| - 1]];
    }
  }

  lemma PlainWords()
    ensures Stripped(Fold("lan")) == "lan" && Stripped(Fold("switch")) == "switch" && Stripped(Fold("1")) == "1"
  {
    assert Fold("lan") == "lan" && Fold("switch") == "switch" && Fold("1") == "1";
    NothingToStrip("lan");
    NothingToStrip("switch");
    NothingToStrip("1");
  }

  lemma PlainIds()
    ensures ValidNodeId("lan1") && ValidNodeId("lan-1") && ValidNodeId("switch1") && ValidNodeId("switch-1")
  {
  }

  /** "lan-1" beside "lan1". */
  lemma LanIsRejected(n: Naming, resolve: PathFn)
    requires PathsOk(resolve)
    ensures var l, op := OneSwitch("lan1"), Editing.OpCreateSwitch("lan-1", "bridge", "");
      && Validation.Accepted(n, l, resolve) && Editing.Apply(l, op, resolve).Some? && !Editing.StrandsDhcp(l, op)
      && !Validation.Accepted(n, Editing.Apply(l, op, resolve).value, resolve)
  {
    hide Stripped, ValidNodeId, Fold;
    PlainWords();
    PlainIds();
    StripsTo("lan", "1");
    assert "lan" + "-" + "1" == "lan-1" && "lan" + "1" == "lan1";
    TwinSwitchIsRejected(n, "lan1", "lan-1", resolve);
  }

  /** The first name the generator offers for a switch, beside one called "switch1": it is free, and the commit rejects it. */
  lemma GeneratedNameIsRejected(n: Naming, resolve: PathFn)
    requires PathsOk(resolve)
    ensures var l, name := OneSwitch("switch1"), Numbered("switch", 1); var op := Editing.OpCreateSwitch(name, "bridge", "");
      && !NameTaken(l, name, "") && Validation.Accepted(n, l, resolve) && Editing.Apply(l, op, resolve).Some?
      && !Validation.Accepted(n, Editing.Apply(l, op, resolve).value, resolve)
  {
    hide Stripped, ValidNodeId, Fold;
    PlainWords();
    PlainIds();
    StripsTo("switch", "1");
    assert Itoa(1) == "1";
    assert "switch" + "-" + "1" == "switch-1" && "switch" + "1" == "switch1";
    TwinIsFree("switch1", "switch-1");
    TwinSwitchIsRejected(n, "switch1", "switch-1", resolve);
  }

  // ---------------------------------------------------------------- files that stay, and a lab that is not loaded

  /** Deleting a free disk whose moved file cannot be removed: the disk has gone, and a failure is reported. */
  method DeletionReportedFailed(resolve: PathFn) returns (s: LabState, ok: bool)
    ensures Valid(Pair(), resolve) && fresh(s)
    ensures !ok && s.View() == Pair().(disks := [])
  {
    hide Valid;
    PairIsValid(resolve);
    s := new LabState(Pair());
    ok := DiskDelete(s, "base", Files(true, true, true, false));
    assert FindDisk(Pair().disks, "base") == 0;
  }

  function Merged(): Lab {
    Sample().(disks := [Disk("base", "q", "base", "", "", "")],
              vms := [Workload("a", "", "", "", [Nic("s", "", ""), Nic("", "", "")])])
  }

  lemma SampleMerges()
    ensures MergeDisk(Sample(), "layer", true) == Some(Merged())
  {
    var l := Sample();
    assert FindDisk(l.disks, "layer") == 1 by { assert FindDisk(l.disks[1..], "layer") == 0; }
    assert FindDisk(l.disks, "base") == 0;
    assert FindWorkload(l.vms, "a") == 0;
    assert l.vms[0 := l.vms[0].(disk := "")] == Merged().vms;
    assert l.disks[..1] + l.disks[2..] == Merged().disks;
  }

  /** Merging the layer of the sample lab likewise. */
  method MergeReportedFailed(resolve: PathFn) returns (s: LabState, ok: bool, flattened: bool)
    ensures Valid(Sample(), resolve) && fresh(s)
    ensures !ok && flattened && s.View() == Merged()
  {
    hide Valid, Sample, MergeDisk;
    SampleIsValid(resolve);
    SampleMerges();
    s := new LabState(Sample());
    ok, flattened := DiskMerge(s, "layer", true, Files(true, true, true, false));
  }

  /** The base has taken in the layer, but the layer's file could not be moved: the lab is as before. */
  method MergeStoppedHalfway(resolve: PathFn) returns (s: LabState, ok: bool, flattened: bool)
    ensures Valid(Sample(), resolve) && fresh(s)
    ensures !ok && flattened && s.View() == Sample()
  {
    hide Valid, Sample, MergeDisk;
    SampleIsValid(resolve);
    SampleMerges();
    s := new LabState(Sample());
    ok, flattened := DiskMerge(s, "layer", true, Files(true, false, true, true));
  }

  function EmptyValue(): LabVal {
    LabVal("demo", NodesVal([], [], []), FlatVal([], [], [], []), MapsVal(None, None))
  }

  lemma NoNamesToShare(n: Naming, l: Lab)
    requires IdentityOk(l) && l.containers == [] && l.switches == [] && l.uplinks == [] && l.links == []
    ensures ManagedNamesOk(n, l)
  {
    NamesOkExactly(n, l);
  }

  /** The file holds the edited lab, memory the old one, and the mutation reports a failure. */
  method FileAheadOfMemory(format: Format) returns (session: Session, ok: bool, ghost edited: LabVal)
    requires forall v :: format.normal(v) == v && format.others(v)
    ensures fresh(session) && session.current.Valid() && !ok
    ensures LabOf(session.current.Val()) == Pair() && session.file == Some(edited) && LabOf(edited) == Pair().(disks := [])
    ensures format.Accepts(session.current.Val()) && format.Accepts(edited)
  {
    hide LabObject.Valid, LabObject.Val, Format.Accepts, LabOf, Valid;
    var v := EditingSessions.ValueOf(EmptyValue(), Pair());
    var empty := v.(flat := v.flat.(disks := []));
    EditingSessions.ValueSays(EmptyValue(), Pair());
    WithoutDisks(v);
    PairIsAccepted(format, v, Pair());
    PairIsAccepted(format, empty, Pair().(disks := []));
    var current := Build(v);
    session := new Session(current, Some(v));
    var script := [Disks(Replace([]))];
    ok, edited := session.Mutate(script, false, format, Io(true, false, true));
    assert script[..0] == [];
    assert edited == empty;
  }

  lemma WithoutDisks(v: LabVal)
    ensures LabOf(v.(flat := v.flat.(disks := []))) == LabOf(v).(disks := [])
  {
  }

  lemma PairIsAccepted(format: Format, v: LabVal, l: Lab)
    requires LabOf(v) == l && l.(disks := []) == Pair().(disks := []) && (l.disks == [] || l == Pair()) && format.others(v)
    ensures format.Accepts(v)
  {
    hide IdentityOk, LabOf;
    PairIdentities();
    SameNames(l, Pair());
    if l == Pair() { PairIsValid(format.resolve); }
    NoNamesToShare(format.NamingOf(v), l);
  }

  lemma SameNames(l: Lab, m: Lab)
    requires IdentityOk(m) && l.vms == m.vms && l.containers == m.containers && l.switches == m.switches && l.uplinks == m.uplinks
    ensures IdentityOk(l)
  {
    assert forall k: Kind :: Count(l, k) == Count(m, k);
    assert forall k: Kind, i: nat | i < Count(l, k) :: NodeAt(l, k, i) == NodeAt(m, k, i);
  }
}
