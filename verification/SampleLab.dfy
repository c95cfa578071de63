/** A small lab that meets every rule: the rules are consistent, and all of them are exercised at once. */
module SampleLab {
  import opened Numerals
  import opened LabModel

  function Sample(): Lab {
    Lab([Workload("a", "", "", "p", [Nic("s", "", ""), Nic("", "", "")])],
        [Workload("b", "", "", "", [Nic("", "", "")]), Workload("d", "", "dhcp", "", [Nic("s", "", "")])],
        [Switch("s", "", "nat", "", ["u"])],
        [Uplink("u", "", "nat")],
        [Link(Endpoint("vm", "a", 1), Endpoint("container", "b", 0))],
        [Disk("base", "q", "base", "", "", ""), Disk("layer", "p", "layer", "base", "vm", "a")],
        map["a" := Position(80, 80)],
        [LayoutLink(LayoutEnd("vm", "a"), LayoutEnd("switch", "s"))])
  }

  function IdAt(k: Kind, i: nat): string {
    match k case VM => "a" case CT => if i == 0 then "b" else "d" case SW => "s" case UP => "u"
  }

  lemma SampleNodes(k: Kind, i: nat)
    requires i < Count(Sample(), k)
    ensures NodeAt(Sample(), k, i) == NodeName(IdAt(k, i), "") && i < 2 && (k != CT ==> i == 0)
  {
  }

  lemma OneLetterIds(a: string, b: string)
    requires |a| == 1 && |b| == 1 && 'a' <= a[0] <= 'z' && 'a' <= b[0] <= 'z' && a != b
    ensures !Clash(NodeName(a, ""), NodeName(b, "")) && NameOk(NodeName(a, ""))
  {
    assert Fold(a)[0] == a[0] && Fold(b)[0] == b[0];
  }

  lemma SampleIdentities()
    ensures IdentityOk(Sample())
  {
    hide Clash, NameOk, Sample;
    forall k: Kind, i: nat | i < Count(Sample(), k)
      ensures NameOk(NodeAt(Sample(), k, i))
    {
      SampleNodes(k, i);
      OneLetterIds(IdAt(k, i), "z");
    }
    forall j: Kind, h: nat, k: Kind, i: nat | h < Count(Sample(), j) && i < Count(Sample(), k) && (j != k || h != i)
      ensures !Clash(NodeAt(Sample(), j, h), NodeAt(Sample(), k, i))
    {
      SampleNodes(j, h);
      SampleNodes(k, i);
      OneLetterIds(IdAt(j, h), IdAt(k, i));
    }
  }

  lemma SampleFinds()
    ensures Has(Sample(), VM, "a") && Has(Sample(), SW, "s") && Has(Sample(), UP, "u")
    ensures Find(Sample(), SW, "s") == 0 && Find(Sample(), UP, "u") == 0
    ensures FindWorkload(Sample().vms, "a") == 0 && FindWorkload(Sample().containers, "b") == 0
  {
  }

  lemma SampleNetworks()
    ensures SwitchesOk(Sample()) && NetworksOk(Sample())
  {
    SampleFinds();
    var sw := Sample().switches[0];
    assert Deduplicated(["u"]) == ["u"] by { assert ["u"][..0] == []; }
    assert SwitchUplinks(sw) == ["u"];
  }

  lemma SampleDhcp()
    ensures DhcpOk(Sample())
  {
    SampleFinds();
    assert Deduplicated(["u"]) == ["u"] by { assert ["u"][..0] == []; }
    assert SwitchUplinks(Sample().switches[0]) == ["u"];
  }

  lemma SampleLinks()
    ensures LinksOk(Sample())
  {
    SampleFinds();
  }

  lemma SampleDisks(resolve: PathFn)
    ensures DisksOk(Sample(), resolve)
  {
    SampleFinds();
    var base, layer := Sample().disks[0], Sample().disks[1];
    assert FindDisk(Sample().disks, "base") == 0;
    assert DiskOk(Sample(), base, resolve) && DiskOk(Sample(), layer, resolve);
  }

  lemma SampleLayout()
    ensures LayoutOk(Sample())
  {
    SampleFinds();
  }

  lemma SampleIsValid(resolve: PathFn)
    ensures Valid(Sample(), resolve)
  {
    hide Sample, IdentityOk, SwitchesOk, NetworksOk, DhcpOk, LinksOk, DisksOk, LayoutOk;
    SampleIdentities();
    SampleNetworks();
    SampleDhcp();
    SampleLinks();
    SampleDisks(resolve);
    SampleLayout();
  }
}
