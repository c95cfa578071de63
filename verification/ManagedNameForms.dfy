/** The form of the names of the runtime: what a bridge is called, that it fits an interface name, and that it has no direction. */
module ManagedNameForms {
  import opened ByteOrder
  import opened LabModel
  import opened ManagedNames
  import opened Numerals

  /** The part of a bridge name that tells the lab and the node: both ids in lower case, without '-' and '_'. */
  function Bare(n: Naming, k: Kind, id: string): string {
    Stripped(Fold(n.labId)) + (if k == UP then "uplink" else "") + Stripped(Fold(id))
  }

  lemma BareIs(n: Naming, k: Kind, id: string)
    ensures Stripped(Fold(ManagedName(n, BridgeId(k, id)))) == "foxlab" + Bare(n, k, id)
  {
    hide Fold, Stripped;
    CleanOf(n, BridgeId(k, id));
    FoldConcat("foxlab-" + n.labId, "-");
    FoldConcat("foxlab-", n.labId);
    FoldConcat("foxlab", "-");
    FoldConcat("uplink-", id);
    assert MANAGED_PREFIX + "-" + n.labId + "-" == ("foxlab-" + n.labId) + "-";
    assert "foxlab" + "-" == "foxlab-";
    StrippedConcat(Fold("foxlab-" + n.labId), Fold("-"));
    StrippedConcat(Fold("foxlab-"), Fold(n.labId));
    StrippedConcat(Fold("foxlab"), Fold("-"));
    StrippedConcat(Fold("uplink-"), Fold(id));
    StrippedPrefix();
    Dashes();
  }

  lemma {:induction false} NothingStripped(s: string)
    requires '-' !in s && '_' !in s
    ensures Stripped(s) == s
  {
    if s != [] {
      NothingStripped(s[..|s| - 1]);
      assert s == s[..|s| - 1] + [s[|s| - 1]];
    }
  }

  lemma Dashes()
    ensures Stripped(Fold("-")) == "" && Stripped(Fold("uplink-")) == "uplink"
  {
    hide Stripped;
    assert Fold("-") == "-" && Fold("uplink-") == "uplink" + "-";
    OneDash();
    NothingStripped("uplink");
    StrippedConcat("uplink", "-");
  }

  lemma OneDash()
    ensures Stripped("-") == ""
  {
    assert "-"[..0] == "";
  }

  /** A bridge is named "fl" and what it is made from, where that has thirteen characters at most, and is cut to seven with a hash otherwise. */
  lemma BridgeIsNamed(n: Naming, k: Kind, id: string)
    ensures var text := "foxlab" + Bare(n, k, id);
      BridgeName(n, ManagedName(n, BridgeId(k, id))) == if |text| <= 13 then "fl" + text else "fl" + text[..7] + n.stemDigits(text)
  {
    hide Fold, Stripped, ManagedName, Bare;
    BareIs(n, k, id);
  }

  /** With hashes of six digits every bridge name fits into fifteen characters. */
  lemma BridgeNamesFit(n: Naming, managed: string)
    requires forall text :: |n.stemDigits(text)| == 6
    ensures |BridgeName(n, managed)| <= 15
  {
    hide Fold, Stripped;
  }

  /** A direct link has one bridge, whichever way round it is written. */
  lemma LinkBridgeHasNoDirection(n: Naming, a: Endpoint, b: Endpoint)
    ensures LinkBridge(n, Link(a, b)) == LinkBridge(n, Link(b, a))
  {
    hide EndKey, Less;
    LessIsTotal(EndKey(a), EndKey(b));
  }

  /** A container keeps its managed name exactly where the runtime takes it, and has one that the runtime takes in any case. */
  lemma ContainerNamesAreTaken(n: Naming, id: string)
    requires forall text :: n.containerDigits(text) != "" && |n.containerDigits(text)| <= 67 && forall c | c in n.containerDigits(text) :: IsAlnum(c)
    ensures RuntimeName(ContainerName(n, id)) && |ContainerName(n, id)| <= 76
    ensures ContainerName(n, id) == ManagedName(n, id)
       <==> |ManagedName(n, id)| <= 76 && (RuntimeName(ManagedName(n, id)) || ManagedName(n, id) == "foxlab-c-" + n.containerDigits(n.labId + ['\0'] + id))
  {
    hide ManagedName, RuntimeName;
    HashedIsTaken(n.containerDigits(n.labId + ['\0'] + id));
  }

  lemma HashedIsTaken(digits: string)
    requires digits != "" && forall c | c in digits :: IsAlnum(c)
    ensures RuntimeName("foxlab-c-" + digits)
  {
    var s := "foxlab-c-" + digits;
    forall i | 0 <= i < |s|
      ensures IsAlnum(s[i]) || ((i == 6 || i == 8) && s[i] == '-')
    {
      if i >= 9 { assert s[i] == digits[i - 9] && digits[i - 9] in digits; }
    }
  }
}
