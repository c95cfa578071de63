/** The capabilities of a container: defaults, additions and drops, and switching one on or off. */
module Capabilities {
  import opened ByteOrder
  import opened Numerals

  const DEFAULTS: seq<string> :=
    [ "CHOWN", "DAC_OVERRIDE", "FSETID", "FOWNER", "MKNOD", "NET_RAW", "SETGID", "SETUID", "SETFCAP", "SETPCAP",
      "NET_BIND_SERVICE", "SYS_CHROOT", "KILL", "AUDIT_WRITE" ]

  const SUPPORTED: seq<string> :=
    [ "AUDIT_CONTROL", "AUDIT_READ", "AUDIT_WRITE", "BLOCK_SUSPEND", "BPF", "CHECKPOINT_RESTORE", "CHOWN", "DAC_OVERRIDE",
      "DAC_READ_SEARCH", "FOWNER", "FSETID", "IPC_LOCK", "IPC_OWNER", "KILL", "LEASE", "LINUX_IMMUTABLE", "MAC_ADMIN",
      "MAC_OVERRIDE", "MKNOD", "NET_ADMIN", "NET_BIND_SERVICE", "NET_BROADCAST", "NET_RAW", "PERFMON", "SETFCAP", "SETGID",
      "SETPCAP", "SETUID", "SYS_ADMIN", "SYS_BOOT", "SYS_CHROOT", "SYS_MODULE", "SYS_NICE", "SYS_PACCT", "SYS_PTRACE",
      "SYS_RAWIO", "SYS_RESOURCE", "SYS_TIME", "SYS_TTY_CONFIG", "SYSLOG", "WAKE_ALARM" ]

  const PREFIX: string := "CAP_"

  function UpperChar(c: char): char {
    if 'a' <= c <= 'z' then (c as int - 32) as char else c
  }

  function Upper(s: string): string {
    seq(|s|, i requires 0 <= i < |s| => UpperChar(s[i]))
  }

  predicate Prefixed(s: string) {
    |s| >= 4 && s[..4] == PREFIX
  }

  /** NormalizeContainerCapability: upper case, and one prefix off. */
  function Normal(s: string): string {
    if Prefixed(Upper(s)) then Upper(s)[4..] else Upper(s)
  }

  /** Normalising twice is normalising once exactly where one prefix was all there was. */
  lemma NormalIsIdempotentExactly(s: string)
    ensures Normal(Normal(s)) == Normal(s) <==> !Prefixed(Normal(s))
  {
    assert Upper(Upper(s)) == Upper(s);
    assert Upper(Normal(s)) == Normal(s);
  }

  lemma DoubledPrefix()
    ensures Normal("CAP_CAP_KILL") == "CAP_KILL" && Normal("CAP_KILL") == "KILL"
  {
    assert Upper("CAP_CAP_KILL") == "CAP_CAP_KILL" && Upper("CAP_KILL") == "CAP_KILL";
  }

  predicate IsSupported(s: string) {
    Normal(s) in SUPPORTED
  }

  // ---------------------------------------------------------------- the effective set

  datatype Caps = Caps(add: seq<string>, drop: seq<string>)

  /** The names a list stands for. */
  function Names(values: seq<string>): set<string> {
    if values == [] then {} else Names(values[..|values| - 1]) + {Normal(values[|values| - 1])}
  }

  lemma {:induction false} InNames(values: seq<string>, x: string)
    ensures x in Names(values) <==> exists i :: 0 <= i < |values| && x == Normal(values[i])
  {
    hide Normal;
    if values != [] { InNames(values[..|values| - 1], x); }
  }

  function Defaults(): set<string> {
    set i | 0 <= i < |DEFAULTS| :: DEFAULTS[i]
  }

  function Effective(caps: Option<Caps>): set<string> {
    match caps case None => Defaults() case Some(c) => Defaults() + Names(c.add) - Names(c.drop)
  }

  /** The two loops over the lists; a name in both is dropped. */
  method CollectEffective(caps: Option<Caps>) returns (enabled: set<string>)
    ensures enabled == Effective(caps)
  {
    enabled := {};
    for i := 0 to |DEFAULTS|
      invariant enabled == set j | 0 <= j < i :: DEFAULTS[j]
    {
      enabled := enabled + {DEFAULTS[i]};
    }
    if caps.Some? {
      var c := caps.value;
      for i := 0 to |c.add|
        invariant enabled == Defaults() + Names(c.add[..i])
      {
        assert c.add[..i + 1][..i] == c.add[..i];
        enabled := enabled + {Normal(c.add[i])};
      }
      assert c.add[..|c.add|] == c.add;
      for i := 0 to |c.drop|
        invariant enabled == Defaults() + Names(c.add) - Names(c.drop[..i])
      {
        assert c.drop[..i + 1][..i] == c.drop[..i];
        enabled := enabled - {Normal(c.drop[i])};
      }
      assert c.drop[..|c.drop|] == c.drop;
    }
  }

  /** The keys of a map in whatever order they are iterated, sorted. */
  method SortedNames(enabled: set<string>) returns (names: seq<string>)
    ensures Ascending(names) && Elements(names) == enabled
  {
    hide Ascending;
    names := [];
    var rest := enabled;
    while rest != {}
      invariant Distinct(names) && Elements(names) + rest == enabled && Elements(names) !! rest
      decreases |rest|
    {
      var name :| name in rest;
      assert name !in names by { assert name !in Elements(names); }
      assert Elements(names + [name]) == Elements(names) + {name};
      names, rest := names + [name], rest - {name};
    }
    SortKeysSorts(names);
    names := SortKeys(names);
  }

  /** EffectiveContainerCapabilities. */
  method EffectiveCapabilities(caps: Option<Caps>) returns (names: seq<string>)
    ensures Ascending(names) && Elements(names) == Effective(caps)
  {
    hide Effective;
    var enabled := CollectEffective(caps);
    names := SortedNames(enabled);
  }

  // ---------------------------------------------------------------- switching one

  function Without(values: seq<string>, remove: string): seq<string> {
    if values == [] then []
    else
      var last := Normal(values[|values| - 1]);
      Without(values[..|values| - 1], remove) + if last != "" && last != remove then [last] else []
  }

  method StringSliceWithout(values: seq<string>, remove: string) returns (out: seq<string>)
    ensures out == Without(values, remove)
  {
    out := [];
    for i := 0 to |values|
      invariant out == Without(values[..i], remove)
    {
      assert values[..i + 1][..i] == values[..i];
      var value := Normal(values[i]);
      if value != "" && value != remove {
        out := out + [value];
      }
    }
    assert values[..|values|] == values;
  }

  /** stringSliceContains(DefaultContainerCapabilities(), want). */
  predicate IsDefault(want: string) {
    want in Names(DEFAULTS)
  }

  /** The lists after a switch that is not already as wanted. */
  function Switched(caps: Option<Caps>, c: string, enabled: bool): Option<Caps> {
    var old_ := if caps.Some? then caps.value else Caps([], []);
    var add := Without(old_.add, c) + if enabled && !IsDefault(c) then [c] else [];
    var drop := Without(old_.drop, c) + if !enabled && IsDefault(c) then [c] else [];
    if add == [] && drop == [] then None else Some(Caps(add, drop))
  }

  // ---------------------------------------------------------------- the commit

  /** The names in the order they come, without blanks and repetitions. */
  function Collected(values: seq<string>): seq<string> {
    if values == [] then []
    else
      var out, last := Collected(values[..|values| - 1]), Normal(values[|values| - 1]);
      if last == "" || last in out then out else out + [last]
  }

  lemma {:induction false} CollectedNames(values: seq<string>)
    ensures Elements(Collected(values)) == Names(values) - {""} && Distinct(Collected(values))
  {
    hide Normal;
    if values != [] {
      CollectedNames(values[..|values| - 1]);
      var out, last := Collected(values[..|values| - 1]), Normal(values[|values| - 1]);
      assert last in out <==> last in Elements(out);
      assert Elements(out + [last]) == Elements(out) + {last};
    }
  }

  /** normalizeContainerCapabilities: the one ascending list of the names other than the blank one. */
  function Stored(values: seq<string>): (out: seq<string>)
    ensures Ascending(out) && Elements(out) == Names(values) - {""}
  {
    CollectedNames(values);
    SortKeysSorts(Collected(values));
    SortKeys(Collected(values))
  }

  /** The list is what its contract says and nothing else: ascending, each name once, no blank, all the names. */
  method NormalizeCapabilities(values: seq<string>) returns (out: seq<string>)
    ensures Ascending(out) && Elements(out) == Names(values) - {""} && "" !in out && out == Stored(values)
  {
    hide Normal;
    var collected: seq<string> := [];
    for i := 0 to |values|
      invariant collected == Collected(values[..i])
    {
      assert values[..i + 1][..i] == values[..i];
      var capability := Normal(values[i]);
      if capability != "" && capability !in collected {
        collected := collected + [capability];
      }
    }
    assert values[..|values|] == values;
    out := SortKeys(collected);
    assert "" !in Elements(Stored(values));
  }

  function StoredCaps(caps: Option<Caps>): Option<Caps> {
    if caps.None? || (Stored(caps.value.add) == [] && Stored(caps.value.drop) == []) then None
    else Some(Caps(Stored(caps.value.add), Stored(caps.value.drop)))
  }

  predicate AllSupported(values: seq<string>) {
    forall i | 0 <= i < |values| :: IsSupported(Normal(values[i]))
  }

  /** Every name is supported, and none is both added and dropped. */
  predicate Accepted(caps: Option<Caps>) {
    caps.Some? ==> AllSupported(caps.value.add) && AllSupported(caps.value.drop) && Names(caps.value.add) !! Names(caps.value.drop)
  }

  /** validateContainerCapabilities: whether its loops report a problem. */
  method ValidateCapabilities(caps: Option<Caps>) returns (problems: bool)
    ensures problems <==> !Accepted(caps)
  {
    hide Normal, IsSupported;
    if caps.None? {
      return false;
    }
    problems := false;
    var add, drop := caps.value.add, caps.value.drop;
    var added: set<string> := {};
    for i := 0 to |add|
      invariant problems <==> !AllSupported(add[..i])
      invariant !problems ==> added == Names(add[..i])
    {
      assert add[..i + 1][..i] == add[..i];
      if !IsSupported(Normal(add[i])) {
        problems := true;
      } else {
        added := added + {Normal(add[i])};
      }
      assert AllSupported(add[..i + 1]) <==> AllSupported(add[..i]) && IsSupported(Normal(add[i])) by { SupportedSnoc(add, i); }
    }
    assert add[..|add|] == add;
    for i := 0 to |drop|
      invariant problems <==> !(AllSupported(add) && AllSupported(drop[..i]) && Names(add) !! Names(drop[..i]))
      invariant AllSupported(add) ==> added == Names(add)
    {
      assert drop[..i + 1][..i] == drop[..i];
      SupportedSnoc(drop, i);
      if !IsSupported(Normal(drop[i])) || Normal(drop[i]) in added {
        problems := true;
      }
    }
    assert drop[..|drop|] == drop;
  }

  lemma SupportedSnoc(values: seq<string>, i: nat)
    requires i < |values|
    ensures AllSupported(values[..i + 1]) <==> AllSupported(values[..i]) && IsSupported(Normal(values[i]))
  {
    hide Normal, IsSupported;
    assert forall j | 0 <= j < i :: values[..i + 1][j] == values[..i][j];
    assert values[..i + 1][i] == values[i];
  }

  /** What the call amounts to: refused, nothing to do, or new lists to commit. */
  datatype Verdict = Refused | AlreadySo | Change(caps: Option<Caps>)

  function Decide(dhcp: bool, caps: Option<Caps>, capability: string, enabled: bool): Verdict {
    var c := Normal(capability);
    if !IsSupported(c) || dhcp then Refused
    else if (Normal(c) in Effective(caps)) == enabled then AlreadySo
    else Change(Switched(caps, c, enabled))
  }

  class Container {
    const dhcp: bool
    var capabilities: Option<Caps>

    constructor (dhcp: bool, capabilities: Option<Caps>)
      ensures this.dhcp == dhcp && this.capabilities == capabilities
    {
      this.dhcp, this.capabilities := dhcp, capabilities;
    }

    /** ContainerCapabilitySet on the resolved container, up to its commit. */
    method CapabilitySet(capability: string, enabled: bool) returns (changed: bool)
      modifies this
      ensures match Decide(dhcp, old(capabilities), capability, enabled)
              case Change(caps) => changed && capabilities == caps
              case _ => !changed && capabilities == old(capabilities)
    {
      hide Normal, IsSupported, Effective, Without, IsDefault, Ascending;
      var c := Normal(capability);
      if !IsSupported(c) || dhcp {
        return false;
      }
      var effective := EffectiveCapabilities(capabilities);
      assert Normal(c) in effective <==> Normal(c) in Elements(effective);
      if (Normal(c) in effective) == enabled {
        return false;
      }
      var lists := if capabilities.Some? then capabilities.value else Caps([], []);
      var add := StringSliceWithout(lists.add, c);
      var drop := StringSliceWithout(lists.drop, c);
      assert add + [] == add && drop + [] == drop;
      if enabled && !IsDefault(c) {
        add := add + [c];
      } else if !enabled && IsDefault(c) {
        drop := drop + [c];
      }
      capabilities := if |add| == 0 && |drop| == 0 then None else Some(Caps(add, drop));
      return true;
    }
  }

  // ---------------------------------------------------------------- what switching does

  predicate TidyList(values: seq<string>) {
    forall i | 0 <= i < |values| :: Normal(values[i]) != "" && !Prefixed(Normal(values[i]))
  }

  /** Every listed name has at most one prefix and is more than a prefix. */
  predicate Tidy(caps: Option<Caps>) {
    caps.Some? ==> TidyList(caps.value.add) && TidyList(caps.value.drop)
  }

  function Added(caps: Option<Caps>): set<string> {
    if caps.Some? then Names(caps.value.add) else {}
  }

  function Dropped(caps: Option<Caps>): set<string> {
    if caps.Some? then Names(caps.value.drop) else {}
  }

  lemma EffectiveIs(caps: Option<Caps>)
    ensures Effective(caps) == Defaults() + Added(caps) - Dropped(caps)
  {
  }

  lemma TidySnoc(values: seq<string>, v: string)
    requires TidyList(values) && Normal(v) != "" && !Prefixed(Normal(v))
    ensures TidyList(values + [v])
  {
    hide Normal, Prefixed;
  }

  lemma TidyLast(values: seq<string>)
    requires TidyList(values) && values != []
    ensures var last := Normal(values[|values| - 1]);
      TidyList(values[..|values| - 1]) && last != "" && !Prefixed(last) && Normal(last) == last
  {
    hide Normal, Prefixed;
    NormalIsIdempotentExactly(values[|values| - 1]);
  }

  lemma {:induction false} NamesWithout(values: seq<string>, remove: string)
    requires TidyList(values)
    ensures Names(Without(values, remove)) == Names(values) - {remove} && TidyList(Without(values, remove))
  {
    if values != [] {
      hide Normal, Prefixed, TidyList;
      var init, last := values[..|values| - 1], Normal(values[|values| - 1]);
      TidyLast(values);
      NamesWithout(init, remove);
      if last != remove {
        NamesOfMore(Without(init, remove), last);
        TidySnoc(Without(init, remove), last);
      }
      assert Without(init, remove) + [] == Without(init, remove);
    }
  }

  lemma NamesOfMore(values: seq<string>, v: string)
    ensures Names(values + [v]) == Names(values) + {Normal(v)}
  {
    hide Normal;
    assert (values + [v])[..|values|] == values;
  }

  lemma NoNames()
    ensures Names([]) == {}
  {
  }

  lemma SwitchedNames(caps: Option<Caps>, c: string, enabled: bool)
    requires Tidy(caps)
    ensures var m := Switched(caps, c, enabled);
      && Added(m) == Added(caps) - {c} + (if enabled && !IsDefault(c) then {Normal(c)} else {})
      && Dropped(m) == Dropped(caps) - {c} + (if !enabled && IsDefault(c) then {Normal(c)} else {})
  {
    hide IsDefault, Normal, Names, Without, Prefixed;
    NoNames();
    var lists := if caps.Some? then caps.value else Caps([], []);
    NamesWithout(lists.add, c);
    NamesWithout(lists.drop, c);
    NamesOfMore(Without(lists.add, c), c);
    NamesOfMore(Without(lists.drop, c), c);
    assert Without(lists.add, c) + [] == Without(lists.add, c) && Without(lists.drop, c) + [] == Without(lists.drop, c);
  }

  lemma DefaultsAreNormal()
    ensures Names(DEFAULTS) == Defaults() && forall x | x in Defaults() :: !Prefixed(x)
  {
    forall i | 0 <= i < |DEFAULTS|
      ensures Normal(DEFAULTS[i]) == DEFAULTS[i] && !Prefixed(DEFAULTS[i])
    {
      DefaultIsNormal(i);
    }
    forall x ensures x in Names(DEFAULTS) <==> x in Defaults() { InNames(DEFAULTS, x); }
  }

  predicate PlainName(s: string) {
    s != "" && (|s| < 3 || s[2] != 'P') && forall i | 0 <= i < |s| :: !('a' <= s[i] <= 'z')
  }

  lemma PlainIsNormal(s: string)
    requires PlainName(s)
    ensures Normal(s) == s && !Prefixed(s) && s != ""
  {
    assert Upper(s) == s;
    assert |s| >= 4 ==> s[..4][2] == s[2];
  }

  lemma DefaultIsNormal(i: nat)
    requires i < |DEFAULTS|
    ensures Normal(DEFAULTS[i]) == DEFAULTS[i] && !Prefixed(DEFAULTS[i])
  {
    var s := DEFAULTS[i];
    if i < 7 { assert PlainName(s); } else { assert PlainName(s); }
    PlainIsNormal(s);
  }

  lemma FirstSupportedArePlain(i: nat)
    requires i < 14
    ensures PlainName(SUPPORTED[i])
  {
  }

  lemma NextSupportedArePlain(i: nat)
    requires 14 <= i < 28
    ensures PlainName(SUPPORTED[i])
  {
  }

  lemma LastSupportedArePlain(i: nat)
    requires 28 <= i < |SUPPORTED|
    ensures PlainName(SUPPORTED[i])
  {
  }

  lemma SupportedIsUnprefixed(s: string)
    requires IsSupported(s)
    ensures !Prefixed(Normal(s)) && Normal(s) != ""
  {
    hide Normal, PlainName, Prefixed;
    SupportedArePlain(SUPPORTED, Normal(s));
    PlainIsNormal(Normal(s));
  }

  lemma SupportedArePlain(names: seq<string>, name: string)
    requires names == SUPPORTED && name in names
    ensures PlainName(name)
  {
    hide PlainName;
    var i :| 0 <= i < |names| && names[i] == name;
    if i < 14 { FirstSupportedArePlain(i); } else if i < 28 { NextSupportedArePlain(i); } else { LastSupportedArePlain(i); }
  }

  /** The promise: the named capability is effective exactly if enabled, and every other one as before. */
  ghost predicate HasEffect(before: Option<Caps>, after: Option<Caps>, name: string, enabled: bool) {
    Effective(after) == if enabled then Effective(before) + {name} else Effective(before) - {name}
  }

  /** On the lists handed to the commit: a doubled prefix spoils a disable, and an enable of what was dropped. */
  lemma ListsHaveEffectExactly(dhcp: bool, caps: Option<Caps>, capability: string, enabled: bool)
    requires Tidy(caps) && Decide(dhcp, caps, capability, enabled).Change?
    ensures var name := Normal(Normal(capability));
      HasEffect(caps, Decide(dhcp, caps, capability, enabled).caps, name, enabled)
      <==> !Prefixed(Normal(capability)) || (enabled && name !in Dropped(caps))
  {
    hide Normal, Prefixed, Defaults, Switched, Names, Tidy, IsSupported;
    var c := Normal(capability);
    var name := Normal(c);
    var m := Switched(caps, c, enabled);
    NormalIsIdempotentExactly(capability);
    DefaultsAreNormal();
    SupportedIsUnprefixed(c);
    SwitchedNames(caps, c, enabled);
    EffectiveIs(caps);
    EffectiveIs(m);
    if Prefixed(c) { PrefixedIsNowhere(caps, c); }
  }

  lemma NamesInTidy(values: seq<string>, x: string)
    requires TidyList(values) && x in Names(values)
    ensures x != "" && !Prefixed(x) && Normal(x) == x
  {
    hide Normal, Prefixed;
    InNames(values, x);
    var i :| 0 <= i < |values| && x == Normal(values[i]);
    NormalIsIdempotentExactly(values[i]);
  }

  lemma StoredNames(values: seq<string>)
    requires TidyList(values)
    ensures Names(Stored(values)) == Names(values) && TidyList(Stored(values))
  {
    hide Normal, Prefixed, Names, Stored;
    var out := Stored(values);
    forall x | x in out
      ensures x in Names(values) && x != "" && !Prefixed(x) && Normal(x) == x
    {
      assert x in Elements(out);
      NamesInTidy(values, x);
    }
    forall x
      ensures x in Names(out) <==> x in Names(values)
    {
      InNames(out, x);
      if x in Names(values) {
        NamesInTidy(values, x);
        assert x in Elements(out);
        var i :| 0 <= i < |out| && out[i] == x;
        assert x == Normal(out[i]);
      }
    }
  }

  lemma StoredIsSame(caps: Option<Caps>)
    requires Tidy(caps)
    ensures var m := StoredCaps(caps);
      Tidy(m) && Added(m) == Added(caps) && Dropped(m) == Dropped(caps) && Effective(m) == Effective(caps)
  {
    hide Normal, Stored, Defaults;
    if caps.Some? {
      StoredNames(caps.value.add);
      StoredNames(caps.value.drop);
      if StoredCaps(caps).None? { assert Names([]) == {}; }
    }
    EffectiveIs(caps);
    EffectiveIs(StoredCaps(caps));
  }

  lemma SwitchedIsTidy(caps: Option<Caps>, c: string, enabled: bool)
    requires Tidy(caps) && IsSupported(c)
    ensures Tidy(Switched(caps, c, enabled))
  {
    hide Normal, Prefixed, IsDefault, IsSupported;
    SupportedIsUnprefixed(c);
    var lists := if caps.Some? then caps.value else Caps([], []);
    NamesWithout(lists.add, c);
    NamesWithout(lists.drop, c);
    hide TidyList;
    TidySnoc(Without(lists.add, c), c);
    TidySnoc(Without(lists.drop, c), c);
    assert Without(lists.add, c) + [] == Without(lists.add, c) && Without(lists.drop, c) + [] == Without(lists.drop, c);
  }

  lemma AcceptedIsDisjoint(caps: Option<Caps>)
    requires Accepted(caps)
    ensures Added(caps) !! Dropped(caps)
  {
  }

  /** What the container has after the call, and whether the call reports a change. The commit stores the lists, or refuses them. */
  function Outcome(dhcp: bool, caps: Option<Caps>, capability: string, enabled: bool): Verdict {
    var v := Decide(dhcp, caps, capability, enabled);
    if !v.Change? then v else if Accepted(StoredCaps(v.caps)) then Change(StoredCaps(v.caps)) else Refused
  }

  /**
   A successful change has its effect exactly if the given name carried at most one prefix, or the capability is
   being enabled. With a doubled prefix a disable changes nothing and still reports it; an enable that would not
   help, because the name stays dropped, is refused by the commit.
   */
  lemma SwitchingHasEffectExactly(dhcp: bool, caps: Option<Caps>, capability: string, enabled: bool)
    requires Tidy(caps) && Outcome(dhcp, caps, capability, enabled).Change?
    ensures HasEffect(caps, Outcome(dhcp, caps, capability, enabled).caps, Normal(Normal(capability)), enabled)
       <==> !Prefixed(Normal(capability)) || enabled
  {
    hide Normal, Prefixed, Names, Tidy, Stored, Switched, Accepted, Effective, IsSupported, Added, Dropped;
    var c := Normal(capability);
    var m := Decide(dhcp, caps, capability, enabled).caps;
    assert m == Switched(caps, c, enabled) && IsSupported(c);
    ListsHaveEffectExactly(dhcp, caps, capability, enabled);
    SwitchedIsTidy(caps, c, enabled);
    StoredIsSame(m);
    AcceptedIsDisjoint(StoredCaps(m));
    if Prefixed(c) && enabled { StaysDropped(caps, c); }
  }

  /** A prefixed name is added beside the drop it does not find. */
  lemma StaysDropped(caps: Option<Caps>, c: string)
    requires Tidy(caps) && Prefixed(c)
    ensures var m := Switched(caps, c, true); Normal(c) in Added(m) && Dropped(m) == Dropped(caps)
  {
    hide Normal, Prefixed, Names, Tidy, Switched, IsDefault;
    SwitchedNames(caps, c, true);
    PrefixedIsNowhere(caps, c);
    DefaultsAreNormal();
    assert !IsDefault(c) by { PrefixedIsNoDefault(c); }
  }

  lemma PrefixedIsNoDefault(c: string)
    requires Prefixed(c)
    ensures !IsDefault(c)
  {
    hide Prefixed, Names;
    DefaultsAreNormal();
  }

  /** Such a disable is reported and does nothing. */
  lemma DoubledPrefixDisablesNothing()
    ensures Outcome(false, None, "CAP_CAP_KILL", false) == Change(None)
    ensures "KILL" in Effective(None)
  {
    hide Normal, Names, Effective;
    DoubledPrefix();
    KillIsDefault();
    PrefixedKill();
    PrefixedIsNoDefault("CAP_KILL");
    assert Normal("KILL") == "KILL" by { DefaultIsNormal(12); }
    assert IsSupported("CAP_KILL") by { assert SUPPORTED[13] == "KILL"; }
    assert Without([], "CAP_KILL") == [];
  }

  lemma PrefixedKill()
    ensures Prefixed("CAP_KILL")
  {
    assert "CAP_KILL"[..4] == PREFIX;
  }

  lemma KillIsDefault()
    ensures "KILL" in Effective(None)
  {
    assert DEFAULTS[12] == "KILL";
  }

  lemma PrefixedIsNowhere(caps: Option<Caps>, c: string)
    requires Tidy(caps) && Prefixed(c)
    ensures c !in Added(caps) && c !in Dropped(caps)
  {
    hide Normal, Prefixed, Names;
    if caps.Some? {
      InNames(caps.value.add, c);
      InNames(caps.value.drop, c);
    }
  }

  lemma {:induction false} SupportedNames(values: seq<string>)
    ensures AllSupported(values) <==> forall x | x in Names(values) :: IsSupported(x)
  {
    hide Normal, IsSupported;
    if values != [] {
      SupportedNames(values[..|values| - 1]);
      SupportedSnoc(values, |values| - 1);
      assert values[..|values|] == values;
    }
  }

  ghost predicate SupportedSet(names: set<string>) {
    forall x | x in names :: IsSupported(x)
  }

  lemma AcceptedByNames(caps: Option<Caps>)
    ensures Accepted(caps) <==> SupportedSet(Added(caps)) && SupportedSet(Dropped(caps)) && Added(caps) !! Dropped(caps)
  {
    hide IsSupported, Names, AllSupported;
    if caps.Some? {
      SupportedNames(caps.value.add);
      SupportedNames(caps.value.drop);
    }
  }

  lemma NameIsSupported(c: string)
    requires IsSupported(c)
    ensures IsSupported(Normal(c))
  {
    hide Normal, PlainName;
    SupportedArePlain(SUPPORTED, Normal(c));
    PlainIsNormal(Normal(c));
  }

  /** The commit refuses exactly the enabling of a dropped capability by a name with a doubled prefix. */
  lemma CommitAcceptsExactly(dhcp: bool, caps: Option<Caps>, capability: string, enabled: bool)
    requires Tidy(caps) && Accepted(caps) && Decide(dhcp, caps, capability, enabled).Change?
    ensures Outcome(dhcp, caps, capability, enabled).Change?
       <==> !(Prefixed(Normal(capability)) && enabled && Normal(Normal(capability)) in Dropped(caps))
  {
    hide Normal, Prefixed, Tidy, Stored, Switched, Accepted, Effective, IsSupported, Added, Dropped, IsDefault;
    var c := Normal(capability);
    var m := Decide(dhcp, caps, capability, enabled).caps;
    assert m == Switched(caps, c, enabled) && IsSupported(c);
    SwitchedIsTidy(caps, c, enabled);
    StoredIsSame(m);
    AcceptedByNames(caps);
    AcceptedByNames(StoredCaps(m));
    SwitchedNames(caps, c, enabled);
    NameIsSupported(c);
    NormalIsIdempotentExactly(capability);
    if Prefixed(c) {
      PrefixedIsNowhere(caps, c);
      PrefixedIsNoDefault(c);
    }
  }

  /** A successful change leaves tidy lists the validation accepts: additions and drops stay disjoint. */
  lemma SwitchingKeepsDisjoint(dhcp: bool, caps: Option<Caps>, capability: string, enabled: bool)
    requires Tidy(caps) && Outcome(dhcp, caps, capability, enabled).Change?
    ensures var m := Outcome(dhcp, caps, capability, enabled).caps; Added(m) !! Dropped(m) && Tidy(m) && Accepted(m)
  {
    hide Normal, Prefixed, Tidy, Stored, Switched, Accepted, Effective, IsSupported, Added, Dropped;
    var c := Normal(capability);
    SwitchedIsTidy(caps, c, enabled);
    StoredIsSame(Switched(caps, c, enabled));
    AcceptedIsDisjoint(StoredCaps(Switched(caps, c, enabled)));
  }

  /** Setting a capability and setting it back restores the effective set. */
  lemma SettingBackRestores(dhcp: bool, caps: Option<Caps>, capability: string, enabled: bool)
    requires Tidy(caps) && Accepted(caps) && !Prefixed(Normal(capability))
    requires Decide(dhcp, caps, capability, enabled).Change?
    ensures var first := Outcome(dhcp, caps, capability, enabled);
      first.Change? && var back := Outcome(dhcp, first.caps, capability, !enabled); back.Change? && Effective(back.caps) == Effective(caps)
  {
    hide Normal, Prefixed, Names, Effective, Switched, Tidy, IsSupported, Accepted, Stored;
    var c := Normal(capability);
    NormalIsIdempotentExactly(capability);
    CommitAcceptsExactly(dhcp, caps, capability, enabled);
    SwitchingHasEffectExactly(dhcp, caps, capability, enabled);
    var m := Outcome(dhcp, caps, capability, enabled).caps;
    SwitchedIsTidy(caps, c, enabled);
    StoredIsSame(Switched(caps, c, enabled));
    CommitAcceptsExactly(dhcp, m, capability, !enabled);
    SwitchingHasEffectExactly(dhcp, m, capability, !enabled);
  }
}
