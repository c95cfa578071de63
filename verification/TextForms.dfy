/** What decimal texts are read as, which of two texts comes first, and what an address on a NAT switch looks like. */
module TextForms {
  import opened Numerals
  import opened ByteOrder
  import opened NatAllocator

  /** Digits, with or without a sign, are read as their value where that is a machine integer. */
  lemma AtoiReads(digits: bytes)
    requires digits != [] && AllDigits(digits)
    ensures var v: int := DigitsValue(digits);
      && Atoi(digits) == (if v < 0x8000_0000_0000_0000 then Some(v) else None)
      && Atoi("+" + digits) == Atoi(digits)
      && Atoi("-" + digits) == if v <= 0x8000_0000_0000_0000 then Some(-v) else None
  {
    hide DigitsValue;
    assert IsDigit(digits[0]);
    assert ("+" + digits)[1..] == digits && ("-" + digits)[1..] == digits;
  }

  /** Nothing else is read as a number. */
  lemma AtoiRefuses(s: bytes)
    requires Atoi(s).Some?
    ensures exists digits :: digits != [] && AllDigits(digits) && (s == digits || s == "+" + digits || s == "-" + digits)
  {
    hide DigitsValue;
    var digits := if s[0] == '-' || s[0] == '+' then s[1..] else s;
    assert s[0] == '-' ==> s == "-" + digits;
    assert s[0] == '+' ==> s == "+" + digits;
  }

  /** A text comes first if it begins the other, or has the lesser byte where they first differ. */
  lemma {:induction false} LessExactly(a: bytes, b: bytes)
    ensures Less(a, b) <==> (|a| < |b| && a == b[..|a|]) || exists i :: FirstDifferAt(a, b, i)
  {
    if a != [] && b != [] && a[0] == b[0] {
      LessExactly(a[1..], b[1..]);
      assert |a| < |b| ==> (a == b[..|a|] <==> a[1..] == b[1..][..|a| - 1]) by {
        if |a| < |b| && a[1..] == b[1..][..|a| - 1] { assert a == [a[0]] + a[1..] && b[..|a|] == [b[0]] + b[1..][..|a| - 1]; }
      }
      forall i | FirstDifferAt(a, b, i)
        ensures i > 0 && FirstDifferAt(a[1..], b[1..], i - 1)
      {
        assert a[1..][..i - 1] == a[..i][1..] && b[1..][..i - 1] == b[..i][1..];
      }
      forall i | FirstDifferAt(a[1..], b[1..], i)
        ensures FirstDifferAt(a, b, i + 1)
      {
        assert a[..i + 1] == [a[0]] + a[1..][..i] && b[..i + 1] == [b[0]] + b[1..][..i];
      }
      if i :| FirstDifferAt(a[1..], b[1..], i) { assert FirstDifferAt(a, b, i + 1); }
    } else if a != [] && b != [] {
      assert a[0] < b[0] ==> FirstDifferAt(a, b, 0);
      forall i | FirstDifferAt(a, b, i)
        ensures i == 0
      {
        LaterDifference(a, b, i);
      }
    }
  }

  predicate FirstDifferAt(a: bytes, b: bytes, i: int) {
    0 <= i < |a| && i < |b| && a[..i] == b[..i] && a[i] < b[i]
  }

  lemma LaterDifference(a: bytes, b: bytes, i: int)
    ensures FirstDifferAt(a, b, i) && i > 0 ==> a[0] == b[0]
  {
    if FirstDifferAt(a, b, i) && i > 0 { assert a[..i][0] == b[..i][0]; }
  }

  /** The address of an interface: a network of 172.31, a host of that network, and its mask; .2 for the DHCP service. */
  lemma AddressIs(l: NatAllocator.Lab, network: string, ct: Container, index: nat, hash: Hash, host: nat)
    requires HostOf(l.containers, OnSwitch(network), ct, index, SWITCH_SLOTS, hash) == Some(host)
    ensures SwitchAddress(l, network, ct, index, hash)
         == Some("172.31." + Itoa(16 + hash(l.id + "/" + network) % 200) + "." + Itoa(if ct.dhcp then 2 else host) + "/24")
  {
    hide HostOf, Itoa;
    assert Itoa(2) == "2" by { ItoaTwo(); }
    var prefix := "172.31." + Itoa(16 + hash(l.id + "/" + network) % 200);
    assert prefix + ".2/24" == prefix + "." + "2" + "/24";
    assert prefix + ("." + Itoa(host)) + "/24" == prefix + "." + Itoa(host) + "/24";
  }

  lemma ItoaTwo()
    ensures Itoa(2) == "2"
  {
  }
}
