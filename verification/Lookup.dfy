/** Resolving what a user typed to a node, and finding names that are still free. */
module Lookup {
  import opened Numerals
  import opened LabModel

  /** ResolveNode compares first with ids, then with names. */
  function Value(n: NodeName, byName: bool): string {
    if byName then n.name else n.id
  }

  function Matches(l: Lab, k: Kind, input: string, byName: bool, n: nat): nat
    requires n <= Count(l, k)
  {
    if n == 0 then 0
    else Matches(l, k, input, byName, n - 1) + if Value(NodeAt(l, k, n - 1), byName) == input then 1 else 0
  }

  datatype Resolution = Found(id: string) | NotFound | Ambiguous

  /** The id of the single node whose id, or else whose name, is the input. */
  function Resolve(l: Lab, k: Kind, input: string): Resolution {
    var ids := Matches(l, k, input, false, Count(l, k));
    var names := Matches(l, k, input, true, Count(l, k));
    if ids > 1 then Ambiguous
    else if ids == 1 then Found(input)
    else if names > 1 then Ambiguous
    else if names == 1 then Found(FirstNamed(l, k, input))
    else NotFound
  }

  /** Position of the first node with this name, or the number of nodes. */
  function FirstName(l: Lab, k: Kind, name: string, from: nat := 0): (i: nat)
    requires from <= Count(l, k)
    ensures from <= i <= Count(l, k)
    ensures i < Count(l, k) ==> NodeAt(l, k, i).name == name
    ensures forall j | from <= j < i :: NodeAt(l, k, j).name != name
    decreases Count(l, k) - from
  {
    if from == Count(l, k) || NodeAt(l, k, from).name == name then from else FirstName(l, k, name, from + 1)
  }

  function FirstNamed(l: Lab, k: Kind, name: string): string {
    var i := FirstName(l, k, name);
    if i < Count(l, k) then NodeAt(l, k, i).id else ""
  }

  method CollectMatches(l: Lab, k: Kind, input: string, byName: bool) returns (matches: seq<string>)
    ensures |matches| == Matches(l, k, input, byName, Count(l, k))
    ensures !byName ==> forall id | id in matches :: id == input
    ensures byName && matches != [] ==> matches[0] == FirstNamed(l, k, input)
  {
    matches := [];
    for i := 0 to Count(l, k)
      invariant |matches| == Matches(l, k, input, byName, i)
      invariant !byName ==> forall id | id in matches :: id == input
      invariant byName && matches == [] ==> forall j | 0 <= j < i :: NodeAt(l, k, j).name != input
      invariant byName && matches != [] ==> matches[0] == FirstNamed(l, k, input)
    {
      if Value(NodeAt(l, k, i), byName) == input {
        matches := matches + [NodeAt(l, k, i).id];
      }
    }
  }

  /** ResolveNode for a single kind, as every editing operation calls it. */
  method ResolveOne(l: Lab, k: Kind, input: string) returns (r: Resolution)
    ensures r == Resolve(l, k, input)
  {
    var ids := CollectMatches(l, k, input, false);
    if |ids| == 1 {
      assert ids[0] in ids;
      return Found(ids[0]);
    }
    if |ids| > 1 {
      return Ambiguous;
    }
    var names := CollectMatches(l, k, input, true);
    if |names| == 1 {
      return Found(names[0]);
    }
    if |names| > 1 {
      return Ambiguous;
    }
    return NotFound;
  }

  /** LabVM, LabContainer, ...: the first node whose id or name is the text. */
  function FirstMatch(l: Lab, k: Kind, text: string, from: nat := 0): (i: nat)
    requires from <= Count(l, k)
    ensures from <= i <= Count(l, k)
    ensures i < Count(l, k) ==> NodeAt(l, k, i).id == text || NodeAt(l, k, i).name == text
    ensures forall j | from <= j < i :: NodeAt(l, k, j).id != text && NodeAt(l, k, j).name != text
    decreases Count(l, k) - from
  {
    if from == Count(l, k) || NodeAt(l, k, from).id == text || NodeAt(l, k, from).name == text then from
    else FirstMatch(l, k, text, from + 1)
  }

  predicate Answers(n: NodeName, text: string) {
    n.id == text || n.name == text
  }

  /** In a valid lab at most one node answers to a non-empty text. */
  lemma OneAnswers(l: Lab, k: Kind, text: string, i: nat, j: nat)
    requires IdentityOk(l) && text != "" && i < Count(l, k) && j < Count(l, k)
    requires Answers(NodeAt(l, k, i), text) && Answers(NodeAt(l, k, j), text)
    ensures i == j
  {
    if i != j {
      var a, b := NodeAt(l, k, i), NodeAt(l, k, j);
      assert RefersTo(a, Fold(text)) && RefersTo(b, Fold(text));
      assert Clash(a, b);
      assert false;
    }
  }

  lemma {:induction false} NoMatch(l: Lab, k: Kind, text: string, byName: bool, n: nat)
    requires n <= Count(l, k) && forall i | 0 <= i < n :: Value(NodeAt(l, k, i), byName) != text
    ensures Matches(l, k, text, byName, n) == 0
  {
    if n > 0 { NoMatch(l, k, text, byName, n - 1); }
  }

  lemma {:induction false} OneMatch(l: Lab, k: Kind, text: string, byName: bool, n: nat, i: nat)
    requires i < n <= Count(l, k) && Value(NodeAt(l, k, i), byName) == text
    requires forall j | 0 <= j < n && j != i :: Value(NodeAt(l, k, j), byName) != text
    ensures Matches(l, k, text, byName, n) == 1
  {
    if i == n - 1 { NoMatch(l, k, text, byName, n - 1); } else { OneMatch(l, k, text, byName, n - 1, i); }
  }

  /**
   On a valid lab and a non-empty text resolution is never ambiguous, and it finds exactly the node
   the first-match lookups find.
   */
  lemma ResolveAgreesWithFirstMatch(l: Lab, k: Kind, text: string)
    requires IdentityOk(l) && text != ""
    ensures var i := FirstMatch(l, k, text);
      Resolve(l, k, text) == if i < Count(l, k) then Found(NodeAt(l, k, i).id) else NotFound
  {
    hide IdentityOk;
    var i := FirstMatch(l, k, text);
    var n := Count(l, k);
    if i == n {
      NoMatch(l, k, text, false, n);
      NoMatch(l, k, text, true, n);
    } else {
      OthersDoNotAnswer(l, k, text, i);
      if NodeAt(l, k, i).id == text {
        OneMatch(l, k, text, false, n, i);
      } else {
        NoMatch(l, k, text, false, n);
        OneMatch(l, k, text, true, n, i);
      }
    }
  }

  lemma OthersDoNotAnswer(l: Lab, k: Kind, text: string, i: nat)
    requires IdentityOk(l) && text != "" && i < Count(l, k) && Answers(NodeAt(l, k, i), text)
    ensures forall j | 0 <= j < Count(l, k) && j != i :: NodeAt(l, k, j).id != text && NodeAt(l, k, j).name != text
  {
    forall j | 0 <= j < Count(l, k) && j != i
      ensures !Answers(NodeAt(l, k, j), text)
    {
      if Answers(NodeAt(l, k, j), text) { OneAnswers(l, k, text, i, j); }
    }
  }

  /** The empty text is the exception: it matches every unnamed node, so two of them make it ambiguous. */
  lemma EmptyTextMatchesUnnamed(l: Lab, k: Kind)
    requires IdentityOk(l)
    ensures Resolve(l, k, "") == var unnamed := Matches(l, k, "", true, Count(l, k));
      if unnamed == 0 then NotFound else if unnamed == 1 then Found(FirstNamed(l, k, "")) else Ambiguous
  {
    forall i | 0 <= i < Count(l, k)
      ensures NodeAt(l, k, i).id != ""
    {
      assert NameOk(NodeAt(l, k, i));
    }
    NoMatch(l, k, "", false, Count(l, k));
  }

  // ---------------------------------------------------------------- several kinds at once

  datatype Candidate = Candidate(kind: Kind, node: NodeName)

  /** What ResolveNode answers when any of several kinds will do. */
  datatype Reference = Node(kind: Kind, id: string) | Nobody | Several

  function NodesOf(l: Lab, k: Kind, n: nat): seq<Candidate>
    requires n <= Count(l, k)
  {
    if n == 0 then [] else NodesOf(l, k, n - 1) + [Candidate(k, NodeAt(l, k, n - 1))]
  }

  /** No kind named means all of them. */
  predicate Allowed(kinds: set<Kind>, k: Kind) {
    kinds == {} || k in kinds
  }

  function CandidatesOf(l: Lab, kinds: set<Kind>, k: Kind): seq<Candidate> {
    if Allowed(kinds, k) then NodesOf(l, k, Count(l, k)) else []
  }

  function Candidates(l: Lab, kinds: set<Kind>): seq<Candidate> {
    CandidatesOf(l, kinds, VM) + CandidatesOf(l, kinds, CT) + CandidatesOf(l, kinds, SW) + CandidatesOf(l, kinds, UP)
  }

  function Hits(candidates: seq<Candidate>, input: string, byName: bool): seq<Candidate> {
    if candidates == [] then []
    else
      var last := candidates[|candidates| - 1];
      Hits(candidates[..|candidates| - 1], input, byName) + if Value(last.node, byName) == input then [last] else []
  }

  function ResolveAmong(l: Lab, kinds: set<Kind>, input: string): Reference {
    var ids := Hits(Candidates(l, kinds), input, false);
    var names := Hits(Candidates(l, kinds), input, true);
    if |ids| == 1 then Node(ids[0].kind, ids[0].node.id)
    else if |ids| > 1 then Several
    else if |names| == 1 then Node(names[0].kind, names[0].node.id)
    else if |names| > 1 then Several
    else Nobody
  }

  method AppendCandidates(l: Lab, kinds: set<Kind>, k: Kind, candidates: seq<Candidate>) returns (out: seq<Candidate>)
    ensures out == candidates + CandidatesOf(l, kinds, k)
  {
    out := candidates;
    for i := 0 to Count(l, k)
      invariant out == candidates + if Allowed(kinds, k) then NodesOf(l, k, i) else []
    {
      if Allowed(kinds, k) {
        out := out + [Candidate(k, NodeAt(l, k, i))];
      }
    }
  }

  method FindHits(candidates: seq<Candidate>, input: string, byName: bool) returns (hits: seq<Candidate>)
    ensures hits == Hits(candidates, input, byName)
  {
    hits := [];
    for i := 0 to |candidates|
      invariant hits == Hits(candidates[..i], input, byName)
    {
      assert candidates[..i + 1][..i] == candidates[..i];
      if Value(candidates[i].node, byName) == input {
        hits := hits + [candidates[i]];
      }
    }
    assert candidates[..|candidates|] == candidates;
  }

  /** ResolveNode: candidates of every allowed kind, compared first by id and then by name. */
  method ResolveNode(l: Lab, input: string, kinds: set<Kind>) returns (r: Reference)
    ensures r == ResolveAmong(l, kinds, input)
  {
    var candidates := AppendCandidates(l, kinds, VM, []);
    candidates := AppendCandidates(l, kinds, CT, candidates);
    candidates := AppendCandidates(l, kinds, SW, candidates);
    candidates := AppendCandidates(l, kinds, UP, candidates);
    assert candidates == Candidates(l, kinds);
    var ids := FindHits(candidates, input, false);
    if |ids| == 1 {
      return Node(ids[0].kind, ids[0].node.id);
    }
    if |ids| > 1 {
      return Several;
    }
    var names := FindHits(candidates, input, true);
    if |names| == 1 {
      return Node(names[0].kind, names[0].node.id);
    }
    if |names| > 1 {
      return Several;
    }
    return Nobody;
  }

  lemma {:induction false} HitsConcat(a: seq<Candidate>, b: seq<Candidate>, input: string, byName: bool)
    ensures Hits(a + b, input, byName) == Hits(a, input, byName) + Hits(b, input, byName)
  {
    if b == [] {
      assert a + b == a;
    } else {
      HitsConcat(a, b[..|b| - 1], input, byName);
      assert (a + b)[..|a + b| - 1] == a + b[..|b| - 1];
    }
  }

  lemma NoHits(input: string, byName: bool)
    ensures Hits([], input, byName) == []
  {
  }

  lemma HitsOneMore(candidates: seq<Candidate>, c: Candidate, input: string, byName: bool)
    ensures Hits(candidates + [c], input, byName) == Hits(candidates, input, byName) + if Value(c.node, byName) == input then [c] else []
  {
    assert (candidates + [c])[..|candidates|] == candidates;
  }

  lemma {:induction false} HitsOfKind(l: Lab, k: Kind, input: string, byName: bool, n: nat)
    requires n <= Count(l, k)
    ensures var hits := Hits(NodesOf(l, k, n), input, byName);
      && |hits| == Matches(l, k, input, byName, n)
      && forall c | c in hits :: c.kind == k && exists i :: 0 <= i < n && NodeAt(l, k, i) == c.node && Value(c.node, byName) == input
  {
    hide Hits;
    NoHits(input, byName);
    if n > 0 {
      HitsOfKind(l, k, input, byName, n - 1);
      HitsOneMore(NodesOf(l, k, n - 1), Candidate(k, NodeAt(l, k, n - 1)), input, byName);
    }
  }

  lemma {:induction false} FirstHit(l: Lab, k: Kind, input: string, n: nat)
    requires n <= Count(l, k)
    ensures var hits := Hits(NodesOf(l, k, n), input, true);
      if hits == [] then forall i | 0 <= i < n :: NodeAt(l, k, i).name != input
      else FirstName(l, k, input) < n && hits[0] == Candidate(k, NodeAt(l, k, FirstName(l, k, input)))
  {
    hide Hits;
    NoHits(input, true);
    if n > 0 {
      FirstHit(l, k, input, n - 1);
      HitsOneMore(NodesOf(l, k, n - 1), Candidate(k, NodeAt(l, k, n - 1)), input, true);
    }
  }

  /** Resolution within one kind is this resolution with that kind alone allowed. */
  lemma OneKindIsResolve(l: Lab, k: Kind, input: string)
    ensures ResolveAmong(l, {k}, input) ==
      match Resolve(l, k, input) case Found(id) => Node(k, id) case NotFound => Nobody case Ambiguous => Several
  {
    hide Hits, Matches;
    var n := Count(l, k);
    assert Candidates(l, {k}) == NodesOf(l, k, n);
    HitsOfKind(l, k, input, false, n);
    HitsOfKind(l, k, input, true, n);
    FirstHit(l, k, input, n);
    var ids := Hits(NodesOf(l, k, n), input, false);
    if ids != [] { assert ids[0] in ids; }
    assert Hits(NodesOf(l, k, n), input, true) != [] ==> Hits(NodesOf(l, k, n), input, true)[0].kind == k;
  }

  /** The single node of an allowed kind that answers to a text. */
  ghost predicate IsAnswer(l: Lab, kinds: set<Kind>, input: string, k: Kind, i: nat) {
    Allowed(kinds, k) && i < Count(l, k) && Answers(NodeAt(l, k, i), input)
  }

  lemma AnswersAreOne(l: Lab, kinds: set<Kind>, input: string, j: Kind, h: nat, k: Kind, i: nat)
    requires IdentityOk(l) && input != "" && IsAnswer(l, kinds, input, j, h) && IsAnswer(l, kinds, input, k, i)
    ensures j == k && h == i
  {
    var a, b := NodeAt(l, j, h), NodeAt(l, k, i);
    assert RefersTo(a, Fold(input)) && RefersTo(b, Fold(input));
    assert Clash(a, b);
  }

  lemma KindHits(l: Lab, kinds: set<Kind>, k: Kind, input: string, byName: bool)
    requires IdentityOk(l) && input != ""
    ensures var hits := Hits(CandidatesOf(l, kinds, k), input, byName);
      && |hits| <= 1
      && (forall c | c in hits :: c.kind == k && exists i: nat :: IsAnswer(l, kinds, input, k, i) && NodeAt(l, k, i) == c.node && Value(c.node, byName) == input)
      && (hits == [] ==> forall i: nat | IsAnswer(l, kinds, input, k, i) :: Value(NodeAt(l, k, i), byName) != input)
  {
    hide IdentityOk;
    var n := Count(l, k);
    HitsOfKind(l, k, input, byName, n);
    if i :| 0 <= i < n && Value(NodeAt(l, k, i), byName) == input {
      assert Answers(NodeAt(l, k, i), input);
      OthersDoNotAnswer(l, k, input, i);
      OneMatch(l, k, input, byName, n, i);
    } else {
      NoMatch(l, k, input, byName, n);
    }
  }

  /** Over all the allowed kinds there is at most one hit, and none means that nothing answers this way. */
  lemma HitsAmong(l: Lab, kinds: set<Kind>, input: string, byName: bool)
    requires IdentityOk(l) && input != ""
    ensures var hits := Hits(Candidates(l, kinds), input, byName);
      && |hits| <= 1
      && (forall c | c in hits :: exists i: nat :: IsAnswer(l, kinds, input, c.kind, i) && NodeAt(l, c.kind, i) == c.node)
      && (hits == [] ==> forall k: Kind, i: nat | IsAnswer(l, kinds, input, k, i) :: Value(NodeAt(l, k, i), byName) != input)
  {
    hide IdentityOk, Hits, CandidatesOf, Value, Answers;
    var vms, cts, sws, ups := CandidatesOf(l, kinds, VM), CandidatesOf(l, kinds, CT), CandidatesOf(l, kinds, SW), CandidatesOf(l, kinds, UP);
    HitsConcat(vms + cts + sws, ups, input, byName);
    HitsConcat(vms + cts, sws, input, byName);
    HitsConcat(vms, cts, input, byName);
    forall k: Kind { KindHits(l, kinds, k, input, byName); }
    forall j: Kind, k: Kind | j != k
      ensures Hits(CandidatesOf(l, kinds, j), input, byName) == [] || Hits(CandidatesOf(l, kinds, k), input, byName) == []
    {
      KindsDoNotShare(l, kinds, j, k, input, byName);
    }
  }

  lemma KindsDoNotShare(l: Lab, kinds: set<Kind>, j: Kind, k: Kind, input: string, byName: bool)
    requires IdentityOk(l) && input != "" && j != k
    ensures Hits(CandidatesOf(l, kinds, j), input, byName) == [] || Hits(CandidatesOf(l, kinds, k), input, byName) == []
  {
    hide IdentityOk, Hits, CandidatesOf, Value, Answers;
    var a, b := Hits(CandidatesOf(l, kinds, j), input, byName), Hits(CandidatesOf(l, kinds, k), input, byName);
    KindHits(l, kinds, j, input, byName);
    KindHits(l, kinds, k, input, byName);
    if a != [] && b != [] {
      assert a[0] in a && b[0] in b;
      var h: nat :| IsAnswer(l, kinds, input, j, h) && NodeAt(l, j, h) == a[0].node;
      var i: nat :| IsAnswer(l, kinds, input, k, i) && NodeAt(l, k, i) == b[0].node;
      AnswersAreOne(l, kinds, input, j, h, k, i);
    }
  }

  /** On a valid lab and a non-empty text the answer is never ambiguous: it is the one node that answers, of whatever allowed kind. */
  lemma AmongIsNeverAmbiguous(l: Lab, kinds: set<Kind>, input: string)
    requires IdentityOk(l) && input != ""
    ensures var r := ResolveAmong(l, kinds, input);
      && r != Several
      && (r.Nobody? <==> forall k: Kind, i: nat :: !IsAnswer(l, kinds, input, k, i))
      && forall k: Kind, i: nat | IsAnswer(l, kinds, input, k, i) :: r == Node(k, NodeAt(l, k, i).id)
  {
    hide IdentityOk, Hits, Candidates;
    HitsAmong(l, kinds, input, false);
    HitsAmong(l, kinds, input, true);
    var r := ResolveAmong(l, kinds, input);
    var ids, names := Hits(Candidates(l, kinds), input, false), Hits(Candidates(l, kinds), input, true);
    var hits := if ids != [] then ids else names;
    if hits != [] {
      assert hits[0] in hits;
      var h: nat :| IsAnswer(l, kinds, input, hits[0].kind, h) && NodeAt(l, hits[0].kind, h) == hits[0].node;
      forall k: Kind, i: nat | IsAnswer(l, kinds, input, k, i)
        ensures r == Node(k, NodeAt(l, k, i).id)
      {
        AnswersAreOne(l, kinds, input, hits[0].kind, h, k, i);
      }
    }
  }

  lemma ResolvedNodeExists(l: Lab, k: Kind, text: string)
    requires Resolve(l, k, text).Found?
    ensures Has(l, k, Resolve(l, k, text).id)
  {
    var n := Count(l, k);
    if Find(l, k, text) == n { NoMatch(l, k, text, false, n); }
    if FirstName(l, k, text) == n { NoMatch(l, k, text, true, n); }
  }

  // ---------------------------------------------------------------- free names

  /** nodeMatchesRef: equal up to case to the id or to a non-empty name. */
  predicate MatchesRef(n: NodeName, ref: string) {
    EqualFold(n.id, ref) || (n.name != "" && EqualFold(n.name, ref))
  }

  predicate NameTaken(l: Lab, ref: string, selfId: string) {
    exists k: Kind, i: nat | i < Count(l, k) :: NodeAt(l, k, i).id != selfId && MatchesRef(NodeAt(l, k, i), ref)
  }

  function FoldedOf(n: NodeName): set<string> {
    {Fold(n.id), Fold(n.name)}
  }

  function FoldedUpTo(l: Lab, k: Kind, n: nat): (s: set<string>)
    requires n <= Count(l, k)
    ensures |s| <= 2 * n
    ensures forall i | 0 <= i < n :: Fold(NodeAt(l, k, i).id) in s && Fold(NodeAt(l, k, i).name) in s
  {
    if n == 0 then {} else FoldedUpTo(l, k, n - 1) + FoldedOf(NodeAt(l, k, n - 1))
  }

  function NodeCount(l: Lab): nat {
    |l.vms| + |l.containers| + |l.switches| + |l.uplinks|
  }

  /** Everything a new name could collide with, up to case. */
  function AllFolded(l: Lab): (s: set<string>)
    ensures |s| <= 2 * NodeCount(l)
    ensures forall k: Kind, i: nat | i < Count(l, k) ::
      Fold(NodeAt(l, k, i).id) in s && Fold(NodeAt(l, k, i).name) in s
  {
    FoldedUpTo(l, VM, |l.vms|) + FoldedUpTo(l, CT, |l.containers|)
    + FoldedUpTo(l, SW, |l.switches|) + FoldedUpTo(l, UP, |l.uplinks|)
  }

  function Numbered(prefix: string, i: nat): string {
    prefix + "-" + Itoa(i)
  }

  lemma FoldOfNumbered(prefix: string, i: nat)
    ensures Fold(Numbered(prefix, i)) == Fold(prefix + "-") + Itoa(i)
  {
    assert Numbered(prefix, i) == (prefix + "-") + Itoa(i);
    assert forall x | 0 <= x < |Itoa(i)| :: FoldChar(Itoa(i)[x]) == Itoa(i)[x];
  }

  lemma NumberedFoldsApart(prefix: string, i: nat, j: nat)
    requires Fold(Numbered(prefix, i)) == Fold(Numbered(prefix, j))
    ensures i == j
  {
    hide Fold, Numbered;
    FoldOfNumbered(prefix, i);
    FoldOfNumbered(prefix, j);
    var head := Fold(prefix + "-");
    assert (head + Itoa(i))[|head|..] == Itoa(i) && (head + Itoa(j))[|head|..] == Itoa(j);
    ItoaInjective(i, j);
  }

  /** The folded candidates tried so far: pairwise different, each one taken. */
  ghost predicate Tried(l: Lab, prefix: string, i: nat, tried: set<string>) {
    && i >= 1 && |tried| == i - 1 && tried <= AllFolded(l)
    && forall f | f in tried :: exists j: nat :: 1 <= j < i && f == Fold(Numbered(prefix, j))
  }

  lemma TriedOneMore(l: Lab, prefix: string, i: nat, tried: set<string>)
    requires Tried(l, prefix, i, tried) && NameTaken(l, Numbered(prefix, i), "")
    ensures Tried(l, prefix, i + 1, tried + {Fold(Numbered(prefix, i))})
  {
    hide NameTaken, AllFolded, Numbered, Fold;
    var f := Fold(Numbered(prefix, i));
    TakenIsFolded(l, Numbered(prefix, i));
    if f in tried {
      var j: nat :| 1 <= j < i && f == Fold(Numbered(prefix, j));
      NumberedFoldsApart(prefix, i, j);
      assert false;
    }
  }

  lemma TriedIsBounded(l: Lab, prefix: string, i: nat, tried: set<string>)
    requires Tried(l, prefix, i, tried)
    ensures i <= 2 * NodeCount(l) + 1
  {
    SubsetCount(tried, AllFolded(l));
  }

  /** nextNodeName counts upwards without a bound; it stops within 2n+1 tries, at the least free number. */
  method NextNodeName(l: Lab, prefix: string) returns (name: string, i: nat)
    ensures name == Numbered(prefix, i) && !NameTaken(l, name, "")
    ensures 1 <= i <= 2 * NodeCount(l) + 1
    ensures forall j | 1 <= j < i :: NameTaken(l, Numbered(prefix, j), "")
  {
    hide NameTaken, Tried, Numbered;
    i := 1;
    ghost var tried: set<string> := {};
    NothingTried(l, prefix);
    while NameTaken(l, Numbered(prefix, i), "")
      invariant i >= 1 && Tried(l, prefix, i, tried)
      invariant forall j | 1 <= j < i :: NameTaken(l, Numbered(prefix, j), "")
      decreases 2 * NodeCount(l) + 2 - i
    {
      TriedIsBounded(l, prefix, i, tried);
      TriedOneMore(l, prefix, i, tried);
      tried := tried + {Fold(Numbered(prefix, i))};
      i := i + 1;
    }
    TriedIsBounded(l, prefix, i, tried);
    name := Numbered(prefix, i);
  }

  lemma NothingTried(l: Lab, prefix: string)
    ensures Tried(l, prefix, 1, {})
  {
  }

  lemma TakenIsFolded(l: Lab, ref: string)
    requires NameTaken(l, ref, "")
    ensures Fold(ref) in AllFolded(l)
  {
    var k: Kind, i: nat :| i < Count(l, k) && NodeAt(l, k, i).id != "" && MatchesRef(NodeAt(l, k, i), ref);
  }

  lemma SubsetCount(a: set<string>, b: set<string>)
    requires a <= b
    ensures |a| <= |b|
  {
    assert b == a + (b - a);
  }
}
