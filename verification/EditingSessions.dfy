/** Editing operations inside a session: the lab in memory, and the rules its commit checks. */
module EditingSessions {
  import opened Numerals
  import opened LabModel
  import opened Snapshots
  import opened Transactions
  import Editing
  import Validation

  /**
   The edited memory, as saving normalises it and loading leaves it, says what the operation computes from what memory
   said before; the rules for the fields no operation of this model touches hold of it.
   */
  predicate Performs(before: LabVal, edited: LabVal, op: Editing.Op, format: Format)
    requires Editing.OpOk(op)
  {
    var after, stored := Editing.Apply(LabOf(before), op, format.resolve), format.normal(edited);
    after.Some? && LabOf(stored) == after.value && stored.id == before.id && format.others(stored) && format.normal(stored) == stored
  }

  /** The commit of the operation will be rejected. */
  predicate Rejected(before: LabVal, op: Editing.Op, format: Format)
    requires Editing.OpOk(op)
  {
    var l, naming := LabOf(before), format.NamingOf(before);
    Editing.StrandsDhcp(l, op) || Editing.TakesBridge(naming, l, op) || Editing.HashesMeetAfter(naming, l, op, format.resolve)
  }

  /** In a session, too, the validation of a commit turns down exactly the three families of operations. */
  lemma CommitRejectsExactly(before: LabVal, edited: LabVal, op: Editing.Op, format: Format)
    requires Editing.OpOk(op) && PathsOk(format.resolve) && format.Accepts(before) && Performs(before, edited, op, format)
    ensures format.Accepts(format.normal(edited)) <==> !Rejected(before, op, format)
  {
    hide Validation.Accepted, PathsOk, LabOf, Editing.Apply, Editing.StrandsDhcp, Editing.TakesBridge, Editing.HashesMeetAfter;
    Editing.CommitRejectsExactly(format.NamingOf(before), LabOf(before), op, format.resolve);
  }

  /**
   A session that carries out an operation: it succeeds exactly if the save and the load do and the commit is not
   rejected, and then memory holds what the operation computes. Otherwise memory is as it was.
   */
  method Perform(session: Session, script: seq<Edit>, op: Editing.Op, format: Format, io: Io) returns (ok: bool, ghost edited: LabVal)
    requires session.current.Valid() && session !in session.current.Repr && format.Accepts(session.current.Val())
    requires Editing.OpOk(op) && PathsOk(format.resolve)
    modifies session, session.current.Repr
    ensures session.current.Valid() && session !in session.current.Repr
    ensures !ok ==> session.current.Val() == old(session.current.Val())
    ensures AllDefinite(script) ==> edited == WrittenAll(old(session.current.Val()), script)
    ensures Performs(old(session.current.Val()), edited, op, format) ==>
      && (ok <==> io.saves && io.loads && !Rejected(old(session.current.Val()), op, format))
      && (ok ==> Some(LabOf(session.current.Val())) == Editing.Apply(LabOf(old(session.current.Val())), op, format.resolve))
  {
    hide Validation.Accepted, PathsOk, LabOf, LabObject.Valid, LabObject.Val, Format.Accepts, Editing.Apply, Rejected, WrittenAll;
    ghost var before := session.current.Val();
    ok, edited := session.Mutate(script, false, format, io);
    if Performs(before, edited, op, format) {
      CommitRejectsExactly(before, edited, op, format);
    }
  }

  // ---------------------------------------------------------------- scripts that perform an operation

  /** Writing positions one by one, in any order. */
  ghost function Places(positions: map<string, Position>): seq<Edit>
    decreases |positions|
  {
    if positions == map[] then []
    else
      var id :| id in positions;
      Places(positions - {id}) + [Place(id, positions[id])]
  }

  function Emptied(v: LabVal): LabVal {
    v.(maps := v.maps.(positions := Some(map[])))
  }

  lemma PlacesSplit(positions: map<string, Position>) returns (id: string)
    requires positions != map[]
    ensures id in positions && Places(positions) == Places(positions - {id}) + [Place(id, positions[id])]
  {
    var script := Places(positions);
    id := script[|script| - 1].id;
  }

  lemma WrittenSnoc(v: LabVal, script: seq<Edit>, e: Edit)
    requires AllDefinite(script) && Definite(e)
    ensures AllDefinite(script + [e]) && WrittenAll(v, script + [e]) == Written(WrittenAll(v, script), e)
  {
    hide Written;
    assert (script + [e])[..|script|] == script;
  }

  lemma NothingWritten(v: LabVal)
    ensures AllDefinite([]) && WrittenAll(v, []) == v
  {
  }

  lemma {:induction false} PlacesWrite(v: LabVal, positions: map<string, Position>)
    ensures AllDefinite(Places(positions))
    ensures WrittenAll(Emptied(v), Places(positions)) == v.(maps := v.maps.(positions := Some(positions)))
    decreases |positions|
  {
    hide AllDefinite, WrittenAll;
    NothingWritten(Emptied(v));
    if positions != map[] {
      hide Places;
      var id := PlacesSplit(positions);
      var rest := positions - {id};
      PlacesWrite(v, rest);
      WrittenSnoc(Emptied(v), Places(rest), Place(id, positions[id]));
      assert rest[id := positions[id]] == positions;
    }
  }

  lemma {:induction false} WrittenConcat(v: LabVal, a: seq<Edit>, b: seq<Edit>)
    requires AllDefinite(a) && AllDefinite(b)
    ensures AllDefinite(a + b) && WrittenAll(v, a + b) == WrittenAll(WrittenAll(v, a), b)
  {
    hide Written;
    if b == [] {
      assert a + b == a;
    } else {
      WrittenConcat(v, a, b[..|b| - 1]);
      assert (a + b)[..|a + b| - 1] == a + b[..|b| - 1];
    }
  }

  /** New lists of nodes, every other list replaced, new positions filled in. */
  ghost function Rewrite(t: LabVal): seq<Edit>
    requires t.maps.positions.Some?
  {
    Replacing(t) + Places(t.maps.positions.value)
  }

  function Replacing(t: LabVal): seq<Edit> {
    [ NewNodes(t.nodes), Uplinks(Replace(t.flat.uplinks)), Links(Replace(t.flat.links)), Disks(Replace(t.flat.disks)),
      LayoutLinks(Replace(t.flat.layoutLinks)), NewPositions ]
  }

  lemma ReplacingWrites(v: LabVal, t: LabVal)
    requires t.id == v.id && t.maps.meta == v.maps.meta
    ensures AllDefinite(Replacing(t)) && WrittenAll(v, Replacing(t)) == Emptied(t)
  {
    hide AllDefinite, WrittenAll;
    var s1 := [] + [NewNodes(t.nodes)];
    var s2 := s1 + [Uplinks(Replace(t.flat.uplinks))];
    var s3 := s2 + [Links(Replace(t.flat.links))];
    var s4 := s3 + [Disks(Replace(t.flat.disks))];
    var s5 := s4 + [LayoutLinks(Replace(t.flat.layoutLinks))];
    NothingWritten(v);
    WrittenSnoc(v, [], NewNodes(t.nodes));
    WrittenSnoc(v, s1, Uplinks(Replace(t.flat.uplinks)));
    WrittenSnoc(v, s2, Links(Replace(t.flat.links)));
    WrittenSnoc(v, s3, Disks(Replace(t.flat.disks)));
    WrittenSnoc(v, s4, LayoutLinks(Replace(t.flat.layoutLinks)));
    WrittenSnoc(v, s5, NewPositions);
    assert Replacing(t) == s5 + [NewPositions];
  }

  /** From any value every other one with the same name and remarks is reached by a script whose effect is definite. */
  lemma EveryValueHasScript(v: LabVal, t: LabVal)
    requires t.id == v.id && t.maps.meta == v.maps.meta && t.maps.positions.Some?
    ensures AllDefinite(Rewrite(t)) && WrittenAll(v, Rewrite(t)) == t
  {
    hide Written, WrittenAll, AllDefinite;
    ReplacingWrites(v, t);
    PlacesWrite(t, t.maps.positions.value);
    WrittenConcat(v, Replacing(t), Places(t.maps.positions.value));
    assert t.(maps := t.maps.(positions := Some(t.maps.positions.value))) == t;
  }

  // ---------------------------------------------------------------- the values an operation leaves

  function FieldsOf(w: Workload): Scalars {
    Scalars(w.id, w.name, w.service, w.disk, "")
  }

  /** A value that says what a lab says, with the remaining fields of nodes empty. */
  function ValueOf(v: LabVal, l: Lab): LabVal {
    LabVal(v.id,
           NodesVal(seq(|l.vms|, i requires 0 <= i < |l.vms| => VmVal(FieldsOf(l.vms[i]), l.vms[i].nics)),
                    seq(|l.containers|, i requires 0 <= i < |l.containers| => CtVal(FieldsOf(l.containers[i]), [], None, None, l.containers[i].nics)),
                    seq(|l.switches|, i requires 0 <= i < |l.switches| =>
                          SwVal(Scalars(l.switches[i].id, l.switches[i].name, "", "", ""), l.switches[i].mode, l.switches[i].uplink, l.switches[i].uplinks))),
           FlatVal(l.uplinks, l.links, l.disks, l.layoutLinks), MapsVal(Some(l.positions), v.maps.meta))
  }

  lemma ValueSays(v: LabVal, l: Lab)
    ensures LabOf(ValueOf(v, l)) == l
  {
    var t := LabOf(ValueOf(v, l));
    assert t.vms == l.vms && t.containers == l.containers && t.switches == l.switches;
  }

  /**
   Every operation has a script that performs it, for every way of filling in the remaining fields that can be stored
   as it is.
   */
  lemma OperationHasScript(before: LabVal, op: Editing.Op, format: Format, t: LabVal)
    requires Editing.OpOk(op) && Editing.Apply(LabOf(before), op, format.resolve) == Some(LabOf(t))
    requires t.id == before.id && t.maps.meta == before.maps.meta && t.maps.positions.Some?
    requires format.normal(t) == t && format.others(t)
    ensures exists script :: AllDefinite(script) && Performs(before, WrittenAll(before, script), op, format)
  {
    hide LabOf, Editing.Apply, AllDefinite, WrittenAll;
    EveryValueHasScript(before, t);
  }

  /** There is such a filling where the remaining fields may be empty and nothing is left to normalise. */
  lemma PlainFormatPerforms(before: LabVal, op: Editing.Op, format: Format)
    requires Editing.OpOk(op) && Editing.Apply(LabOf(before), op, format.resolve).Some?
    requires forall v :: format.normal(v) == v && format.others(v)
    ensures exists script :: AllDefinite(script) && Performs(before, WrittenAll(before, script), op, format)
  {
    hide LabOf, Editing.Apply, AllDefinite, WrittenAll;
    var after := Editing.Apply(LabOf(before), op, format.resolve).value;
    ValueSays(before, after);
    OperationHasScript(before, op, format, ValueOf(before, after));
  }
}
