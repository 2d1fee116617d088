/**
 Concurrent CREATEs. The sharing check and the allocation of the handle are two locked sections of the
 handle map, and other requests run between them.
 */
module OpenRace {
  import opened HandleMap

  /** An open that has passed the check when `horizon` was the next handle number. */
  datatype Checked = Checked(open: OpenFile, horizon: nat)

  datatype State = State(table: Table, checked: seq<Checked>)

  datatype Event =
    | Check(open: OpenFile)
    | Allocate(request: nat)
    | Release(id: FileId)
    | ReleaseMany(filter: Filter)

  const NOTHING_OPEN := State(EMPTY_TABLE, [])

  /** The handle that a checked open is about to get. */
  function Handle(t: Table, c: Checked): OpenFile {
    c.open.(id := NextId(t, c.open.id.persistent))
  }

  /** One step; an event that the state does not offer changes nothing. */
  function Step(s: State, e: Event): State {
    match e
    case Check(o) =>
      if ShareAllowed(s.table, o.path, o.access, o.share)
      then s.(checked := s.checked + [Checked(o, s.table.nextHandle)])
      else s
    case Allocate(k) =>
      if k < |s.checked|
      then State(Allocated(s.table, Handle(s.table, s.checked[k])), s.checked[..k] + s.checked[k + 1..])
      else s
    case Release(id) => s.(table := Released(s.table, id))
    case ReleaseMany(filter) => s.(table := Dropped(s.table, filter))
  }

  function Run(s: State, es: seq<Event>): State
    decreases |es|
  {
    if es == [] then s else Run(Step(s, es[0]), es[1..])
  }

  // ---- What a check is worth later ----

  /** The open is compatible with every handle on its path that was there when it was checked. */
  ghost predicate StillGood(t: Table, c: Checked) {
    c.horizon <= t.nextHandle &&
    forall id :: id in t.handles && id.volatile < c.horizon && t.handles[id].path == c.open.path ==>
      Compatible(c.open, t.handles[id])
  }

  /** A handle on the path that is not compatible has come in since the check. */
  ghost predicate Overtaken(t: Table, c: Checked) {
    exists id :: id in t.handles && c.horizon <= id.volatile && t.handles[id].path == c.open.path
                 && !Compatible(c.open, t.handles[id])
  }

  ghost predicate Invariant(s: State) {
    && Indexed(s.table)
    && (forall k :: 0 <= k < |s.checked| ==> StillGood(s.table, s.checked[k]))
  }

  lemma CheckedIsGood(t: Table, o: OpenFile)
    requires Indexed(t) && ShareAllowed(t, o.path, o.access, o.share)
    ensures StillGood(t, Checked(o, t.nextHandle))
  {
    hide Permits;
    ShareAllowedIff(t, o.path, o.access, o.share);
  }

  lemma AllocatedStaysGood(t: Table, o: OpenFile, c: Checked)
    requires StillGood(t, c) && o.id.volatile == t.nextHandle
    ensures StillGood(Allocated(t, o), c)
  {
    hide Compatible;
  }

  /** Fewer handles leave a checked open as good as it was. */
  lemma FewerStaysGood(t: Table, t': Table, c: Checked)
    requires StillGood(t, c) && t'.nextHandle == t.nextHandle
    requires forall id :: id in t'.handles ==> id in t.handles && t'.handles[id] == t.handles[id]
    ensures StillGood(t', c)
  {
    hide Compatible;
  }

  lemma AllocateKeeps(s: State, k: nat)
    requires Invariant(s) && k < |s.checked|
    ensures Invariant(Step(s, Allocate(k)))
  {
    hide Indexed, StillGood;
    var o, s' := Handle(s.table, s.checked[k]), Step(s, Allocate(k));
    AllocatedIndexed(s.table, o);
    forall j | 0 <= j < |s'.checked|
      ensures StillGood(s'.table, s'.checked[j])
    {
      assert s'.checked[j] == s.checked[if j < k then j else j + 1];
      AllocatedStaysGood(s.table, o, s'.checked[j]);
    }
  }

  lemma StepKeeps(s: State, e: Event)
    requires Invariant(s)
    ensures Invariant(Step(s, e))
  {
    hide Indexed, StillGood, Without;
    match e
    case Check(o) => if ShareAllowed(s.table, o.path, o.access, o.share) { CheckedIsGood(s.table, o); }
    case Allocate(k) => if k < |s.checked| { AllocateKeeps(s, k); }
    case Release(id) =>
      ReleasedIndexed(s.table, id);
      FewerKeeps(s, Released(s.table, id));
    case ReleaseMany(filter) =>
      DroppedIndexed(s.table, filter);
      FewerKeeps(s, Dropped(s.table, filter));
  }

  lemma FewerKeeps(s: State, t': Table)
    requires Invariant(s) && Indexed(t') && t'.nextHandle == s.table.nextHandle
    requires forall id :: id in t'.handles ==> id in s.table.handles && t'.handles[id] == s.table.handles[id]
    ensures Invariant(s.(table := t'))
  {
    hide Indexed, StillGood;
    forall k | 0 <= k < |s.checked|
      ensures StillGood(t', s.checked[k])
    {
      FewerStaysGood(s.table, t', s.checked[k]);
    }
  }

  /** The allocation keeps handles on one path compatible exactly when the open was not overtaken since its check. */
  lemma AllocateSafeIff(s: State, k: nat)
    requires Invariant(s) && SharingSafe(s.table) && k < |s.checked|
    ensures SharingSafe(Step(s, Allocate(k)).table) <==> !Overtaken(s.table, s.checked[k])
  {
    hide Permits;
    var t, c := s.table, s.checked[k];
    var o, t' := Handle(t, c), Step(s, Allocate(k)).table;
    AllocatedIndexed(t, o);
    hide Indexed;
    assert StillGood(t, c) && o.id !in t.handles;
    if Overtaken(t, c) {
      var id :| id in t.handles && c.horizon <= id.volatile && t.handles[id].path == c.open.path && !Compatible(c.open, t.handles[id]);
      assert t'.handles[id] == t.handles[id] && t'.handles[o.id] == o && !Compatible(o, t.handles[id]);
    } else {
      forall a, b | a in t'.handles && b in t'.handles && a != b && t'.handles[a].path == t'.handles[b].path
        ensures Compatible(t'.handles[a], t'.handles[b])
      {
        assert a != o.id ==> a in t.handles;
        assert b != o.id ==> b in t.handles;
      }
    }
  }

  /** Every allocation of the run comes before anything incompatible does. */
  ghost predicate NoneOvertaken(s: State, es: seq<Event>)
    decreases |es|
  {
    es != [] ==>
      && (es[0].Allocate? && es[0].request < |s.checked| ==> !Overtaken(s.table, s.checked[es[0].request]))
      && NoneOvertaken(Step(s, es[0]), es[1..])
  }

  lemma ReleasesStaySafe(s: State, e: Event)
    requires Invariant(s) && SharingSafe(s.table) && !e.Allocate?
    ensures SharingSafe(Step(s, e).table)
  {
    hide Indexed, Compatible, Without;
    match e
    case Check(_) =>
    case Release(id) => ReleasedIndexed(s.table, id);
    case ReleaseMany(filter) =>
  }

  /** Sharing is safe throughout an interleaved run as long as nobody is overtaken. */
  lemma {:induction false} InterleavedSafe(s: State, es: seq<Event>)
    requires Invariant(s) && SharingSafe(s.table) && NoneOvertaken(s, es)
    ensures Invariant(Run(s, es)) && SharingSafe(Run(s, es).table)
    decreases |es|
  {
    if es != [] {
      hide Invariant, SharingSafe, Overtaken;
      StepKeeps(s, es[0]);
      if es[0].Allocate? {
        if es[0].request < |s.checked| {
          AllocateSafeIff(s, es[0].request);
        }
      } else {
        ReleasesStaySafe(s, es[0]);
      }
      InterleavedSafe(Step(s, es[0]), es[1..]);
    }
  }

  // ---- Two CREATEs of one path ----

  lemma BothPass(a: OpenFile, b: OpenFile)
    ensures Step(Step(NOTHING_OPEN, Check(a)), Check(b)) == State(EMPTY_TABLE, [Checked(a, 1)] + [Checked(b, 1)])
  {
    assert ShareAllowed(EMPTY_TABLE, a.path, a.access, a.share) && ShareAllowed(EMPTY_TABLE, b.path, b.access, b.share);
    assert [] + [Checked(a, 1)] == [Checked(a, 1)];
  }

  function Numbered(o: OpenFile, volatile: nat): OpenFile {
    o.(id := FileId(o.id.persistent, volatile))
  }

  lemma BothAllocate(a: OpenFile, b: OpenFile)
    ensures var s := Step(Step(State(EMPTY_TABLE, [Checked(a, 1)] + [Checked(b, 1)]), Allocate(0)), Allocate(0));
            var ha, hb := Numbered(a, 1), Numbered(b, 2);
            s.table.handles == map[ha.id := ha][hb.id := hb]
  {
    var s2 := State(EMPTY_TABLE, [Checked(a, 1)] + [Checked(b, 1)]);
    var s3 := Step(s2, Allocate(0));
    assert s3.checked == [Checked(b, 1)];
    assert s3.table.handles == map[Numbered(a, 1).id := Numbered(a, 1)];
  }

  lemma PairSafe(t: Table, a: OpenFile, b: OpenFile)
    requires a.id != b.id && a.path == b.path && t.handles == map[a.id := a][b.id := b]
    ensures |t.handles| == 2 && (SharingSafe(t) <==> Compatible(a, b))
  {
    hide Permits;
    assert t.handles.Keys == {a.id, b.id};
    assert t.handles[a.id] == a && t.handles[b.id] == b;
  }

  /** Two CREATEs that are both checked before either allocates get handles that are safe exactly when they are compatible. */
  lemma TwoCreatesRace(a: OpenFile, b: OpenFile)
    requires a.path == b.path
    ensures var s := Run(NOTHING_OPEN, [Check(a), Check(b), Allocate(0), Allocate(0)]);
            |s.table.handles| == 2 && (SharingSafe(s.table) <==> Compatible(a, b))
  {
    hide SharingSafe, Step, Run;
    BothPass(a, b);
    BothAllocate(a, b);
    FourSteps(NOTHING_OPEN, Check(a), Check(b), Allocate(0), Allocate(0));
    PairSafe(Run(NOTHING_OPEN, [Check(a), Check(b), Allocate(0), Allocate(0)]).table, Numbered(a, 1), Numbered(b, 2));
  }

  lemma FourSteps(s: State, a: Event, b: Event, c: Event, d: Event)
    ensures Run(s, [a, b, c, d]) == Step(Step(Step(Step(s, a), b), c), d)
  {
    hide Step;
    assert [a, b, c, d][1..] == [b, c, d] && [b, c, d][1..] == [c, d] && [c, d][1..] == [d] && [d][1..] == [];
    var s2 := Step(Step(s, a), b);
    assert Run(s2, [c, d]) == Run(Step(s2, c), [d]) == Run(Step(Step(s2, c), d), []);
  }
}
