/**
 Releasing handles under concurrency. Release takes a handle out of the table under the lock and closes
 its file after unlocking; the bulk releases copy the matching FileIDs under the lock and then release
 them one by one. Any number of such calls interleave with each other and with allocations.
 */
module HandleRelease {
  import opened HandleMap

  /** A bulk release under way: the FileIDs still to go, and the next handle number when they were copied. */
  datatype Bulk = Bulk(filter: Filter, ids: seq<FileId>, horizon: nat)

  /** Files are numbered as they are opened; `closing` are out of the table but not closed yet. */
  datatype System = System(table: Table, files: nat, bulks: seq<Bulk>, closing: multiset<nat>, closed: multiset<nat>)

  datatype Event =
    | Allocate(open: OpenFile)
    | Release(id: FileId)
    | Copy(filter: Filter, ids: seq<FileId>)
    | Proceed(bulk: nat)
    | CloseFile(file: nat)

  const START := System(EMPTY_TABLE, 0, [], multiset{}, multiset{})

  /** The locked section of Release. */
  function Take(s: System, id: FileId): System {
    if id !in s.table.handles then s
    else s.(table := Released(s.table, id), closing := s.closing + multiset{s.table.handles[id].file})
  }

  /** The copy lists the matching handles in some order. */
  predicate Lists(t: Table, filter: Filter, ids: seq<FileId>) {
    && (forall id :: id in t.handles && Matches(filter, t.handles[id]) ==> id in ids)
    && (forall i :: 0 <= i < |ids| ==> ids[i] in t.handles && Matches(filter, t.handles[ids[i]]))
  }

  /** One step; an event that the system does not offer changes nothing. */
  function Step(s: System, e: Event): System {
    match e
    case Allocate(open) =>
      var o := open.(id := NextId(s.table, open.id.persistent), file := s.files);
      s.(table := Allocated(s.table, o), files := s.files + 1)
    case Release(id) => Take(s, id)
    case Copy(filter, ids) =>
      if Lists(s.table, filter, ids)
      then s.(bulks := s.bulks + [Bulk(filter, ids, s.table.nextHandle)])
      else s
    case Proceed(k) =>
      if k < |s.bulks| && s.bulks[k].ids != []
      then Take(s, s.bulks[k].ids[0]).(bulks := s.bulks[k := s.bulks[k].(ids := s.bulks[k].ids[1..])])
      else s
    case CloseFile(f) =>
      if f in s.closing
      then s.(closing := s.closing - multiset{f}, closed := s.closed + multiset{f})
      else s
  }

  function Run(s: System, es: seq<Event>): System
    decreases |es|
  {
    if es == [] then s else Run(Step(s, es[0]), es[1..])
  }

  // ---- The invariant ----

  ghost predicate Held(t: Table, f: nat) {
    exists id :: id in t.handles && t.handles[id].file == f
  }

  /** Every opened file is in the table under one handle, or about to be closed, or closed: exactly one of them, once. */
  ghost predicate Conserved(t: Table, files: nat, out: multiset<nat>) {
    && (forall id :: id in t.handles ==> t.handles[id].file < files && t.handles[id].file !in out)
    && (forall a, b :: a in t.handles && b in t.handles && t.handles[a].file == t.handles[b].file ==> a == b)
    && (forall f :: f in out ==> f < files && out[f] == 1)
    && (forall f: nat :: f < files ==> f in out || Held(t, f))
  }

  /** What a bulk release still has to go was there, and matched, when its list was copied. */
  ghost predicate BulkOk(t: Table, b: Bulk) {
    && b.horizon <= t.nextHandle
    && (forall i :: 0 <= i < |b.ids| ==> b.ids[i].volatile < b.horizon)
    && (forall i :: 0 <= i < |b.ids| && b.ids[i] in t.handles ==> Matches(b.filter, t.handles[b.ids[i]]))
  }

  ghost predicate Invariant(s: System) {
    && Indexed(s.table)
    && Conserved(s.table, s.files, s.closing + s.closed)
    && (forall k :: 0 <= k < |s.bulks| ==> BulkOk(s.table, s.bulks[k]))
  }

  // ---- Steps ----

  lemma HeldMore(t: Table, o: OpenFile, f: nat)
    requires (Held(t, f) && o.id !in t.handles) || f == o.file
    ensures Held(Allocated(t, o), f)
  {
    var t' := Allocated(t, o);
    if f == o.file {
      assert t'.handles[o.id].file == f;
    } else {
      var id :| id in t.handles && t.handles[id].file == f;
      assert id in t'.handles && t'.handles[id].file == f;
    }
  }

  lemma AllocateConserves(t: Table, files: nat, out: multiset<nat>, o: OpenFile)
    requires Indexed(t) && Conserved(t, files, out) && o.id.volatile == t.nextHandle && o.file == files
    ensures Conserved(Allocated(t, o), files + 1, out)
  {
    hide Indexed, Held;
    AllocatedIndexed(t, o);
    forall f: nat | f < files + 1
      ensures f in out || Held(Allocated(t, o), f)
    {
      if f !in out {
        HeldMore(t, o, f);
      }
    }
  }

  lemma StillHeld(t: Table, t': Table, id: FileId, f: nat)
    requires Held(t, f) && t'.handles == t.handles - {id} && (id in t.handles ==> t.handles[id].file != f)
    ensures Held(t', f)
  {
    var x :| x in t.handles && t.handles[x].file == f;
    assert x in t'.handles && t'.handles[x].file == f;
  }

  lemma TakeConserves(t: Table, files: nat, out: multiset<nat>, id: FileId)
    requires Indexed(t) && Conserved(t, files, out) && id in t.handles
    ensures Conserved(Released(t, id), files, out + multiset{t.handles[id].file})
  {
    hide Indexed, Released, Held;
    ReleasedIndexed(t, id);
    var gone := t.handles[id].file;
    forall f: nat | f < files
      ensures f in out + multiset{gone} || Held(Released(t, id), f)
    {
      if f !in out && f != gone {
        StillHeld(t, Released(t, id), id, f);
      }
    }
  }

  lemma TakeKeeps(s: System, id: FileId)
    requires Invariant(s)
    ensures var s' := Take(s, id);
            && Indexed(s'.table) && Conserved(s'.table, s'.files, s'.closing + s'.closed)
            && s'.table.handles == s.table.handles - {id}
            && (forall b :: BulkOk(s.table, b) ==> BulkOk(s'.table, b))
  {
    hide Conserved, Indexed, Without;
    ReleasedIndexed(s.table, id);
    if id in s.table.handles {
      TakeConserves(s.table, s.files, s.closing + s.closed, id);
      var f := s.table.handles[id].file;
      assert s.closing + s.closed + multiset{f} == s.closing + multiset{f} + s.closed;
    }
  }

  lemma AllocateKeeps(s: System, open: OpenFile)
    requires Invariant(s)
    ensures Invariant(Step(s, Allocate(open)))
  {
    var o := open.(id := NextId(s.table, open.id.persistent), file := s.files);
    AllocatedIndexed(s.table, o);
    AllocateConserves(s.table, s.files, s.closing + s.closed, o);
    hide Conserved, Indexed;
  }

  lemma CopyKeeps(s: System, filter: Filter, ids: seq<FileId>)
    requires Invariant(s)
    ensures Invariant(Step(s, Copy(filter, ids)))
  {
  }

  lemma BulkTail(t: Table, b: Bulk)
    requires BulkOk(t, b) && b.ids != []
    ensures BulkOk(t, b.(ids := b.ids[1..]))
  {
    hide Matches;
  }

  lemma ProceedKeeps(s: System, k: nat)
    requires Invariant(s)
    ensures Invariant(Step(s, Proceed(k)))
  {
    hide Conserved, Indexed, BulkOk, Released;
    if k < |s.bulks| && s.bulks[k].ids != [] {
      var b := s.bulks[k];
      TakeKeeps(s, b.ids[0]);
      BulkTail(s.table, b);
    }
  }

  lemma CloseKeeps(s: System, f: nat)
    requires Invariant(s)
    ensures Invariant(Step(s, CloseFile(f)))
  {
    hide Conserved, Indexed;
    if f in s.closing {
      assert s.closing - multiset{f} + (s.closed + multiset{f}) == s.closing + s.closed;
    }
  }

  lemma StepKeeps(s: System, e: Event)
    requires Invariant(s)
    ensures Invariant(Step(s, e))
  {
    match e
    case Allocate(open) => AllocateKeeps(s, open);
    case Release(id) => TakeKeeps(s, id);
    case Copy(filter, ids) => CopyKeeps(s, filter, ids);
    case Proceed(k) => ProceedKeeps(s, k);
    case CloseFile(f) => CloseKeeps(s, f);
  }

  lemma {:induction false} RunKeeps(s: System, es: seq<Event>)
    requires Invariant(s)
    ensures Invariant(Run(s, es))
    decreases |es|
  {
    if es != [] {
      StepKeeps(s, es[0]);
      RunKeeps(Step(s, es[0]), es[1..]);
    }
  }

  // ---- What the invariant means ----

  lemma StartRun(es: seq<Event>)
    ensures Invariant(Run(START, es))
  {
    RunKeeps(START, es);
  }

  /** In every interleaving a file is closed at most once, and only when no handle leads to it any more. */
  lemma ClosedAtMostOnce(es: seq<Event>)
    ensures var s := Run(START, es);
            && (forall f :: s.closed[f] <= 1)
            && (forall f :: f in s.closed ==> !Held(s.table, f) && f !in s.closing)
            && (forall a, b :: a in s.table.handles && b in s.table.handles && a != b ==>
                  s.table.handles[a].file != s.table.handles[b].file)
  {
    StartRun(es);
    var s := Run(START, es);
    forall f: nat
      ensures s.closed[f] <= 1 && (f in s.closed ==> !Held(s.table, f) && f !in s.closing)
    {
      assert (s.closing + s.closed)[f] == s.closing[f] + s.closed[f];
    }
  }

  /** Once the table is empty and no close is outstanding, every file ever opened was closed exactly once. */
  lemma ClosedExactlyOnce(es: seq<Event>)
    ensures var s := Run(START, es);
            s.table.handles == map[] && s.closing == multiset{} ==> forall f: nat :: s.closed[f] == if f < s.files then 1 else 0
  {
    StartRun(es);
    var s := Run(START, es);
    if s.table.handles == map[] && s.closing == multiset{} {
      forall f: nat
        ensures s.closed[f] == if f < s.files then 1 else 0
      {
        assert (s.closing + s.closed)[f] == s.closed[f];
      }
    }
  }

  /** A bulk release takes out only handles that it was asked to release and that were there when it started. */
  lemma ProceedTakesOnly(es: seq<Event>, k: nat, id: FileId)
    requires var s := Run(START, es); k < |s.bulks| && id in s.table.handles && id !in Step(s, Proceed(k)).table.handles
    ensures var s := Run(START, es);
            id.volatile < s.bulks[k].horizon && Matches(s.bulks[k].filter, s.table.handles[id])
  {
    hide Conserved, Indexed, Without, Matches;
    StartRun(es);
    var s := Run(START, es);
    assert BulkOk(s.table, s.bulks[k]);
    if s.bulks[k].ids != [] {
      TakeKeeps(s, s.bulks[k].ids[0]);
    }
  }

  /** No bulk release under way has the handle on its list. */
  ghost predicate Unlisted(s: System, id: FileId) {
    forall k :: 0 <= k < |s.bulks| ==> id !in s.bulks[k].ids
  }

  /** A handle allocated after every list was copied is on none of them. */
  lemma LaterIsUnlisted(s: System, id: FileId)
    requires Invariant(s) && forall k :: 0 <= k < |s.bulks| ==> s.bulks[k].horizon <= id.volatile
    ensures Unlisted(s, id)
  {
    hide Conserved, Indexed;
    forall k | 0 <= k < |s.bulks|
      ensures id !in s.bulks[k].ids
    {
      assert BulkOk(s.table, s.bulks[k]);
    }
  }

  /** The event neither names the handle nor starts a bulk release that asks for it. */
  predicate Spares(e: Event, o: OpenFile) {
    e != Event.Release(o.id) && (e.Copy? ==> !Matches(e.filter, o))
  }

  /** A handle on no list survives everything that spares it, whatever other releases start or go on meanwhile. */
  lemma {:induction false} StaleListsSpare(s: System, es: seq<Event>, id: FileId)
    requires Invariant(s) && id in s.table.handles && Unlisted(s, id)
    requires forall i :: 0 <= i < |es| ==> Spares(es[i], s.table.handles[id])
    ensures var t := Run(s, es).table; id in t.handles && t.handles[id] == s.table.handles[id]
    decreases |es|
  {
    if es != [] {
      assert Spares(es[0], s.table.handles[id]);
      SpareStep(s, es[0], id);
      StepKeeps(s, es[0]);
      StaleListsSpare(Step(s, es[0]), es[1..], id);
    }
  }

  lemma SpareStep(s: System, e: Event, id: FileId)
    requires Invariant(s) && id in s.table.handles && Unlisted(s, id) && Spares(e, s.table.handles[id])
    ensures var s' := Step(s, e);
            id in s'.table.handles && s'.table.handles[id] == s.table.handles[id] && Unlisted(s', id)
  {
    assert s.table.handles[id].id == id && id.volatile < s.table.nextHandle;
    hide Conserved, Indexed, Without, Matches;
    match e
    case Allocate(open) =>
    case Release(other) => TakeKeeps(s, other);
    case Copy(filter, ids) =>
    case Proceed(k) => ProceedSpares(s, k, id);
    case CloseFile(f) =>
  }

  lemma ProceedSpares(s: System, k: nat, id: FileId)
    requires Invariant(s) && id in s.table.handles && Unlisted(s, id)
    ensures var s' := Step(s, Proceed(k));
            id in s'.table.handles && s'.table.handles[id] == s.table.handles[id] && Unlisted(s', id)
  {
    hide Conserved, Indexed, Released, BulkOk;
    if k < |s.bulks| && s.bulks[k].ids != [] {
      assert s.bulks[k].ids[0] in s.bulks[k].ids;
      TakeKeeps(s, s.bulks[k].ids[0]);
    }
  }

  /** A handle that is released and whose close is carried out is gone, and its file is closed. */
  lemma ReleaseThenClose(s: System, id: FileId)
    requires Invariant(s) && id in s.table.handles
    ensures var f := s.table.handles[id].file;
            var s1 := Step(s, Event.Release(id));
            var s2 := Step(s1, CloseFile(f));
            && s1.table.handles == s.table.handles - {id} && f in s1.closing && s1.closed == s.closed
            && s2.closed == s.closed + multiset{f} && s2.closing == s.closing && s2.table == s1.table
  {
    hide Conserved, Indexed, Without;
    TakeKeeps(s, id);
  }
}
