/**
 The server's table of open files: handles by FileID, the index of handles by path, and the sharing
 check that goes through the index. A pointer to an open file is represented by its FileID.
 */
module HandleMap {

  datatype FileId = FileId(persistent: nat, volatile: nat)

  datatype OpenFile = OpenFile(
    id: FileId, file: nat, path: string, isDir: bool, access: bv32, share: bv32,
    tree: nat, session: nat, deleteOnClose: bool)

  datatype Table = Table(handles: map<FileId, OpenFile>, byPath: map<string, seq<FileId>>, nextHandle: nat)

  // ---- Sharing ----

  const FILE_READ_DATA: bv32 := 0x1
  const FILE_WRITE_DATA: bv32 := 0x2
  const FILE_APPEND_DATA: bv32 := 0x4
  const DELETE: bv32 := 0x10000
  const FILE_SHARE_READ: bv32 := 0x1
  const FILE_SHARE_WRITE: bv32 := 0x2
  const FILE_SHARE_DELETE: bv32 := 0x4
  const GENERIC_ALL: bv32 := 0x1000_0000
  const GENERIC_EXECUTE: bv32 := 0x2000_0000
  const GENERIC_WRITE: bv32 := 0x4000_0000
  const GENERIC_READ: bv32 := 0x8000_0000

  /** Every kind of access that is asked for is shared. */
  predicate Permits(share: bv32, access: bv32) {
    && (access & FILE_READ_DATA != 0 ==> share & FILE_SHARE_READ != 0)
    && (access & FILE_WRITE_DATA != 0 ==> share & FILE_SHARE_WRITE != 0)
    && (access & DELETE != 0 ==> share & FILE_SHARE_DELETE != 0)
  }

  /** Two opens that may stand side by side. */
  predicate Compatible(a: OpenFile, b: OpenFile) {
    Permits(b.share, a.access) && Permits(a.share, b.access)
  }

  /** The six tests, in the order in which they are made. */
  method CheckShareCompatibility(newAccess: bv32, newShare: bv32, existingAccess: bv32, existingShare: bv32)
    returns (ok: bool)
    ensures ok <==> Permits(existingShare, newAccess) && Permits(newShare, existingAccess)
  {
    if newAccess & FILE_READ_DATA != 0 && existingShare & FILE_SHARE_READ == 0 {
      return false;
    }
    if newAccess & FILE_WRITE_DATA != 0 && existingShare & FILE_SHARE_WRITE == 0 {
      return false;
    }
    if newAccess & DELETE != 0 && existingShare & FILE_SHARE_DELETE == 0 {
      return false;
    }
    if existingAccess & FILE_READ_DATA != 0 && newShare & FILE_SHARE_READ == 0 {
      return false;
    }
    if existingAccess & FILE_WRITE_DATA != 0 && newShare & FILE_SHARE_WRITE == 0 {
      return false;
    }
    if existingAccess & DELETE != 0 && newShare & FILE_SHARE_DELETE == 0 {
      return false;
    }
    return true;
  }

  // ---- The operations on the table ----

  const EMPTY_TABLE := Table(map[], map[], 1)

  function At(byPath: map<string, seq<FileId>>, path: string): seq<FileId> {
    if path in byPath then byPath[path] else []
  }

  function Bucket(t: Table, path: string): seq<FileId> {
    At(t.byPath, path)
  }

  /** The handle that the next allocation hands out; the persistent half is random. */
  function NextId(t: Table, persistent: nat): FileId {
    FileId(persistent, t.nextHandle)
  }

  function Allocated(t: Table, o: OpenFile): Table {
    Table(t.handles[o.id := o], t.byPath[o.path := Bucket(t, o.path) + [o.id]], t.nextHandle + 1)
  }

  function Without(ids: seq<FileId>, id: FileId): seq<FileId> {
    if ids == [] then [] else if ids[0] == id then ids[1..] else [ids[0]] + Without(ids[1..], id)
  }

  function Released(t: Table, id: FileId): Table {
    if id !in t.handles then t
    else
      var path := t.handles[id].path;
      var rest := Without(Bucket(t, path), id);
      Table(t.handles - {id}, if rest == [] then t.byPath - {path} else t.byPath[path := rest], t.nextHandle)
  }

  function ReleasedAll(t: Table, ids: seq<FileId>): Table
    decreases |ids|
  {
    if ids == [] then t else ReleasedAll(Released(t, ids[0]), ids[1..])
  }

  function Flagged(t: Table, id: FileId, deleteOnClose: bool): Table {
    if id !in t.handles then t
    else t.(handles := t.handles[id := t.handles[id].(deleteOnClose := deleteOnClose)])
  }

  predicate BelongsTo(o: OpenFile, tree: nat, session: nat) {
    o.tree == tree && o.session == session
  }

  /** What a bulk release asks for. */
  datatype Filter = BySession(session: nat) | ByTree(tree: nat, session: nat)

  predicate Matches(f: Filter, o: OpenFile) {
    match f
    case BySession(session) => o.session == session
    case ByTree(tree, session) => BelongsTo(o, tree, session)
  }

  /** The matching handles are gone from the handles and from every bucket, and no bucket is left empty. */
  function Dropped(t: Table, f: Filter): Table {
    Table(map id | id in t.handles && !Matches(f, t.handles[id]) :: t.handles[id],
          map p | p in t.byPath && Staying(t.byPath[p], t.handles, f) != [] :: Staying(t.byPath[p], t.handles, f),
          t.nextHandle)
  }

  function Staying(ids: seq<FileId>, handles: map<FileId, OpenFile>, f: Filter): seq<FileId> {
    if ids == [] then []
    else
      var rest := Staying(ids[1..], handles, f);
      if ids[0] in handles && Matches(f, handles[ids[0]]) then rest else [ids[0]] + rest
  }

  /** The check looks only at the bucket of the path. */
  predicate ShareAllowed(t: Table, path: string, access: bv32, share: bv32) {
    forall i :: 0 <= i < |Bucket(t, path)| && Bucket(t, path)[i] in t.handles ==>
      var o := t.handles[Bucket(t, path)[i]];
      Permits(o.share, access) && Permits(share, o.access)
  }

  // ---- The index is the grouping of the handles by path ----

  predicate Ordered(ids: seq<FileId>) {
    forall i, j :: 0 <= i < j < |ids| ==> ids[i].volatile < ids[j].volatile
  }

  /** A bucket holds exactly the handles of its path, in the order of their allocation. */
  ghost predicate Groups(bucket: seq<FileId>, handles: map<FileId, OpenFile>, path: string) {
    Ordered(bucket) && forall id :: id in bucket <==> id in handles && handles[id].path == path
  }

  /** Every path has its bucket, and no bucket is empty. */
  ghost predicate Grouping(handles: map<FileId, OpenFile>, byPath: map<string, seq<FileId>>) {
    && (forall p :: p in byPath ==> byPath[p] != [])
    && (forall p :: Groups(At(byPath, p), handles, p))
  }

  ghost predicate Indexed(t: Table) {
    && Grouping(t.handles, t.byPath)
    && (forall id :: id in t.handles ==> t.handles[id].id == id && id.volatile < t.nextHandle)
    && (forall a, b :: a in t.handles && b in t.handles && a.volatile == b.volatile ==> a == b)
  }

  lemma HeadIn(a: seq<FileId>)
    ensures a != [] ==> a[0] in a
  {
  }

  lemma HeadLeast(a: seq<FileId>, id: FileId)
    requires Ordered(a) && id in a
    ensures a != [] && a[0].volatile <= id.volatile && (a[0].volatile == id.volatile ==> a[0] == id)
  {
  }

  lemma TailMembers(a: seq<FileId>, id: FileId)
    requires a != [] && Ordered(a)
    ensures id in a[1..] <==> id in a && id != a[0]
  {
  }

  /** Ordered lists with the same members are the same. */
  lemma {:induction false} OrderedUnique(a: seq<FileId>, b: seq<FileId>)
    requires Ordered(a) && Ordered(b) && forall id :: id in a <==> id in b
    ensures a == b
    decreases |a|
  {
    HeadIn(a);
    HeadIn(b);
    if a != [] && b != [] {
      HeadLeast(a, b[0]);
      HeadLeast(b, a[0]);
      forall id
        ensures id in a[1..] <==> id in b[1..]
      {
        TailMembers(a, id);
        TailMembers(b, id);
      }
      OrderedUnique(a[1..], b[1..]);
      assert a == [a[0]] + a[1..] && b == [b[0]] + b[1..];
    }
  }

  /** The handles alone determine the index. */
  lemma GroupingUnique(handles: map<FileId, OpenFile>, b: map<string, seq<FileId>>, c: map<string, seq<FileId>>)
    requires Grouping(handles, b) && Grouping(handles, c)
    ensures b == c
  {
    forall p
      ensures At(b, p) == At(c, p)
    {
      assert Groups(At(b, p), handles, p) && Groups(At(c, p), handles, p);
      OrderedUnique(At(b, p), At(c, p));
    }
    assert forall p :: (p in b <==> At(b, p) != []) && (p in c <==> At(c, p) != []);
    assert forall p :: p in b ==> b[p] == At(b, p) == At(c, p) == c[p];
  }

  lemma GroupsSnoc(bucket: seq<FileId>, handles: map<FileId, OpenFile>, o: OpenFile, p: string)
    requires Groups(bucket, handles, p) && forall id :: id in handles ==> id.volatile < o.id.volatile
    ensures Groups(if p == o.path then bucket + [o.id] else bucket, handles[o.id := o], p)
  {
  }

  lemma AllocatedIndexed(t: Table, o: OpenFile)
    requires Indexed(t) && o.id.volatile == t.nextHandle
    ensures Indexed(Allocated(t, o)) && o.id !in t.handles
  {
    hide Groups;
    var t' := Allocated(t, o);
    forall p
      ensures Groups(At(t'.byPath, p), t'.handles, p)
    {
      GroupsSnoc(At(t.byPath, p), t.handles, o, p);
      assert At(t'.byPath, p) == if p == o.path then At(t.byPath, p) + [o.id] else At(t.byPath, p);
    }
  }

  lemma {:induction false} WithoutMembers(ids: seq<FileId>, id: FileId)
    requires Ordered(ids)
    ensures Ordered(Without(ids, id))
    ensures forall x :: x in Without(ids, id) <==> x in ids && x != id
  {
    hide Ordered;
    if ids != [] {
      OrderedTail(ids);
      if ids[0] == id {
        forall x
          ensures x in ids[1..] <==> x in ids && x != id
        {
          TailMembers(ids, x);
        }
      } else {
        WithoutMembers(ids[1..], id);
        OrderedCons(ids[0], Without(ids[1..], id));
        assert ids == [ids[0]] + ids[1..];
      }
    }
  }

  lemma ReleasedIndexed(t: Table, id: FileId)
    requires Indexed(t)
    ensures Indexed(Released(t, id)) && Released(t, id).handles == t.handles - {id}
    ensures Released(t, id).nextHandle == t.nextHandle
  {
    if id in t.handles {
      var path := t.handles[id].path;
      var t' := Released(t, id);
      forall p
        ensures Groups(At(t'.byPath, p), t'.handles, p)
      {
        var bucket := At(t.byPath, p);
        assert Groups(bucket, t.handles, p);
        WithoutMembers(bucket, id);
        assert At(t'.byPath, p) == if p == path then Without(bucket, id) else bucket;
      }
    }
  }

  lemma LessOne(handles: map<FileId, OpenFile>, ids: seq<FileId>)
    requires ids != []
    ensures (map id | id in handles - {ids[0]} && id !in ids[1..] :: (handles - {ids[0]})[id])
            == (map id | id in handles && id !in ids :: handles[id])
  {
    assert forall x :: x in ids <==> x == ids[0] || x in ids[1..];
  }

  lemma {:induction false} ReleasedAllIndexed(t: Table, ids: seq<FileId>)
    requires Indexed(t)
    ensures var t' := ReleasedAll(t, ids);
            && Indexed(t') && t'.nextHandle == t.nextHandle
            && t'.handles == map id | id in t.handles && id !in ids :: t.handles[id]
    decreases |ids|
  {
    if ids != [] {
      hide Indexed, Released;
      ReleasedIndexed(t, ids[0]);
      ReleasedAllIndexed(Released(t, ids[0]), ids[1..]);
      LessOne(t.handles, ids);
    }
  }

  lemma {:induction false} StayingMembers(ids: seq<FileId>, handles: map<FileId, OpenFile>, f: Filter)
    requires Ordered(ids)
    ensures Ordered(Staying(ids, handles, f))
    ensures forall x :: x in Staying(ids, handles, f) <==> x in ids && !(x in handles && Matches(f, handles[x]))
  {
    hide Matches, Ordered;
    if ids != [] {
      OrderedTail(ids);
      StayingMembers(ids[1..], handles, f);
      OrderedCons(ids[0], Staying(ids[1..], handles, f));
      assert ids == [ids[0]] + ids[1..];
    }
  }

  lemma OrderedTail(ids: seq<FileId>)
    requires Ordered(ids) && ids != []
    ensures Ordered(ids[1..]) && forall x :: x in ids[1..] ==> ids[0].volatile < x.volatile
  {
  }

  lemma OrderedCons(id: FileId, rest: seq<FileId>)
    requires Ordered(rest) && forall x :: x in rest ==> id.volatile < x.volatile
    ensures Ordered([id] + rest)
  {
  }

  lemma DroppedIndexed(t: Table, f: Filter)
    requires Indexed(t)
    ensures Indexed(Dropped(t, f))
  {
    hide Matches;
    var t' := Dropped(t, f);
    forall p
      ensures Groups(At(t'.byPath, p), t'.handles, p)
    {
      assert Groups(At(t.byPath, p), t.handles, p);
      StayingMembers(At(t.byPath, p), t.handles, f);
      assert At(t'.byPath, p) == Staying(At(t.byPath, p), t.handles, f);
    }
  }

  /** Releasing the matching handles one by one gives the same table whatever their order. */
  lemma OrderOfReleaseIsIrrelevant(t: Table, f: Filter, ids: seq<FileId>)
    requires Indexed(t) && forall id :: id in ids <==> id in t.handles && Matches(f, t.handles[id])
    ensures ReleasedAll(t, ids) == Dropped(t, f)
  {
    ReleasedAllIndexed(t, ids);
    DroppedIndexed(t, f);
    GroupingUnique(Dropped(t, f).handles, ReleasedAll(t, ids).byPath, Dropped(t, f).byPath);
  }

  lemma FlaggedIndexed(t: Table, id: FileId, flag: bool)
    requires Indexed(t)
    ensures Indexed(Flagged(t, id, flag))
  {
  }

  /** Through the index the check sees every handle open on the path, and nothing else. */
  lemma ShareAllowedIff(t: Table, path: string, access: bv32, share: bv32)
    requires Indexed(t)
    ensures ShareAllowed(t, path, access, share) <==>
      forall id :: id in t.handles && t.handles[id].path == path ==>
        Permits(t.handles[id].share, access) && Permits(share, t.handles[id].access)
  {
    hide Permits;
    var bucket := Bucket(t, path);
    assert Groups(At(t.byPath, path), t.handles, path);
    assert forall i :: 0 <= i < |bucket| ==> bucket[i] in bucket;
  }

  // ---- Runs ----

  datatype Event =
    | TryOpen(open: OpenFile)
    | Release(id: FileId)
    | ReleaseMany(filter: Filter)
    | SetDeleteOnClose(id: FileId, flag: bool)

  /** An open is allocated only after the check; Allocate itself chooses the volatile half of its FileID. */
  function Step(t: Table, e: Event): Table {
    match e
    case TryOpen(open) =>
      var o := open.(id := NextId(t, open.id.persistent));
      if ShareAllowed(t, o.path, o.access, o.share) then Allocated(t, o) else t
    case Release(id) => Released(t, id)
    case ReleaseMany(filter) => Dropped(t, filter)
    case SetDeleteOnClose(id, flag) => Flagged(t, id, flag)
  }

  function Run(t: Table, es: seq<Event>): Table
    decreases |es|
  {
    if es == [] then t else Run(Step(t, es[0]), es[1..])
  }

  /** Any two handles open on one path are mutually compatible. */
  ghost predicate SharingSafe(t: Table) {
    forall a, b :: a in t.handles && b in t.handles && a != b && t.handles[a].path == t.handles[b].path ==>
      Compatible(t.handles[a], t.handles[b])
  }

  lemma OpenSafe(t: Table, o: OpenFile)
    requires Indexed(t) && SharingSafe(t) && o.id.volatile == t.nextHandle && ShareAllowed(t, o.path, o.access, o.share)
    ensures Indexed(Allocated(t, o)) && SharingSafe(Allocated(t, o))
  {
    hide Permits;
    AllocatedIndexed(t, o);
    ShareAllowedIff(t, o.path, o.access, o.share);
    hide Indexed;
  }

  /** Fewer handles, or handles with another delete-on-close flag, stay compatible. */
  lemma FewerSafe(t: Table, t': Table)
    requires SharingSafe(t)
    requires forall id :: id in t'.handles ==>
      id in t.handles && t'.handles[id].(deleteOnClose := false) == t.handles[id].(deleteOnClose := false)
    ensures SharingSafe(t')
  {
    hide Permits;
  }

  lemma StepSafe(t: Table, e: Event)
    requires Indexed(t) && SharingSafe(t)
    ensures Indexed(Step(t, e)) && SharingSafe(Step(t, e))
  {
    hide Indexed, SharingSafe, Without, Staying, ShareAllowed;
    match e
    case TryOpen(open) =>
      var o := open.(id := NextId(t, open.id.persistent));
      if ShareAllowed(t, o.path, o.access, o.share) {
        OpenSafe(t, o);
      }
    case Release(id) =>
      ReleasedIndexed(t, id);
      FewerSafe(t, Released(t, id));
    case ReleaseMany(filter) =>
      DroppedIndexed(t, filter);
      FewerSafe(t, Dropped(t, filter));
    case SetDeleteOnClose(id, flag) =>
      FlaggedIndexed(t, id, flag);
      FewerSafe(t, Flagged(t, id, flag));
  }

  lemma {:induction false} RunSafe(t: Table, es: seq<Event>)
    requires Indexed(t) && SharingSafe(t)
    ensures Indexed(Run(t, es)) && SharingSafe(Run(t, es))
    decreases |es|
  {
    if es != [] {
      StepSafe(t, es[0]);
      RunSafe(Step(t, es[0]), es[1..]);
    }
  }

  /** In every run the index is the grouping, and open handles on one path are compatible. */
  lemma ShareModesHold(es: seq<Event>)
    ensures Indexed(Run(EMPTY_TABLE, es)) && SharingSafe(Run(EMPTY_TABLE, es))
  {
    RunSafe(EMPTY_TABLE, es);
  }

  // ---- Generic rights ----

  function SetIf(access: bv32, generic: bv32, rights: bv32): bv32 {
    if access & generic != 0 then rights else 0
  }

  /** The rights an access mask stands for, as WRITE reads it. */
  function MapGenericAccess(access: bv32): bv32 {
    access
    | SetIf(access, GENERIC_READ, 0x0012_0089)
    | SetIf(access, GENERIC_WRITE, 0x0010_0116)
    | SetIf(access, GENERIC_EXECUTE, 0x0010_00A0)
    | SetIf(access, GENERIC_ALL, 0x001F_01FF)
  }

  /** A read, write or delete right that a generic bit implies, that the mask does not spell out and that is not shared. */
  predicate Hides(share: bv32, access: bv32) {
    || (access & 0x9000_0000 != 0 && access & FILE_READ_DATA == 0 && share & FILE_SHARE_READ == 0)
    || (access & 0x5000_0000 != 0 && access & FILE_WRITE_DATA == 0 && share & FILE_SHARE_WRITE == 0)
    || (access & GENERIC_ALL != 0 && access & DELETE == 0 && share & FILE_SHARE_DELETE == 0)
  }

  /** The sharing check reads the masks as they came: it agrees with the rights they stand for exactly when neither hides one. */
  lemma PermitsMapped(share: bv32, access: bv32)
    ensures Permits(share, MapGenericAccess(access)) <==> Permits(share, access) && !Hides(share, access)
  {
  }

  lemma MappedBits(access: bv32)
    ensures MapGenericAccess(access) & FILE_READ_DATA != 0 <==> access & FILE_READ_DATA != 0 || access & 0x9000_0000 != 0
    ensures MapGenericAccess(access) & FILE_WRITE_DATA != 0 <==> access & FILE_WRITE_DATA != 0 || access & 0x5000_0000 != 0
    ensures MapGenericAccess(access) & DELETE != 0 <==> access & DELETE != 0 || access & GENERIC_ALL != 0
  {
  }

  function Effective(o: OpenFile): OpenFile {
    o.(access := MapGenericAccess(o.access))
  }

  lemma EffectiveIff(a: OpenFile, b: OpenFile)
    requires Compatible(a, b)
    ensures Compatible(Effective(a), Effective(b)) <==> !Hides(b.share, a.access) && !Hides(a.share, b.access)
  {
  }

  /** Two writers, neither of which shares anything, pass the check when they ask for GENERIC_WRITE. */
  lemma GenericWritersCollide()
    ensures var o := OpenFile(FileId(0, 0), 0, "/f", false, GENERIC_WRITE, 0, 1, 1, false);
            var t := Run(EMPTY_TABLE, [TryOpen(o), TryOpen(o)]);
            && |t.handles| == 2
            && (forall a, b :: a in t.handles && b in t.handles ==> !Compatible(Effective(t.handles[a]), Effective(t.handles[b])))
  {
    var o := OpenFile(FileId(0, 0), 0, "/f", false, GENERIC_WRITE, 0, 1, 1, false);
    var t1 := Step(EMPTY_TABLE, TryOpen(o));
    assert t1.handles == map[FileId(0, 1) := o.(id := FileId(0, 1))];
    var t2 := Step(t1, TryOpen(o));
    assert t2.handles == map[FileId(0, 1) := o.(id := FileId(0, 1)), FileId(0, 2) := o.(id := FileId(0, 2))];
    var es := [TryOpen(o), TryOpen(o)];
    assert Run(EMPTY_TABLE, es) == Run(t1, es[1..]) && es[1..] == [TryOpen(o)] && es[1..][1..] == [];
    assert Run(t1, es[1..]) == Run(t2, []) == t2;
    MappedBits(GENERIC_WRITE);
  }

  /** Opens that do not ask for generic rights. */
  predicate Spelled(es: seq<Event>) {
    forall i :: 0 <= i < |es| && es[i].TryOpen? ==> es[i].open.access & 0xD000_0000 == 0
  }

  ghost predicate NoGenerics(t: Table) {
    forall id :: id in t.handles ==> t.handles[id].access & 0xD000_0000 == 0
  }

  lemma SpelledStep(t: Table, e: Event)
    requires Indexed(t) && NoGenerics(t) && (e.TryOpen? ==> e.open.access & 0xD000_0000 == 0)
    ensures NoGenerics(Step(t, e))
  {
    hide Without, Staying, Indexed, ShareAllowed;
    match e
    case Release(id) => ReleasedIndexed(t, id);
    case _ =>
  }

  lemma {:induction false} SpelledRun(t: Table, es: seq<Event>)
    requires Indexed(t) && SharingSafe(t) && NoGenerics(t) && Spelled(es)
    ensures NoGenerics(Run(t, es))
    decreases |es|
  {
    if es != [] {
      hide Indexed, SharingSafe, NoGenerics, Step;
      SpelledStep(t, es[0]);
      StepSafe(t, es[0]);
      SpelledRun(Step(t, es[0]), es[1..]);
    }
  }

  lemma SpelledHidesNothing(share: bv32, access: bv32)
    requires access & 0xD000_0000 == 0
    ensures !Hides(share, access)
  {
  }

  /** Without generic rights, handles on one path are compatible in what they may really do. */
  lemma EffectiveModesHold(es: seq<Event>)
    requires Spelled(es)
    ensures var h := Run(EMPTY_TABLE, es).handles;
            forall a, b :: a in h && b in h && a != b && h[a].path == h[b].path ==>
              Compatible(Effective(h[a]), Effective(h[b]))
  {
    hide Hides, Effective, Compatible;
    ShareModesHold(es);
    SpelledRun(EMPTY_TABLE, es);
    var h := Run(EMPTY_TABLE, es).handles;
    forall a, b | a in h && b in h && a != b && h[a].path == h[b].path
      ensures Compatible(Effective(h[a]), Effective(h[b]))
    {
      SpelledHidesNothing(h[b].share, h[a].access);
      SpelledHidesNothing(h[a].share, h[b].access);
      EffectiveIff(h[a], h[b]);
    }
  }

  // ---- Single operations ----

  /** The flag asked for is set, on that handle alone. */
  lemma FlaggedMeans(t: Table, id: FileId, flag: bool)
    ensures var t' := Flagged(t, id, flag);
            && t'.handles.Keys == t.handles.Keys && t'.byPath == t.byPath && t'.nextHandle == t.nextHandle
            && (forall x :: x in t.handles && x != id ==> t'.handles[x] == t.handles[x])
            && (id in t.handles ==> t'.handles[id] == t.handles[id].(deleteOnClose := flag))
  {
  }

  /** A release by session asks for the handles of the session, one by tree for those of the session and the tree. */
  lemma MatchesMeans(o: OpenFile, tree: nat, session: nat)
    ensures Matches(BySession(session), o) <==> o.session == session
    ensures Matches(ByTree(tree, session), o) <==> o.tree == tree && o.session == session
  {
  }

  /** A bulk release takes out exactly the handles it asks for. */
  lemma DroppedMeans(t: Table, f: Filter)
    ensures var t' := Dropped(t, f);
            && t'.nextHandle == t.nextHandle
            && (forall id :: id in t'.handles <==> id in t.handles && !Matches(f, t.handles[id]))
            && (forall id :: id in t'.handles ==> t'.handles[id] == t.handles[id])
  {
    hide Matches, Staying;
  }

  /** An allocation adds one handle and changes no other. */
  lemma AllocatedMeans(t: Table, o: OpenFile)
    ensures var t' := Allocated(t, o);
            && t'.handles.Keys == t.handles.Keys + {o.id} && t'.handles[o.id] == o
            && (forall x :: x in t.handles && x != o.id ==> t'.handles[x] == t.handles[x])
            && t'.nextHandle == t.nextHandle + 1
  {
  }

  /** Reading asks for FILE_SHARE_READ, writing for FILE_SHARE_WRITE, deleting for FILE_SHARE_DELETE; other rights for nothing. */
  lemma PermitsTable(share: bv32, access: bv32)
    ensures Permits(share, 0x1) <==> share & 0x1 != 0
    ensures Permits(share, 0x2) <==> share & 0x2 != 0
    ensures Permits(share, 0x1_0000) <==> share & 0x4 != 0
    ensures access & 0x1_0003 == 0 ==> Permits(share, access)
    ensures Permits(share, access) <==> Permits(share, access & 0x1) && Permits(share, access & 0x2) && Permits(share, access & 0x1_0000)
  {
  }

  /** The rights that the four generic bits stand for. */
  lemma GenericTable()
    ensures MapGenericAccess(0x8000_0000) == 0x8012_0089
    ensures MapGenericAccess(0x4000_0000) == 0x4010_0116
    ensures MapGenericAccess(0x2000_0000) == 0x2010_00A0
    ensures MapGenericAccess(0x1000_0000) == 0x101F_01FF
  {
  }

  /** Masks without generic bits stand for themselves. */
  lemma SpelledStays(access: bv32)
    requires access & 0xF000_0000 == 0
    ensures MapGenericAccess(access) == access
  {
  }

  // ---- The map itself ----

  class FileHandleMap {
    var handles: map<FileId, OpenFile>
    var byPath: map<string, seq<FileId>>
    var nextHandle: nat

    ghost function State(): Table
      reads this
    {
      Table(handles, byPath, nextHandle)
    }

    ghost predicate Valid()
      reads this
    {
      Indexed(State())
    }

    constructor ()
      ensures Valid() && State() == EMPTY_TABLE
    {
      handles, byPath, nextHandle := map[], map[], 1;
    }

    method Allocate(
      persistent: nat, file: nat, path: string, isDir: bool, access: bv32, share: bv32, tree: nat, session: nat)
      returns (open: OpenFile)
      requires Valid()
      modifies this
      ensures Valid() && open.id !in old(handles)
      ensures open == OpenFile(NextId(old(State()), persistent), file, path, isDir, access, share, tree, session, false)
      ensures State() == Allocated(old(State()), open)
    {
      var id := FileId(persistent, nextHandle);
      nextHandle := nextHandle + 1;
      open := OpenFile(id, file, path, isDir, access, share, tree, session, false);
      handles := handles[id := open];
      var bucket := if path in byPath then byPath[path] else [];
      byPath := byPath[path := bucket + [id]];
      AllocatedIndexed(old(State()), open);
    }

    method GetByTree(id: FileId, tree: nat, session: nat) returns (found: bool)
      ensures found <==> id in handles && handles[id].tree == tree && handles[id].session == session
    {
      found := id in handles && handles[id].tree == tree && handles[id].session == session;
    }

    /** Reports whether a file is left to be closed. */
    method Release(id: FileId) returns (closing: bool)
      requires Valid()
      modifies this
      ensures Valid() && State() == Released(old(State()), id)
      ensures closing == (id in old(handles))
    {
      ReleasedIndexed(State(), id);
      hide Indexed;
      closing := id in handles;
      if closing {
        var path := handles[id].path;
        handles := handles - {id};
        var rest := RemoveFirst(At(byPath, path), id);
        byPath := byPath[path := rest];
        if byPath[path] == [] {
          byPath := byPath - {path};
        }
      }
      assert State() == Released(old(State()), id);
    }

    /** The matching FileIDs are copied, in some order, and then released one by one. */
    method ReleaseByTree(tree: nat, session: nat)
      requires Valid()
      modifies this
      ensures Valid() && State() == Dropped(old(State()), ByTree(tree, session))
    {
      var todo := set id | id in handles && handles[id].tree == tree && handles[id].session == session;
      var released := ReleaseSet(todo);
      OrderOfReleaseIsIrrelevant(old(State()), ByTree(tree, session), released);
    }

    method ReleaseBySession(session: nat)
      requires Valid()
      modifies this
      ensures Valid() && State() == Dropped(old(State()), BySession(session))
    {
      var todo := set id | id in handles && handles[id].session == session;
      var released := ReleaseSet(todo);
      OrderOfReleaseIsIrrelevant(old(State()), BySession(session), released);
    }

    method ReleaseSet(ids: set<FileId>) returns (released: seq<FileId>)
      requires Valid()
      modifies this
      ensures Valid() && State() == ReleasedAll(old(State()), released)
      ensures forall id :: id in released <==> id in ids
    {
      released := [];
      var todo := ids;
      while todo != {}
        invariant Valid() && State() == ReleasedAll(old(State()), released)
        invariant todo <= ids && forall id :: id in released <==> id in ids - todo
        decreases todo
      {
        var id :| id in todo;
        var _ := Release(id);
        ReleasedAllSnoc(old(State()), released, id);
        todo, released := todo - {id}, released + [id];
      }
    }

    method SetDeleteOnClose(id: FileId, flag: bool)
      requires Valid()
      modifies this
      ensures Valid() && State() == Flagged(old(State()), id, flag)
    {
      if id in handles {
        handles := handles[id := handles[id].(deleteOnClose := flag)];
        FlaggedIndexed(old(State()), id, flag);
      }
    }

    method CheckShareAccess(path: string, access: bv32, share: bv32) returns (ok: bool)
      requires Valid()
      ensures ok <==> forall id :: id in handles && handles[id].path == path ==>
                        Permits(handles[id].share, access) && Permits(share, handles[id].access)
    {
      hide Permits;
      ShareAllowedIff(State(), path, access, share);
      var existing := At(byPath, path);
      assert Groups(At(byPath, path), handles, path);
      for i := 0 to |existing|
        invariant forall k :: 0 <= k < i ==>
          existing[k] in handles && Permits(handles[existing[k]].share, access) && Permits(share, handles[existing[k]].access)
      {
        assert existing[i] in existing;
        var o := handles[existing[i]];
        var compatible := CheckShareCompatibility(access, share, o.access, o.share);
        if !compatible {
          return false;
        }
      }
      return true;
    }
  }

  /** The search loop of Release. */
  method RemoveFirst(bucket: seq<FileId>, id: FileId) returns (rest: seq<FileId>)
    ensures rest == Without(bucket, id)
  {
    for i := 0 to |bucket|
      invariant Without(bucket, id) == bucket[..i] + Without(bucket[i..], id)
    {
      assert bucket[i..][1..] == bucket[i + 1..];
      if bucket[i] == id {
        return bucket[..i] + bucket[i + 1..];
      }
    }
    return bucket;
  }

  lemma {:induction false} ReleasedAllSnoc(t: Table, ids: seq<FileId>, id: FileId)
    ensures ReleasedAll(t, ids + [id]) == Released(ReleasedAll(t, ids), id)
    decreases |ids|
  {
    if ids == [] {
      assert [id][1..] == [] && ids + [id] == [id];
    } else {
      ReleasedAllSnoc(Released(t, ids[0]), ids[1..], id);
      assert (ids + [id])[1..] == ids[1..] + [id];
    }
  }
}
