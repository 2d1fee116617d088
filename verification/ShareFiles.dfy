/**
 The file commands against one share: CREATE with its disposition table, CLOSE with delete-on-close,
 WRITE and SET_INFO with their gates. The backing file system is a map from names to nodes; which of its
 calls fail is left to the environment.
 */
module ShareFiles {
  import opened Bytes
  import opened HandleMap
  import opened Wrappers

  datatype Node = Directory | Regular(data: seq<byte>)

  datatype Share = Share(table: Table, files: map<string, Node>)

  datatype Status =
    | SUCCESS
    | INVALID_PARAMETER
    | OBJECT_NAME_NOT_FOUND
    | OBJECT_NAME_COLLISION
    | ACCESS_DENIED
    | SHARING_VIOLATION
    | NOT_A_DIRECTORY
    | FILE_IS_A_DIRECTORY
    | FILE_CLOSED
    | USER_SESSION_DELETED
    | NETWORK_NAME_DELETED
    | BAD_NETWORK_NAME
    | LOGON_FAILURE
    | MORE_PROCESSING_REQUIRED
    /** A status that stands for an error of the backing file system. */
    | FILE_SYSTEM_ERROR

  datatype Action = Superseded | Opened | Created | Overwritten

  datatype Reply = Reply(status: Status, action: Option<Action>, id: Option<FileId>)

  function Failure(status: Status): Reply {
    Reply(status, None, None)
  }

  const OK_REPLY := Reply(SUCCESS, None, None)

  const FILE_SUPERSEDE: nat := 0
  const FILE_OPEN: nat := 1
  const FILE_CREATE: nat := 2
  const FILE_OPEN_IF: nat := 3
  const FILE_OVERWRITE: nat := 4
  const FILE_OVERWRITE_IF: nat := 5

  const FILE_DIRECTORY_FILE: bv32 := 0x1
  const FILE_NON_DIRECTORY_FILE: bv32 := 0x40
  const FILE_DELETE_ON_CLOSE: bv32 := 0x1000

  datatype CreateRequest = CreateRequest(name: string, access: bv32, share: bv32, disposition: nat, options: bv32)

  /** Which of the calls into the backing file system fail. */
  datatype Faults = Faults(openReadWrite: bool, openReadOnly: bool, mkdir: bool, openCreate: bool, stat: bool)

  /** Who sends the command, through a tree that may be read-only. */
  datatype Caller = Caller(tree: nat, session: nat, readOnly: bool)

  // ---- CREATE: what it means ----

  /** Backslashes become slashes, one leading slash goes, and the empty name is the root. */
  function FileName(name: string): (r: string)
    ensures r != "" && forall i :: 0 <= i < |r| ==> r[i] != '\\'
  {
    var slashed := seq(|name|, i requires 0 <= i < |name| => if name[i] == '\\' then '/' else name[i]);
    var trimmed := if slashed != [] && slashed[0] == '/' then slashed[1..] else slashed;
    if trimmed == "" then "/" else trimmed
  }

  predicate WantsDirectory(r: CreateRequest) {
    r.options & FILE_DIRECTORY_FILE != 0
  }

  predicate WantsFile(r: CreateRequest) {
    r.options & FILE_NON_DIRECTORY_FILE != 0
  }

  /** The disposition table of section 2.2.13 of MS-SMB2: what is to be done to an existing or missing name. */
  function Wanted(disposition: nat, exists_: bool): Option<Action> {
    match disposition
    case 0 => Some(if exists_ then Superseded else Created)
    case 1 => if exists_ then Some(Opened) else None
    case 2 => if exists_ then None else Some(Created)
    case 3 => Some(if exists_ then Opened else Created)
    case 4 => if exists_ then Some(Overwritten) else None
    case 5 => Some(if exists_ then Overwritten else Created)
    case _ => None
  }

  /** Why a request is turned down before the file system is asked to change anything. */
  function Refusal(files: map<string, Node>, readOnly: bool, r: CreateRequest, name: string): Status {
    var here := name in files;
    var directory := here && files[name].Directory?;
    if r.disposition > 5 then INVALID_PARAMETER
    else
      match Wanted(r.disposition, here)
      case None => if here then OBJECT_NAME_COLLISION else OBJECT_NAME_NOT_FOUND
      case Some(Opened) =>
        if WantsDirectory(r) && !directory then NOT_A_DIRECTORY
        else if WantsFile(r) && directory then FILE_IS_A_DIRECTORY
        else SUCCESS
      case Some(_) => if readOnly then ACCESS_DENIED else if directory then FILE_IS_A_DIRECTORY else SUCCESS
  }

  /** Only FILE_CREATE and FILE_OPEN_IF make directories. */
  predicate MakesDirectory(r: CreateRequest) {
    WantsDirectory(r) && r.disposition in {FILE_CREATE, FILE_OPEN_IF}
  }

  /** The files after the attempt, and whether it gave an open file. */
  function Attempt(files: map<string, Node>, r: CreateRequest, name: string, action: Action, faults: Faults)
    : (map<string, Node>, bool)
  {
    if action.Opened? then (files, !(faults.openReadWrite && faults.openReadOnly))
    else if action.Created? && MakesDirectory(r) then
      if faults.mkdir then (files, false) else (files[name := Directory], !faults.openReadOnly)
    else if faults.openCreate then (files, false)
    else (files[name := Regular([])], true)
  }

  function NewHandle(t: Table, c: Caller, persistent: nat, r: CreateRequest, name: string, isDir: bool): OpenFile {
    OpenFile(NextId(t, persistent), t.nextHandle, name, isDir, r.access, r.share, c.tree, c.session,
             r.options & FILE_DELETE_ON_CLOSE != 0)
  }

  function CreateOn(s: Share, c: Caller, persistent: nat, r: CreateRequest, faults: Faults): (Share, Reply) {
    var name := FileName(r.name);
    var refusal := Refusal(s.files, c.readOnly, r, name);
    if !ShareAllowed(s.table, name, r.access, r.share) then (s, Failure(SHARING_VIOLATION))
    else if refusal != SUCCESS then (s, Failure(refusal))
    else
      var action := Wanted(r.disposition, name in s.files).value;
      var (files, ok) := Attempt(s.files, r, name, action, faults);
      if !ok || faults.stat then (s.(files := files), Failure(FILE_SYSTEM_ERROR))
      else
        var o := NewHandle(s.table, c, persistent, r, name, name in files && files[name].Directory?);
        (Share(Allocated(s.table, o), files), Reply(SUCCESS, Some(action), Some(o.id)))
  }

  /** What a client may conclude from the reported action. */
  ghost predicate ActionHolds(before: map<string, Node>, after: map<string, Node>, name: string, action: Action) {
    match action
    case Created =>
      && name !in before
      && (after == before[name := Directory] || after == before[name := Regular([])])
    case Opened => name in before && after == before
    case _ => name in before && before[name].Regular? && after == before[name := Regular([])]
  }

  /**
   A successful CREATE reports what happened: CREATED exactly when the name was absent, OVERWRITTEN or
   SUPERSEDED when an existing file was emptied, OPENED when nothing changed; the new handle is the only one.
   */
  lemma CreateMeans(s: Share, c: Caller, persistent: nat, r: CreateRequest, faults: Faults)
    requires CreateOn(s, c, persistent, r, faults).1.status == SUCCESS
    ensures var (s', reply) := CreateOn(s, c, persistent, r, faults);
            var name := FileName(r.name);
            && reply.action.Some? && reply.action == Wanted(r.disposition, name in s.files)
            && ActionHolds(s.files, s'.files, name, reply.action.value)
            && (reply.action.value.Created? <==> name !in s.files)
            && (c.readOnly ==> reply.action.value.Opened?)
            && reply.id == Some(NextId(s.table, persistent))
            && s'.table.handles.Keys == s.table.handles.Keys + {reply.id.value}
            && s'.table.handles[reply.id.value].path == name
            && BelongsTo(s'.table.handles[reply.id.value], c.tree, c.session)
  {
  }

  /** A failed CREATE opens nothing, and changes files only when the file system failed half way, at that name alone. */
  lemma CreateFails(s: Share, c: Caller, persistent: nat, r: CreateRequest, faults: Faults)
    requires CreateOn(s, c, persistent, r, faults).1.status != SUCCESS
    ensures var (s', reply) := CreateOn(s, c, persistent, r, faults);
            var name := FileName(r.name);
            && s'.table == s.table && reply == Failure(reply.status)
            && (s'.files != s.files ==>
                  && reply.status == FILE_SYSTEM_ERROR && !c.readOnly
                  && s'.files - {name} == s.files - {name} && (faults.stat || (faults.openReadOnly && MakesDirectory(r))))
  {
  }

  /** With a file system that does not fail, exactly these requests succeed. */
  lemma CreateSucceedsIff(s: Share, c: Caller, persistent: nat, r: CreateRequest)
    ensures var name := FileName(r.name);
            var wanted := Wanted(r.disposition, name in s.files);
            CreateOn(s, c, persistent, r, Faults(false, false, false, false, false)).1.status == SUCCESS <==>
              && ShareAllowed(s.table, name, r.access, r.share)
              && wanted.Some?
              && (c.readOnly ==> wanted.value.Opened?)
              && (name in s.files && wanted.value.Opened? && WantsDirectory(r) ==> s.files[name].Directory?)
              && (name in s.files && (wanted.value.Opened? ==> WantsFile(r)) ==> s.files[name].Regular?)
  {
  }

  /** The name without one leading separator, with slashes for backslashes; the root if nothing is left. */
  lemma FileNameMeans(name: string)
    ensures var k := if name != "" && (name[0] == '/' || name[0] == '\\') then 1 else 0;
            var r := FileName(name);
            && (|name| == k ==> r == "/")
            && (|name| > k ==>
                  && |r| == |name| - k
                  && forall i :: 0 <= i < |r| ==> r[i] == if name[i + k] == '\\' then '/' else name[i + k])
  {
  }

  /**
   The new handle carries what the request asked for, on a node of the kind it asked for, and no other
   handle changes.
   */
  lemma NewHandleMeans(s: Share, c: Caller, persistent: nat, r: CreateRequest, faults: Faults)
    requires CreateOn(s, c, persistent, r, faults).1.status == SUCCESS
    ensures var (s', reply) := CreateOn(s, c, persistent, r, faults);
            var name := FileName(r.name);
            && reply.id.Some? && reply.action.Some? && reply.id.value in s'.table.handles && name in s'.files
            && var o := s'.table.handles[reply.id.value];
               && o.access == r.access && o.share == r.share && o.path == name
               && o.tree == c.tree && o.session == c.session
               && (o.deleteOnClose <==> r.options & 0x1000 != 0)
               && (o.isDir <==> s'.files[name].Directory?)
               && (reply.action.value.Created? ==>
                     (s'.files[name].Directory? <==> r.options & 0x1 != 0 && (r.disposition == 2 || r.disposition == 3)))
               && (forall id :: id in s.table.handles && id != reply.id.value ==>
                     id in s'.table.handles && s'.table.handles[id] == s.table.handles[id])
  {
  }

  /** Does the disposition act on an existing name by changing it? */
  predicate Replaces(disposition: nat) {
    disposition == 0 || disposition == 4 || disposition == 5
  }

  /** The status of every CREATE that does not succeed. */
  lemma CreateStatusIff(s: Share, c: Caller, persistent: nat, r: CreateRequest, faults: Faults)
    ensures var name, d := FileName(r.name), r.disposition;
            var here := name in s.files;
            var dir := here && s.files[name].Directory?;
            var status := CreateOn(s, c, persistent, r, faults).1.status;
            var allowed := ShareAllowed(s.table, name, r.access, r.share);
            && (status == SHARING_VIOLATION <==> !allowed)
            && (status == INVALID_PARAMETER <==> allowed && d > 5)
            && (status == OBJECT_NAME_NOT_FOUND <==> allowed && !here && (d == 1 || d == 4))
            && (status == OBJECT_NAME_COLLISION <==> allowed && here && d == 2)
            && (status == ACCESS_DENIED <==>
                  allowed && c.readOnly && ((!here && (d == 2 || d == 3)) || (here && d == 4) || d == 0 || d == 5))
            && (status == NOT_A_DIRECTORY <==> allowed && here && !dir && (d == 1 || d == 3) && r.options & 0x1 != 0)
            && (status == FILE_IS_A_DIRECTORY <==>
                  allowed && dir && (((d == 1 || d == 3) && r.options & 0x40 != 0) || (Replaces(d) && !c.readOnly)))
  {
    hide FileName, ShareAllowed;
  }

  // ---- CLOSE, WRITE, SET_INFO ----

  predicate Opens(t: Table, c: Caller, id: FileId) {
    id in t.handles && BelongsTo(t.handles[id], c.tree, c.session)
  }

  function CloseOn(s: Share, c: Caller, id: FileId, removeFails: bool): (Share, Reply) {
    if !Opens(s.table, c, id) then (s, Failure(FILE_CLOSED))
    else
      var o := s.table.handles[id];
      var files := if o.deleteOnClose && !removeFails then s.files - {o.path} else s.files;
      (Share(Released(s.table, id), files), OK_REPLY)
  }

  /** The file behind a handle, unless its name was deleted meanwhile. */
  function Rewritten(files: map<string, Node>, path: string, data: seq<byte>): map<string, Node> {
    if path in files && files[path].Regular? then files[path := Regular(data)] else files
  }

  predicate MayWrite(access: bv32) {
    MapGenericAccess(access) & (FILE_WRITE_DATA | FILE_APPEND_DATA) != 0
  }

  function DataOf(files: map<string, Node>, path: string): seq<byte> {
    if path in files && files[path].Regular? then files[path].data else []
  }

  /** A write behind the end fills the gap with zeros; writing nothing changes nothing. */
  function WrittenAt(old_: seq<byte>, offset: nat, data: seq<byte>): seq<byte> {
    if data == [] then old_
    else
      var head := if offset <= |old_| then old_[..offset] else old_ + Zeros(offset - |old_|);
      head + data + (if offset + |data| <= |old_| then old_[offset + |data|..] else [])
  }

  /** A written file holds the data where it was written, and elsewhere what it held, or zeros. */
  lemma WrittenMeans(old_: seq<byte>, offset: nat, data: seq<byte>)
    requires data != []
    ensures var r := WrittenAt(old_, offset, data);
            && |r| == (if |old_| > offset + |data| then |old_| else offset + |data|)
            && forall i :: 0 <= i < |r| ==>
                 r[i] == if offset <= i < offset + |data| then data[i - offset] else if i < |old_| then old_[i] else 0
  {
  }

  function Resized(old_: seq<byte>, size: nat): seq<byte> {
    if size <= |old_| then old_[..size] else old_ + Zeros(size - |old_|)
  }

  /** `cut` is how much reached the file before the file system failed, if it did. */
  function WriteOn(s: Share, c: Caller, id: FileId, offset: nat, data: seq<byte>, cut: Option<nat>): (Share, Reply) {
    if !Opens(s.table, c, id) then (s, Failure(FILE_CLOSED))
    else if c.readOnly || !MayWrite(s.table.handles[id].access) then (s, Failure(ACCESS_DENIED))
    else
      var path := s.table.handles[id].path;
      var done := if cut.Some? && cut.value < |data| then data[..cut.value] else data;
      (s.(files := Rewritten(s.files, path, WrittenAt(DataOf(s.files, path), offset, done))),
       if cut.Some? then Failure(FILE_SYSTEM_ERROR) else OK_REPLY)
  }

  datatype Info = Disposition(deleteOnClose: bool) | EndOfFile(size: nat, fails: bool)

  function SetInfoOn(s: Share, c: Caller, id: FileId, info: Info): (Share, Reply) {
    if !Opens(s.table, c, id) then (s, Failure(FILE_CLOSED))
    else if c.readOnly then (s, Failure(ACCESS_DENIED))
    else
      match info
      case Disposition(flag) => (s.(table := Flagged(s.table, id, flag)), OK_REPLY)
      case EndOfFile(size, fails) =>
        var path := s.table.handles[id].path;
        if fails then (s, Failure(ACCESS_DENIED))
        else (s.(files := Rewritten(s.files, path, Resized(DataOf(s.files, path), size))), OK_REPLY)
  }

  // ---- Any command ----

  datatype Command =
    | Create(persistent: nat, request: CreateRequest, faults: Faults)
    | Close(id: FileId, removeFails: bool)
    | Write(id: FileId, offset: nat, data: seq<byte>, cut: Option<nat>)
    | SetInfo(id: FileId, info: Info)

  function Apply(s: Share, c: Caller, m: Command): (Share, Reply) {
    match m
    case Create(persistent, r, faults) => CreateOn(s, c, persistent, r, faults)
    case Close(id, removeFails) => CloseOn(s, c, id, removeFails)
    case Write(id, offset, data, cut) => WriteOn(s, c, id, offset, data, cut)
    case SetInfo(id, info) => SetInfoOn(s, c, id, info)
  }

  /** Every command goes to its own handler. */
  lemma ApplyIs(s: Share, c: Caller, id: FileId)
    ensures forall p, r, f :: Apply(s, c, Create(p, r, f)) == CreateOn(s, c, p, r, f)
    ensures forall b :: Apply(s, c, Close(id, b)) == CloseOn(s, c, id, b)
    ensures forall offset, data, cut :: Apply(s, c, Write(id, offset, data, cut)) == WriteOn(s, c, id, offset, data, cut)
    ensures forall info :: Apply(s, c, SetInfo(id, info)) == SetInfoOn(s, c, id, info)
  {
    hide CreateOn, CloseOn, WriteOn, SetInfoOn;
  }

  /** The table stays indexed and safe, and its handles are old ones or the caller's own. */
  ghost predicate Keeps(t: Table, c: Caller, t': Table) {
    && Indexed(t') && SharingSafe(t')
    && (forall id :: id in t'.handles ==>
          || BelongsTo(t'.handles[id], c.tree, c.session)
          || (id in t.handles && t.handles[id] == t'.handles[id]))
  }

  lemma CreateKeeps(s: Share, c: Caller, persistent: nat, r: CreateRequest, faults: Faults)
    requires Indexed(s.table) && SharingSafe(s.table)
    ensures Keeps(s.table, c, CreateOn(s, c, persistent, r, faults).0.table)
  {
    hide Indexed, SharingSafe;
    var (s', reply) := CreateOn(s, c, persistent, r, faults);
    if reply.status == SUCCESS {
      var o := s'.table.handles[NextId(s.table, persistent)];
      StepSafe(s.table, TryOpen(o));
      assert s'.table == HandleMap.Step(s.table, TryOpen(o));
    }
  }

  lemma CloseKeeps(s: Share, c: Caller, id: FileId, removeFails: bool)
    requires Indexed(s.table) && SharingSafe(s.table)
    ensures Keeps(s.table, c, CloseOn(s, c, id, removeFails).0.table)
  {
    hide Indexed, SharingSafe, Without;
    StepSafe(s.table, Release(id));
  }

  lemma SetInfoKeeps(s: Share, c: Caller, id: FileId, info: Info)
    requires Indexed(s.table) && SharingSafe(s.table)
    ensures Keeps(s.table, c, SetInfoOn(s, c, id, info).0.table)
  {
    hide Indexed, SharingSafe;
    if info.Disposition? {
      StepSafe(s.table, SetDeleteOnClose(id, info.deleteOnClose));
    }
  }

  lemma ApplyKeeps(s: Share, c: Caller, m: Command)
    requires Indexed(s.table) && SharingSafe(s.table)
    ensures Keeps(s.table, c, Apply(s, c, m).0.table)
  {
    hide Indexed, SharingSafe, CreateOn, CloseOn, SetInfoOn;
    match m
    case Create(persistent, r, faults) => CreateKeeps(s, c, persistent, r, faults);
    case Close(id, removeFails) => CloseKeeps(s, c, id, removeFails);
    case Write(_, _, _, _) =>
    case SetInfo(id, info) => SetInfoKeeps(s, c, id, info);
  }

  // ---- Read-only trees ----

  /** Is this the CLOSE of a delete-on-close handle, of a file that can be removed? */
  predicate DeletesOnClose(s: Share, c: Caller, m: Command) {
    && m.Close? && Opens(s.table, c, m.id) && !m.removeFails
    && s.table.handles[m.id].deleteOnClose && s.table.handles[m.id].path in s.files
  }

  /** Through a read-only tree the files change in one way only: CLOSE does not look at the tree before it deletes. */
  lemma ReadOnlyChangesIff(s: Share, c: Caller, m: Command)
    requires c.readOnly
    ensures Apply(s, c, m).0.files != s.files <==> DeletesOnClose(s, c, m)
  {
  }

  /** With FILE_DELETE_ON_CLOSE, opening and closing a file through a read-only tree deletes it. */
  lemma ReadOnlyLosesFile()
    ensures var c := Caller(1, 7, true);
            var open := Create(0, CreateRequest("f", DELETE, 0, FILE_OPEN, FILE_DELETE_ON_CLOSE), Faults(false, false, false, false, false));
            var s := Share(EMPTY_TABLE, map["f" := Regular([])]);
            var (s1, reply) := Apply(s, c, open);
            reply.id == Some(FileId(0, 1)) && Apply(s1, c, Close(FileId(0, 1), false)).0.files == map[]
  {
    var c := Caller(1, 7, true);
    var s := Share(EMPTY_TABLE, map["f" := Regular([])]);
    var r := CreateRequest("f", DELETE, 0, FILE_OPEN, FILE_DELETE_ON_CLOSE);
    assert FileName("f") == "f";
    var s1 := CreateOn(s, c, 0, r, Faults(false, false, false, false, false)).0;
    var o := OpenFile(FileId(0, 1), 1, "f", false, DELETE, 0, 1, 7, true);
    assert s1.table.handles == map[o.id := o] && s1.files == s.files;
    assert Opens(s1.table, c, o.id);
    assert s.files - {"f"} == map[];
  }

  ghost predicate NoDeletes(t: Table) {
    forall id :: id in t.handles ==> !t.handles[id].deleteOnClose
  }

  predicate AsksToDelete(m: Command) {
    m.Create? && m.request.options & FILE_DELETE_ON_CLOSE != 0
  }

  /**
   CLOSE succeeds exactly for the caller's own handle, which then leaves the table alone; a file goes
   exactly when that handle had delete-on-close, the removal succeeds and the path is there, and no other goes.
   */
  lemma CloseMeans(s: Share, c: Caller, id: FileId, removeFails: bool)
    ensures var (s', reply) := CloseOn(s, c, id, removeFails);
            && (reply.status == SUCCESS <==> Opens(s.table, c, id))
            && (reply.status != SUCCESS ==> reply.status == FILE_CLOSED && s' == s)
            && (Opens(s.table, c, id) ==>
                  var o := s.table.handles[id];
                  && s'.table.handles == s.table.handles - {id} && s'.table.nextHandle == s.table.nextHandle
                  && (s'.files != s.files <==> o.deleteOnClose && !removeFails && o.path in s.files)
                  && (s'.files != s.files ==> s'.files == s.files - {o.path}))
  {
    hide Without;
    if Opens(s.table, c, id) {
      var path := s.table.handles[id].path;
      assert path in s.files ==> path !in s.files - {path};
      assert path !in s.files ==> s.files - {path} == s.files;
    }
  }

  /** A resized file has the length asked for, and holds what it held, or zeros. */
  lemma ResizedMeans(old_: seq<byte>, size: nat)
    ensures var r := Resized(old_, size);
            |r| == size && forall i :: 0 <= i < size ==> r[i] == if i < |old_| then old_[i] else 0
  {
  }

  /** SET_INFO: whose handle it takes, through which tree, and what it then changes. */
  lemma SetInfoMeans(s: Share, c: Caller, id: FileId, info: Info)
    ensures var (s', reply) := SetInfoOn(s, c, id, info);
            && (reply.status == FILE_CLOSED <==> !Opens(s.table, c, id))
            && (reply.status == SUCCESS <==> Opens(s.table, c, id) && !c.readOnly && !(info.EndOfFile? && info.fails))
            && (reply.status != SUCCESS ==> s' == s)
            && (reply.status == SUCCESS && info.Disposition? ==>
                  && s'.files == s.files && s'.table.handles.Keys == s.table.handles.Keys
                  && s'.table.handles[id] == s.table.handles[id].(deleteOnClose := info.deleteOnClose)
                  && (forall x :: x in s.table.handles && x != id ==> s'.table.handles[x] == s.table.handles[x]))
            && (reply.status == SUCCESS && info.EndOfFile? ==>
                  var path := s.table.handles[id].path;
                  && s'.table == s.table && s'.files - {path} == s.files - {path}
                  && (path in s.files && s.files[path].Regular? ==>
                        path in s'.files && s'.files[path] == Regular(Resized(s.files[path].data, info.size))))
  {
    hide Resized;
  }

  /** A write that fails half way has written what it got to, and no more. */
  lemma WriteCut(s: Share, c: Caller, id: FileId, offset: nat, data: seq<byte>, k: nat)
    requires WriteGate(s, c, id) && k <= |data|
    requires s.table.handles[id].path in s.files && s.files[s.table.handles[id].path].Regular?
    ensures var path := s.table.handles[id].path;
            var (s', reply) := WriteOn(s, c, id, offset, data, Some(k));
            && reply.status == FILE_SYSTEM_ERROR
            && path in s'.files && s'.files[path] == Regular(WrittenAt(s.files[path].data, offset, data[..k]))
  {
    hide WrittenAt, MayWrite;
    assert k == |data| ==> data[..k] == data;
  }

  predicate WriteGate(s: Share, c: Caller, id: FileId) {
    Opens(s.table, c, id) && !c.readOnly && MayWrite(s.table.handles[id].access)
  }

  /**
   WRITE succeeds exactly for the caller's own handle, opened for writing or appending, through a writable
   tree, when the file system does not fail; it then leaves the data at the offset. Otherwise nothing but
   the file behind such a handle can have changed.
   */
  lemma WriteMeans(s: Share, c: Caller, id: FileId, offset: nat, data: seq<byte>, cut: Option<nat>)
    ensures var (s', reply) := WriteOn(s, c, id, offset, data, cut);
            && (reply.status == SUCCESS <==> WriteGate(s, c, id) && cut.None?)
            && (s'.files != s.files ==> WriteGate(s, c, id))
            && s'.table == s.table
            && (WriteGate(s, c, id) ==>
                  var path := s.table.handles[id].path;
                  && s'.files - {path} == s.files - {path}
                  && (reply.status == SUCCESS && path in s.files && s.files[path].Regular? ==>
                        path in s'.files && s'.files[path] == Regular(WrittenAt(s.files[path].data, offset, data))))
  {
    hide WrittenAt, MayWrite;
  }

  /** Write access is asked for by name or through GENERIC_WRITE or GENERIC_ALL. */
  lemma MayWriteIff(access: bv32)
    ensures MayWrite(access) <==> access & 0x5000_0006 != 0
  {
  }

  lemma ReadOnlyStays(s: Share, c: Caller, m: Command)
    requires c.readOnly && NoDeletes(s.table) && !AsksToDelete(m)
    ensures Apply(s, c, m).0.files == s.files && NoDeletes(Apply(s, c, m).0.table)
  {
  }

  // ---- The share as the handlers see it ----

  class ServedShare {
    const handles: FileHandleMap
    var files: map<string, Node>

    ghost function State(): Share
      reads this, handles
    {
      Share(handles.State(), files)
    }

    constructor (handles: FileHandleMap, files: map<string, Node>)
      ensures this.handles == handles && this.files == files
    {
      this.handles, this.files := handles, files;
    }

    /** The backing file system's OpenFile. */
    method OpenFile(name: string, create: bool, truncate: bool, fails: bool) returns (ok: bool)
      modifies this`files
      ensures ok == (!fails && (name in old(files) || create))
      ensures files == if !ok || (name in old(files) && !(truncate && old(files)[name].Regular?)) then old(files)
                       else old(files)[name := Regular([])]
    {
      ok := !fails && (name in files || create);
      if ok && (name !in files || (truncate && files[name].Regular?)) {
        files := files[name := Regular([])];
      }
    }

    method Mkdir(name: string, fails: bool) returns (ok: bool)
      modifies this`files
      ensures ok == (!fails && name !in old(files))
      ensures files == if ok then old(files)[name := Directory] else old(files)
    {
      ok := !fails && name !in files;
      if ok {
        files := files[name := Directory];
      }
    }

    /** Read-write, or else read-only. */
    method OpenExisting(name: string, faults: Faults) returns (ok: bool)
      requires name in files
      modifies this`files
      ensures files == old(files) && ok == !(faults.openReadWrite && faults.openReadOnly)
    {
      ok := OpenFile(name, false, false, faults.openReadWrite);
      if !ok {
        ok := OpenFile(name, false, false, faults.openReadOnly);
      }
    }

    method MakeNew(name: string, wantDir: bool, faults: Faults) returns (ok: bool)
      requires name !in files
      modifies this`files
      ensures wantDir ==> files == (if faults.mkdir then old(files) else old(files)[name := Directory])
                          && ok == (!faults.mkdir && !faults.openReadOnly)
      ensures !wantDir ==> files == (if faults.openCreate then old(files) else old(files)[name := Regular([])])
                           && ok == !faults.openCreate
    {
      if wantDir {
        ok := Mkdir(name, faults.mkdir);
        if ok {
          ok := OpenFile(name, false, false, faults.openReadOnly);
        }
      } else {
        ok := OpenFile(name, true, false, faults.openCreate);
      }
    }

    /** The switch on the disposition, in the handler's order of tests. */
    method Dispose(name: string, readOnly: bool, r: CreateRequest, faults: Faults)
      returns (status: Status, action: Action, ok: bool)
      modifies this`files
      ensures status == Refusal(old(files), readOnly, r, name)
      ensures status != SUCCESS ==> files == old(files)
      ensures status == SUCCESS ==> Some(action) == Wanted(r.disposition, name in old(files))
                                    && (files, ok) == Attempt(old(files), r, name, action, faults)
    {
      var wantDir, wantFile := WantsDirectory(r), WantsFile(r);
      var existed := name in files;
      var isDir := existed && files[name].Directory?;
      action, ok := Opened, false;
      if r.disposition == FILE_OPEN {
        if !existed {
          return OBJECT_NAME_NOT_FOUND, action, ok;
        }
        if wantDir && !isDir {
          return NOT_A_DIRECTORY, action, ok;
        }
        if wantFile && isDir {
          return FILE_IS_A_DIRECTORY, action, ok;
        }
        ok := OpenExisting(name, faults);
      } else if r.disposition == FILE_CREATE {
        if existed {
          return OBJECT_NAME_COLLISION, action, ok;
        }
        if readOnly {
          return ACCESS_DENIED, action, ok;
        }
        ok := MakeNew(name, wantDir, faults);
        action := Created;
      } else if r.disposition == FILE_OPEN_IF {
        if existed {
          if wantDir && !isDir {
            return NOT_A_DIRECTORY, action, ok;
          }
          if wantFile && isDir {
            return FILE_IS_A_DIRECTORY, action, ok;
          }
          ok := OpenExisting(name, faults);
        } else {
          if readOnly {
            return ACCESS_DENIED, action, ok;
          }
          ok := MakeNew(name, wantDir, faults);
          action := Created;
        }
      } else if r.disposition == FILE_OVERWRITE {
        if !existed {
          return OBJECT_NAME_NOT_FOUND, action, ok;
        }
        if readOnly {
          return ACCESS_DENIED, action, ok;
        }
        if isDir {
          return FILE_IS_A_DIRECTORY, action, ok;
        }
        ok := OpenFile(name, false, true, faults.openCreate);
        action := Overwritten;
      } else if r.disposition == FILE_OVERWRITE_IF || r.disposition == FILE_SUPERSEDE {
        if readOnly {
          return ACCESS_DENIED, action, ok;
        }
        if existed && isDir {
          return FILE_IS_A_DIRECTORY, action, ok;
        }
        ok := OpenFile(name, true, true, faults.openCreate);
        action := if !existed then Created else if r.disposition == FILE_SUPERSEDE then Superseded else Overwritten;
      } else {
        return INVALID_PARAMETER, action, ok;
      }
      return SUCCESS, action, ok;
    }

    method HandleCreate(c: Caller, persistent: nat, r: CreateRequest, faults: Faults) returns (reply: Reply)
      requires handles.Valid()
      modifies this`files, handles
      ensures handles.Valid()
      ensures (State(), reply) == CreateOn(old(State()), c, persistent, r, faults)
    {
      hide Indexed, Refusal, Attempt, FileName, Permits, WantsDirectory, WantsFile;
      var name := FileName(r.name);
      ShareAllowedIff(handles.State(), name, r.access, r.share);
      var allowed := handles.CheckShareAccess(name, r.access, r.share);
      if !allowed {
        return Failure(SHARING_VIOLATION);
      }
      var status, action, ok := Dispose(name, c.readOnly, r, faults);
      if status != SUCCESS {
        return Failure(status);
      }
      if !ok || faults.stat {
        return Failure(FILE_SYSTEM_ERROR);
      }
      var isDir := name in files && files[name].Directory?;
      var open := handles.Allocate(persistent, handles.nextHandle, name, isDir, r.access, r.share, c.tree, c.session);
      if r.options & FILE_DELETE_ON_CLOSE != 0 {
        handles.SetDeleteOnClose(open.id, true);
      }
      ghost var o := NewHandle(old(handles.State()), c, persistent, r, name, isDir);
      assert handles.handles == old(handles.handles)[o.id := o];
      assert handles.State() == Allocated(old(handles.State()), o);
      return Reply(SUCCESS, Some(action), Some(open.id));
    }

    method HandleClose(c: Caller, id: FileId, removeFails: bool) returns (reply: Reply)
      requires handles.Valid()
      modifies this`files, handles
      ensures handles.Valid()
      ensures (State(), reply) == CloseOn(old(State()), c, id, removeFails)
    {
      var found := handles.GetByTree(id, c.tree, c.session);
      if !found {
        return Failure(FILE_CLOSED);
      }
      var deleteOnClose, path := handles.handles[id].deleteOnClose, handles.handles[id].path;
      var _ := handles.Release(id);
      if deleteOnClose && !removeFails {
        files := files - {path};
      }
      return OK_REPLY;
    }

    /** File.Write after a seek. */
    method WriteFile(path: string, offset: nat, data: seq<byte>, cut: Option<nat>) returns (ok: bool)
      modifies this`files
      ensures ok == cut.None?
      ensures files == Rewritten(old(files), path, WrittenAt(DataOf(old(files), path), offset,
                                   if cut.Some? && cut.value < |data| then data[..cut.value] else data))
    {
      var done := if cut.Some? && cut.value < |data| then data[..cut.value] else data;
      if path in files && files[path].Regular? {
        files := files[path := Regular(WrittenAt(files[path].data, offset, done))];
      }
      ok := cut.None?;
    }

    method HandleWrite(c: Caller, id: FileId, offset: nat, data: seq<byte>, cut: Option<nat>) returns (reply: Reply)
      requires handles.Valid()
      modifies this`files
      ensures (State(), reply) == WriteOn(old(State()), c, id, offset, data, cut)
    {
      hide WrittenAt;
      var found := handles.GetByTree(id, c.tree, c.session);
      if !found {
        return Failure(FILE_CLOSED);
      }
      if c.readOnly {
        return Failure(ACCESS_DENIED);
      }
      var access := MapGenericAccess(handles.handles[id].access);
      if access & (FILE_WRITE_DATA | FILE_APPEND_DATA) == 0 {
        return Failure(ACCESS_DENIED);
      }
      var ok := WriteFile(handles.handles[id].path, offset, data, cut);
      return if ok then OK_REPLY else Failure(FILE_SYSTEM_ERROR);
    }

    method HandleSetInfo(c: Caller, id: FileId, info: Info) returns (reply: Reply)
      requires handles.Valid()
      modifies this`files, handles
      ensures handles.Valid()
      ensures (State(), reply) == SetInfoOn(old(State()), c, id, info)
    {
      var found := handles.GetByTree(id, c.tree, c.session);
      if !found {
        return Failure(FILE_CLOSED);
      }
      if c.readOnly {
        return Failure(ACCESS_DENIED);
      }
      match info {
        case Disposition(flag) =>
          handles.SetDeleteOnClose(id, flag);
        case EndOfFile(size, fails) =>
          if fails {
            return Failure(ACCESS_DENIED);
          }
          var path := handles.handles[id].path;
          if path in files && files[path].Regular? {
            files := files[path := Regular(Resized(files[path].data, size))];
          }
      }
      return OK_REPLY;
    }
  }
}
