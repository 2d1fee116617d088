/**
 The client file system: every metadata operation goes through path validation and
 normalisation, consults the cache, asks the backend, and stores or invalidates.
 */
module CachedFileSystem {
  import opened Backend
  import M = MetadataCache
  import P = Paths

  type MetaCache = M.Cache<seq<FileInfo>, FileInfo>

  datatype Op =
    | Stat(name: string)
    | ReadDir(name: string)
    | Mkdir(name: string, perm: nat)
    | Remove(name: string)
    | Rename(name: string, newName: string)
    | Chmod(name: string, mode: nat)
    | Chtimes(name: string, mtime: int)

  datatype Answer = Info(info: FileInfo) | Entries(entries: seq<FileInfo>) | Done | Failed(error: Error)

  /** One call at one moment. */
  datatype Call = Call(op: Op, now: int)

  datatype Sys = Sys(cache: MetaCache, files: Files)

  const EMPTY_CACHE: MetaCache := M.Cache(map[], map[], [])

  /** The key under which the backend finds a normalised path: it goes out in SMB form and is cleaned again. */
  function Key(p: string): Path {
    P.FromSmbPath(P.ToSmbPath(p))
  }

  // ---- One call ----

  ghost function StatStep(cfg: M.Config, s: Sys, p: string, now: int): (Sys, Answer) {
    match M.GetStat(cfg, s.cache, p, now)
    case Some(info) => (s, Info(info))
    case None =>
      match Backend.Stat(s.files, Key(p))
      case Err(e) => (s, Failed(e))
      case Ok(d) =>
        var info := InfoOf(d, Base(p));
        (s.(cache := M.PutStat(cfg, s.cache, p, info, now)), Info(info))
  }

  /** Opening, statting and listing a directory; an empty listing surfaces as end of file and is not cached. */
  ghost function ReadDirStep(cfg: M.Config, s: Sys, p: string, now: int): (Sys, Answer) {
    match M.GetDir(cfg, s.cache, p, now)
    case Some(entries) => (s, Entries(entries))
    case None =>
      match Backend.Stat(s.files, Key(p))
      case Err(e) => (s, Failed(e))
      case Ok(d) =>
        var entries := Listing(s.files, Key(p));
        if !d.isDir then (s, Failed(NotDirectory))
        else if entries == [] then (s, Failed(EndOfListing))
        else (s.(cache := M.PutDir(cfg, s.cache, p, entries, now)), Entries(entries))
  }

  /** A successful change invalidates its path. */
  function ChangeStep(cfg: M.Config, s: Sys, p: string, r: Result<Files>): (Sys, Answer) {
    match r
    case Err(e) => (s, Failed(e))
    case Ok(files) => (Sys(M.Invalidate(cfg, s.cache, p), files), Done)
  }

  function RenameStep(cfg: M.Config, s: Sys, p: string, q: string): (Sys, Answer) {
    match Backend.Rename(s.files, Key(p), Key(q))
    case Err(e) => (s, Failed(e))
    case Ok(files) => (Sys(M.Invalidate(cfg, M.Invalidate(cfg, s.cache, p), q), files), Done)
  }

  ghost function Step(cfg: M.Config, lower: char -> char, s: Sys, call: Call): (Sys, Answer) {
    if !P.ValidatePath(call.op.name) then (s, Failed(InvalidPath))
    else
      var p := P.Normalize(call.op.name, lower);
      match call.op
      case Stat(_) => StatStep(cfg, s, p, call.now)
      case ReadDir(_) => ReadDirStep(cfg, s, p, call.now)
      case Mkdir(_, perm) => ChangeStep(cfg, s, p, Backend.Mkdir(s.files, Key(p), perm, call.now))
      case Remove(_) => ChangeStep(cfg, s, p, Backend.Remove(s.files, Key(p)))
      case Rename(_, newName) =>
        if !P.ValidatePath(newName) then (s, Failed(InvalidPath)) else RenameStep(cfg, s, p, P.Normalize(newName, lower))
      case Chmod(_, mode) => ChangeStep(cfg, s, p, Backend.Chmod(s.files, Key(p), mode))
      case Chtimes(_, mtime) => ChangeStep(cfg, s, p, Backend.Chtimes(s.files, Key(p), mtime))
  }

  // ---- Agreement ----

  ghost predicate StatAgrees(files: Files, p: string, info: FileInfo) {
    p in files && info == InfoOf(files[p], Base(p))
  }

  ghost predicate DirAgrees(files: Files, p: string, entries: seq<FileInfo>) {
    p in files && files[p].isDir && entries != [] && entries == Listing(files, p)
  }

  /** Everything cached is what the backend would answer now. */
  ghost predicate Coherent(c: MetaCache, files: Files) {
    && (forall p :: p in c.stat ==> StatAgrees(files, p, c.stat[p].value))
    && (forall p :: p in c.dir ==> DirAgrees(files, p, c.dir[p].value))
  }

  ghost predicate Good(cfg: M.Config, s: Sys) {
    && AllTidy(s.files) && Named(s.files)
    && (if cfg.enabled then Coherent(s.cache, s.files) else s.cache == EMPTY_CACHE)
  }

  /** A listing depends only on the children of its directory. */
  lemma ListingFrame(files: Files, files': Files, dir: Path)
    requires Children(files, dir) == Children(files', dir)
    requires forall p :: p in Children(files, dir) ==> files[p] == files'[p]
    ensures Listing(files, dir) == Listing(files', dir)
  {
  }

  /** The two maps differ at most at `p`. */
  ghost predicate SameExcept(files: Files, files': Files, p: Path) {
    forall q :: q != p ==> (q in files <==> q in files') && (q in files ==> files[q] == files'[q])
  }

  lemma ListingUnaffected(files: Files, files': Files, p: Path, dir: Path)
    requires SameExcept(files, files', p) && Tidy(p) && Tidy(dir) && dir != M.ParentPath(p)
    ensures Listing(files, dir) == Listing(files', dir)
  {
    ChildIffParent(dir, p);
    assert forall q :: q in Children(files, dir) <==> q in Children(files', dir);
    ListingFrame(files, files', dir);
  }

  /** Invalidating a changed path and its parent's listing restores agreement. */
  lemma InvalidateRestores(cfg: M.Config, c: MetaCache, files: Files, files': Files, p: Path)
    requires cfg.enabled && Coherent(c, files) && AllTidy(files) && Tidy(p) && SameExcept(files, files', p)
    ensures Coherent(M.Invalidate(cfg, c, p), files')
  {
    var c' := M.Invalidate(cfg, c, p);
    forall q | q in c'.stat
      ensures StatAgrees(files', q, c'.stat[q].value)
    {
      assert q != p && StatAgrees(files, q, c.stat[q].value);
    }
    forall q | q in c'.dir
      ensures DirAgrees(files', q, c'.dir[q].value)
    {
      assert q != p && q != M.ParentPath(p) && DirAgrees(files, q, c.dir[q].value);
      ListingUnaffected(files, files', p, q);
    }
  }

  lemma EvictionKeeps(c: MetaCache, max: int, files: Files)
    requires Coherent(c, files)
    ensures Coherent(M.EvictIfNeeded(c, max), files)
  {
  }

  // ---- Paths ----

  lemma {:induction false} JoinTidy(cs: seq<string>)
    requires cs != [] && P.Names(cs)
    ensures var j := P.Join(cs);
            |j| > 0 && j[0] != '/' && j[|j| - 1] != '/' && forall i :: 0 <= i < |j| - 1 ==> !(j[i] == '/' && j[i + 1] == '/')
  {
    var c, j := cs[0], P.Join(cs);
    assert P.IsName(c);
    assert forall i :: 0 <= i < |c| ==> c[i] != '/';
    if |cs| > 1 {
      var rest := P.Join(cs[1..]);
      JoinTidy(cs[1..]);
      assert j == c + "/" + rest;
      forall i | 0 <= i < |j| - 1
        ensures !(j[i] == '/' && j[i + 1] == '/')
      {
        if i > |c| {
          assert j[i] == rest[i - |c| - 1] && j[i + 1] == rest[i - |c|];
        } else if i == |c| {
          assert j[i + 1] == rest[0];
        }
      }
      assert j[|j| - 1] == rest[|rest| - 1];
    }
  }

  lemma CanonicalIsTidy(p: string)
    requires P.Canonical(p)
    ensures Tidy(p)
  {
    var cs :| P.Names(cs) && p == "/" + P.Join(cs);
    if cs != [] {
      JoinTidy(cs);
      var j := P.Join(cs);
      assert forall i :: 0 < i < |p| ==> p[i] == j[i - 1];
    }
  }

  /** The backend finds a normalised path under that very path. */
  lemma KeyOfNormalized(name: string, lower: char -> char)
    requires P.ValidatePath(name) && P.CaseMapping(lower)
    ensures Key(P.Normalize(name, lower)) == P.Normalize(name, lower)
    ensures Tidy(P.Normalize(name, lower))
  {
    P.NormalizeIsCanonical(name, lower);
    P.SmbPathRoundTrip(P.Normalize(name, lower));
    CanonicalIsTidy(P.Normalize(name, lower));
  }

  // ---- Transparency ----

  /** The same call with caching switched off. */
  ghost function Direct(cfg: M.Config, lower: char -> char, files: Files, call: Call): (Files, Answer) {
    var (s, a) := Step(cfg.(enabled := false), lower, Sys(EMPTY_CACHE, files), call);
    (s.files, a)
  }

  ghost predicate HasDescendants(files: Files, p: Path) {
    exists q :: q in files && Below(p, q)
  }

  /** What moves is a file, or a directory with nothing below it that does not move into itself. */
  ghost predicate MovesAlone(files: Files, old': Path, new': Path) {
    old' in files && files[old'].isDir ==> !HasDescendants(files, old') && !Below(old', new')
  }

  /** Renames move no directory with its contents. */
  ghost predicate SafeRename(lower: char -> char, files: Files, op: Op) {
    op.Rename? && P.ValidatePath(op.name) && P.ValidatePath(op.newName) ==>
      MovesAlone(files, P.Normalize(op.name, lower), P.Normalize(op.newName, lower))
  }

  ghost predicate Agrees(cfg: M.Config, r: (Sys, Answer), files: Files, a: Answer) {
    r.1 == a && r.0.files == files && Good(cfg, r.0)
  }

  lemma StatTransparent(cfg: M.Config, s: Sys, p: string, now: int)
    requires Good(cfg, s) && Key(p) == p && Tidy(p)
    ensures Agrees(cfg, StatStep(cfg, s, p, now), s.files, StatStep(cfg.(enabled := false), Sys(EMPTY_CACHE, s.files), p, now).1)
    ensures StatStep(cfg.(enabled := false), Sys(EMPTY_CACHE, s.files), p, now).0.files == s.files
  {
    if cfg.enabled && p in s.cache.stat {
      assert StatAgrees(s.files, p, s.cache.stat[p].value);
    }
    if cfg.enabled && p in s.files && M.GetStat(cfg, s.cache, p, now).None? && cfg.statTtl != 0 {
      var info := InfoOf(s.files[p], Base(p));
      var c1 := M.Cache(s.cache.dir, s.cache.stat[p := M.Stamped(info, now)], M.Track(s.cache.order, p));
      assert StatAgrees(s.files, p, info);
      EvictionKeeps(c1, cfg.maxEntries, s.files);
    }
  }

  lemma ReadDirTransparent(cfg: M.Config, s: Sys, p: string, now: int)
    requires Good(cfg, s) && Key(p) == p && Tidy(p)
    ensures Agrees(cfg, ReadDirStep(cfg, s, p, now), s.files, ReadDirStep(cfg.(enabled := false), Sys(EMPTY_CACHE, s.files), p, now).1)
    ensures ReadDirStep(cfg.(enabled := false), Sys(EMPTY_CACHE, s.files), p, now).0.files == s.files
  {
    if cfg.enabled && p in s.cache.dir {
      assert DirAgrees(s.files, p, s.cache.dir[p].value);
    }
    var entries := Listing(s.files, p);
    if cfg.enabled && p in s.files && s.files[p].isDir && entries != [] && M.GetDir(cfg, s.cache, p, now).None? && cfg.dirTtl != 0 {
      var c1 := M.Cache(s.cache.dir[p := M.Stamped(entries, now)], s.cache.stat, M.Track(s.cache.order, p));
      assert DirAgrees(s.files, p, entries);
      EvictionKeeps(c1, cfg.maxEntries, s.files);
    }
  }

  ghost predicate ChangesOnly(files: Files, files': Files, p: Path) {
    SameExcept(files, files', p) && (Named(files) ==> Named(files'))
  }

  lemma PutAt(files: Files, p: Path, d: FileData)
    requires d.name == Base(p) || (p in files && d.name == files[p].name)
    ensures ChangesOnly(files, files[p := d], p)
  {
  }

  lemma DropAt(files: Files, p: Path)
    ensures ChangesOnly(files, files - {p}, p)
  {
  }

  /** The operations that change one path. */
  function OneChange(files: Files, p: Path, op: Op, now: int): Result<Files>
    requires op.Mkdir? || op.Remove? || op.Chmod? || op.Chtimes?
  {
    match op
    case Mkdir(_, perm) => Backend.Mkdir(files, p, perm, now)
    case Remove(_) => Backend.Remove(files, p)
    case Chmod(_, mode) => Backend.Chmod(files, p, mode)
    case Chtimes(_, mtime) => Backend.Chtimes(files, p, mtime)
  }

  lemma OnePathOnly(files: Files, p: Path, op: Op, now: int)
    requires op.Mkdir? || op.Remove? || op.Chmod? || op.Chtimes?
    ensures var r := OneChange(files, p, op, now); r.Ok? ==> ChangesOnly(files, r.value, p)
  {
    hide ChangesOnly, WithDirBit, Base;
    var r := OneChange(files, p, op, now);
    DropAt(files, p);
    if r.Ok? && !op.Remove? {
      PutAt(files, p, r.value[p]);
    }
  }

  lemma ChangeTransparent(cfg: M.Config, s: Sys, p: string, r: Result<Files>)
    requires Good(cfg, s) && Tidy(p)
    requires r.Ok? ==> ChangesOnly(s.files, r.value, p)
    ensures Good(cfg, ChangeStep(cfg, s, p, r).0)
  {
    if r.Ok? && cfg.enabled {
      InvalidateRestores(cfg, s.cache, s.files, r.value, p);
    }
  }

  lemma MoveNothing(files: Files, old': Path, new': Path)
    requires forall p :: p in files ==> !Below(old', p)
    ensures MoveBelow(files, old', new') == files
  {
  }

  lemma NothingBelow(files: Files, old': Path, new': Path)
    requires old' in files && !Below(old', new') && !HasDescendants(files, old')
    ensures forall p :: p in MovedFiles(files, old', new') ==> !Below(old', p)
  {
  }

  lemma MovedAlone(files: Files, old': Path, new': Path)
    requires old' in files && MovesAlone(files, old', new')
    ensures RenamedFiles(files, old', new') == MovedFiles(files, old', new')
  {
    hide MoveBelow, MovedFiles, Below;
    if files[old'].isDir {
      NothingBelow(files, old', new');
      MoveNothing(MovedFiles(files, old', new'), old', new');
    }
  }

  lemma MovedIsTidy(files: Files, old': Path, new': Path)
    requires AllTidy(files) && Named(files) && old' in files && Tidy(new')
    ensures AllTidy(MovedFiles(files, old', new')) && Named(MovedFiles(files, old', new'))
  {
    hide Tidy;
  }

  lemma RenameTransparent(cfg: M.Config, s: Sys, p: string, q: string)
    requires Good(cfg, s) && Key(p) == p && Key(q) == q && Tidy(p) && Tidy(q)
    requires MovesAlone(s.files, p, q)
    ensures Good(cfg, RenameStep(cfg, s, p, q).0)
  {
    hide MovesAlone, RenamedFiles, MovedFiles, Coherent, Tidy, AllTidy, Named;
    if p in s.files && q !in s.files {
      MovedAlone(s.files, p, q);
      MovedIsTidy(s.files, p, q);
      if cfg.enabled {
        AloneKeepsAgreement(cfg, s.cache, s.files, p, q);
      }
    }
  }

  lemma AloneKeepsAgreement(cfg: M.Config, c: MetaCache, files: Files, old': Path, new': Path)
    requires cfg.enabled && AllTidy(files) && Tidy(old') && Tidy(new') && old' in files && Coherent(c, files)
    ensures Coherent(RenamedCache(cfg, c, old', new'), MovedFiles(files, old', new'))
  {
    hide Coherent;
    var gone := files - {old'};
    InvalidateRestores(cfg, c, files, gone, old');
    InvalidateRestores(cfg, M.Invalidate(cfg, c, old'), gone, MovedFiles(files, old', new'), new');
  }

  /** The cache after the two invalidations of a rename. */
  function RenamedCache(cfg: M.Config, c: MetaCache, old': Path, new': Path): MetaCache {
    M.Invalidate(cfg, M.Invalidate(cfg, c, old'), new')
  }

  /** One call through the cache answers and changes files exactly as without it, and keeps agreement. */
  lemma StepTransparent(cfg: M.Config, lower: char -> char, s: Sys, call: Call)
    requires P.CaseMapping(lower) && Good(cfg, s) && SafeRename(lower, s.files, call.op)
    ensures Agrees(cfg, Step(cfg, lower, s, call), Direct(cfg, lower, s.files, call).0, Direct(cfg, lower, s.files, call).1)
  {
    hide P.ValidatePath, P.Normalize, Key, StatStep, ReadDirStep, MovesAlone, ChangesOnly, Coherent, Named, AllTidy,
         Backend.Mkdir, Backend.Remove, Backend.Chmod, Backend.Chtimes, Backend.Rename;
    if P.ValidatePath(call.op.name) {
      var p := P.Normalize(call.op.name, lower);
      KeyOfNormalized(call.op.name, lower);
      match call.op
      case Stat(_) => StatTransparent(cfg, s, p, call.now);
      case ReadDir(_) => ReadDirTransparent(cfg, s, p, call.now);
      case Rename(_, newName) =>
        if P.ValidatePath(newName) {
          KeyOfNormalized(newName, lower);
          RenameTransparent(cfg, s, p, P.Normalize(newName, lower));
        }
      case _ =>
        OnePathOnly(s.files, p, call.op, call.now);
        ChangeTransparent(cfg, s, p, OneChange(s.files, p, call.op, call.now));
    }
  }

  // ---- Whole runs ----

  ghost function Answers(cfg: M.Config, lower: char -> char, s: Sys, calls: seq<Call>): seq<Answer>
    decreases calls
  {
    if calls == [] then []
    else
      var r := Step(cfg, lower, s, calls[0]);
      [r.1] + Answers(cfg, lower, r.0, calls[1..])
  }

  /** Every rename of the run is safe, judged by the uncached run. */
  ghost predicate SafeRun(cfg: M.Config, lower: char -> char, files: Files, calls: seq<Call>)
    decreases calls
  {
    calls != [] ==>
      && SafeRename(lower, files, calls[0].op)
      && SafeRun(cfg, lower, Direct(cfg, lower, files, calls[0]).0, calls[1..])
  }

  /**
   Over every run of these operations, with any passage of time, any limits and any eviction, every
   answer is the one the same run gives with the cache disabled.
   */
  lemma {:induction false} CacheIsTransparent(cfg: M.Config, lower: char -> char, s: Sys, calls: seq<Call>)
    requires P.CaseMapping(lower) && Good(cfg, s) && SafeRun(cfg, lower, s.files, calls)
    ensures Answers(cfg, lower, s, calls) == Answers(cfg.(enabled := false), lower, Sys(EMPTY_CACHE, s.files), calls)
    decreases calls
  {
    if calls != [] {
      StepTransparent(cfg, lower, s, calls[0]);
      StepTransparent(cfg.(enabled := false), lower, Sys(EMPTY_CACHE, s.files), calls[0]);
      CacheIsTransparent(cfg, lower, Step(cfg, lower, s, calls[0]).0, calls[1..]);
    }
  }

  // ---- Directory renames ----

  /** A path below two directories relates them. */
  lemma Related(a: Path, b: Path, q: Path)
    requires Below(a, q) && Below(b, q)
    ensures a == b || Below(a, b) || Below(b, a)
  {
    assert forall i :: 0 <= i <= |a| ==> q[i] == q[..|a| + 1][i] == (a + "/")[i];
    assert forall i :: 0 <= i <= |b| ==> q[i] == q[..|b| + 1][i] == (b + "/")[i];
    if |a| < |b| {
      assert b[..|a| + 1] == a + "/";
    } else if |b| < |a| {
      assert a[..|b| + 1] == b + "/";
    } else {
      assert forall i :: 0 <= i < |a| ==> a[i] == (a + "/")[i] == q[i] == (b + "/")[i] == b[i];
    }
  }

  lemma TargetBelow(old': Path, new': Path, p: Path)
    requires Below(old', p)
    ensures Below(new', new' + p[|old'|..])
  {
    var t := new' + p[|old'|..];
    assert p[|old'|] == p[..|old'| + 1][|old'|] == '/';
    assert t[..|new'| + 1] == new' + "/";
  }

  /** A descendant leaves its old path when its directory is renamed. */
  lemma DescendantMoves(files: Files, old': Path, new': Path, q: Path)
    requires Below(old', q) && old' != new' && !Below(old', new') && !Below(new', old')
    ensures q !in MoveBelow(files, old', new')
  {
    var targets := set p | p in files && Below(old', p) :: new' + p[|old'|..];
    if q in targets {
      var p :| p in files && Below(old', p) && q == new' + p[|old'|..];
      TargetBelow(old', new', p);
      Related(old', new', q);
    }
  }

  /** The cache after one Stat of `q` on an empty cache, at time `now`. */
  function OneStat(files: Files, q: Path, now: int): MetaCache
    requires q in files
  {
    M.Cache(map[], map[q := M.Stamped(InfoOf(files[q], Base(q)), now)], [q])
  }

  lemma OneStatReached(cfg: M.Config, files: Files, q: Path, now: int)
    requires cfg.enabled && cfg.statTtl > 0 && cfg.maxEntries >= 1 && q in files && Key(q) == q
    ensures StatStep(cfg, Sys(EMPTY_CACHE, files), q, now) == (Sys(OneStat(files, q, now), files), Info(InfoOf(files[q], Base(q))))
  {
    var c := OneStat(files, q, now);
    assert M.Track([], q) == [q];
    assert c.Total() == 1;
    assert c.dir - M.Elems([]) == c.dir && c.stat - M.Elems([]) == c.stat && c.order[..0] == [] && c.order[0..] == c.order;
  }

  lemma OneStatCoherent(files: Files, q: Path, now: int)
    requires q in files
    ensures Coherent(OneStat(files, q, now), files) && M.Inv(OneStat(files, q, now))
  {
  }

  lemma EntrySurvives(cfg: M.Config, files: Files, old': Path, new': Path, q: Path, now: int)
    requires q in files && q != old' && q != new'
    ensures var c := RenamedCache(cfg, OneStat(files, q, now), old', new');
            q in c.stat && c.stat[q] == M.Stamped(InfoOf(files[q], Base(q)), now)
  {
    hide M.ParentPath, Base;
  }

  lemma DescendantGone(files: Files, old': Path, new': Path, q: Path)
    requires old' in files && files[old'].isDir && old' != new' && !Below(old', new') && !Below(new', old') && Below(old', q)
    ensures q !in RenamedFiles(files, old', new')
  {
    hide MoveBelow, MovedFiles;
    DescendantMoves(MovedFiles(files, old', new'), old', new', q);
  }

  lemma AbsentIsStale(c: MetaCache, files: Files, q: Path)
    requires q in c.stat && q !in files
    ensures !Coherent(c, files)
  {
    assert !StatAgrees(files, q, c.stat[q].value);
  }

  lemma BelowIsLonger(dir: Path, q: Path)
    requires Below(dir, q)
    ensures q != dir
  {
  }

  /** A cached entry below a renamed directory survives both invalidations, while the entry itself has gone. */
  lemma OneStatGoesStale(cfg: M.Config, files: Files, old': Path, new': Path, q: Path, now: int)
    requires old' in files && new' !in files && !Below(old', new') && !Below(new', old')
    requires files[old'].isDir && q in files && Below(old', q)
    ensures var c := RenamedCache(cfg, OneStat(files, q, now), old', new');
            q in c.stat && c.stat[q] == M.Stamped(InfoOf(files[q], Base(q)), now)
    ensures q !in RenamedFiles(files, old', new')
    ensures !Coherent(RenamedCache(cfg, OneStat(files, q, now), old', new'), RenamedFiles(files, old', new'))
  {
    hide RenamedFiles, RenamedCache, Coherent, Below, OneStat;
    BelowIsLonger(old', q);
    EntrySurvives(cfg, files, old', new', q, now);
    DescendantGone(files, old', new', q);
    AbsentIsStale(RenamedCache(cfg, OneStat(files, q, now), old', new'), RenamedFiles(files, old', new'), q);
  }

  /**
   The two invalidations of a rename keep every cache that the program can hold in agreement exactly
   when what moves is not a directory with something below it. No directory moves into itself, and one
   with contents not to a path above it: there the outcome depends on the order of a map iteration.
   */
  lemma RenameKeepsAgreementIff(cfg: M.Config, files: Files, old': Path, new': Path)
    requires cfg.enabled && AllTidy(files) && Tidy(old') && Tidy(new')
    requires old' in files && new' !in files
    requires files[old'].isDir ==> !Below(old', new') && (HasDescendants(files, old') ==> !Below(new', old'))
    ensures (forall c: MetaCache :: M.Inv(c) && Coherent(c, files) ==>
               Coherent(RenamedCache(cfg, c, old', new'), RenamedFiles(files, old', new')))
            <==> !(files[old'].isDir && HasDescendants(files, old'))
  {
    hide Coherent, RenamedCache, MovedFiles, RenamedFiles, M.Inv;
    if files[old'].isDir && HasDescendants(files, old') {
      var q :| q in files && Below(old', q);
      OneStatCoherent(files, q, 0);
      OneStatGoesStale(cfg, files, old', new', q, 0);
    } else {
      MovedAlone(files, old', new');
      forall c: MetaCache | M.Inv(c) && Coherent(c, files)
        ensures Coherent(RenamedCache(cfg, c, old', new'), RenamedFiles(files, old', new'))
      {
        AloneKeepsAgreement(cfg, c, files, old', new');
      }
    }
  }

  /** Names that normalise to a directory, a free path beside it, and something below the directory. */
  ghost predicate MovesBelow(lower: char -> char, files: Files, name: string, newName: string, inner: string) {
    && P.ValidatePath(name) && P.ValidatePath(newName) && P.ValidatePath(inner)
    && var old', new', q := P.Normalize(name, lower), P.Normalize(newName, lower), P.Normalize(inner, lower);
       && old' in files && files[old'].isDir && new' !in files && !Below(old', new') && !Below(new', old')
       && q in files && Below(old', q)
  }

  lemma StaleAnswer(cfg: M.Config, s: Sys, q: Path, info: FileInfo, now: int)
    requires cfg.enabled && cfg.statTtl > 0 && q in s.cache.stat && s.cache.stat[q] == M.Stamped(info, now)
    ensures StatStep(cfg, s, q, now) == (s, Info(info))
  {
  }

  lemma ThreeAnswers(cfg: M.Config, lower: char -> char, s: Sys, a: Call, b: Call, c: Call)
    ensures var r1 := Step(cfg, lower, s, a);
            var r2 := Step(cfg, lower, r1.0, b);
            Answers(cfg, lower, s, [a, b, c]) == [r1.1, r2.1, Step(cfg, lower, r2.0, c).1]
  {
    hide Step;
    var r1 := Step(cfg, lower, s, a);
    var r2 := Step(cfg, lower, r1.0, b);
    assert [a, b, c][1..] == [b, c] && [b, c][1..] == [c] && [c][1..] == [];
    assert Answers(cfg, lower, r2.0, [c]) == [Step(cfg, lower, r2.0, c).1];
    assert Answers(cfg, lower, r1.0, [b, c]) == [r2.1] + [Step(cfg, lower, r2.0, c).1];
  }

  /** The three calls with the cache. */
  lemma StaleWithCache(
    cfg: M.Config, lower: char -> char, files: Files, name: string, newName: string, inner: string, now: int)
    requires cfg.enabled && cfg.statTtl > 0 && cfg.maxEntries >= 1 && P.CaseMapping(lower)
    requires MovesBelow(lower, files, name, newName, inner)
    ensures var q := P.Normalize(inner, lower);
            var info := Info(InfoOf(files[q], Base(q)));
            Answers(cfg, lower, Sys(EMPTY_CACHE, files), [Call(Stat(inner), now), Call(Rename(name, newName), now), Call(Stat(inner), now)])
            == [info, Done, info]
  {
    hide P.ValidatePath, P.Normalize, Key, StatStep, RenamedFiles;
    var old', new', q := P.Normalize(name, lower), P.Normalize(newName, lower), P.Normalize(inner, lower);
    KeyOfNormalized(name, lower);
    KeyOfNormalized(newName, lower);
    KeyOfNormalized(inner, lower);
    OneStatReached(cfg, files, q, now);
    OneStatGoesStale(cfg, files, old', new', q, now);
    var s2 := Sys(RenamedCache(cfg, OneStat(files, q, now), old', new'), RenamedFiles(files, old', new'));
    StaleAnswer(cfg, s2, q, InfoOf(files[q], Base(q)), now);
    ThreeAnswers(cfg, lower, Sys(EMPTY_CACHE, files), Call(Stat(inner), now), Call(Rename(name, newName), now), Call(Stat(inner), now));
  }

  /** The same three calls without it. */
  lemma GoneWithoutCache(
    cfg: M.Config, lower: char -> char, files: Files, name: string, newName: string, inner: string, now: int)
    requires P.CaseMapping(lower) && MovesBelow(lower, files, name, newName, inner)
    ensures var q := P.Normalize(inner, lower);
            var info := Info(InfoOf(files[q], Base(q)));
            Answers(cfg.(enabled := false), lower, Sys(EMPTY_CACHE, files),
                    [Call(Stat(inner), now), Call(Rename(name, newName), now), Call(Stat(inner), now)])
            == [info, Done, Failed(NotExist)]
  {
    hide P.ValidatePath, P.Normalize, Key, StatStep, RenamedFiles;
    var old', new', q := P.Normalize(name, lower), P.Normalize(newName, lower), P.Normalize(inner, lower);
    KeyOfNormalized(name, lower);
    KeyOfNormalized(newName, lower);
    KeyOfNormalized(inner, lower);
    OneStatGoesStale(cfg, files, old', new', q, now);
    ThereAnswer(cfg, files, q, now);
    GoneAnswer(cfg, RenamedFiles(files, old', new'), q, now);
    ThreeAnswers(cfg.(enabled := false), lower, Sys(EMPTY_CACHE, files), Call(Stat(inner), now), Call(Rename(name, newName), now), Call(Stat(inner), now));
  }

  /**
   A Stat below a directory, a rename of the directory, and the same Stat again: the cache answers with
   the old information, the backend that there is no such file.
   */
  lemma DirectoryRenameGoesStale(
    cfg: M.Config, lower: char -> char, files: Files, name: string, newName: string, inner: string, now: int)
    requires cfg.enabled && cfg.statTtl > 0 && cfg.maxEntries >= 1 && P.CaseMapping(lower)
    requires MovesBelow(lower, files, name, newName, inner)
    ensures var q := P.Normalize(inner, lower);
            var info := Info(InfoOf(files[q], Base(q)));
            var calls := [Call(Stat(inner), now), Call(Rename(name, newName), now), Call(Stat(inner), now)];
            && Answers(cfg, lower, Sys(EMPTY_CACHE, files), calls) == [info, Done, info]
            && Answers(cfg.(enabled := false), lower, Sys(EMPTY_CACHE, files), calls) == [info, Done, Failed(NotExist)]
  {
    StaleWithCache(cfg, lower, files, name, newName, inner, now);
    GoneWithoutCache(cfg, lower, files, name, newName, inner, now);
  }

  lemma ThereAnswer(cfg: M.Config, files: Files, q: Path, now: int)
    requires q in files && Key(q) == q
    ensures StatStep(cfg.(enabled := false), Sys(EMPTY_CACHE, files), q, now)
            == (Sys(EMPTY_CACHE, files), Info(InfoOf(files[q], Base(q))))
  {
    hide Key;
  }

  lemma GoneAnswer(cfg: M.Config, files: Files, q: Path, now: int)
    requires q !in files && Key(q) == q
    ensures StatStep(cfg.(enabled := false), Sys(EMPTY_CACHE, files), q, now).1 == Failed(NotExist)
  {
    hide Key;
  }

  // ---- What is answered ----

  /** What a Stat of a normalised path has to answer. */
  function StatOf(files: Files, p: Path): Answer {
    if p in files
    then Info(FileInfo(Base(p), |files[p].content|, files[p].mode, files[p].modTime, files[p].isDir))
    else Failed(NotExist)
  }

  /** Through any agreeing cache, Stat answers with the file's own name, size, mode, time and type, or that there is none. */
  lemma StatAnswer(cfg: M.Config, lower: char -> char, s: Sys, name: string, now: int)
    requires P.CaseMapping(lower) && Good(cfg, s) && P.ValidatePath(name)
    ensures var (s', a) := Step(cfg, lower, s, Call(Stat(name), now));
            a == StatOf(s.files, P.Normalize(name, lower)) && s'.files == s.files && Good(cfg, s')
  {
    hide P.ValidatePath, P.Normalize, Key, StatStep, Base, Coherent;
    var p := P.Normalize(name, lower);
    KeyOfNormalized(name, lower);
    StatTransparent(cfg, s, p, now);
    if p in s.files {
      ThereAnswer(cfg, s.files, p, now);
    } else {
      GoneAnswer(cfg, s.files, p, now);
    }
  }

  /** ReadDir answers with the listing of an existing directory, and says why not otherwise. */
  lemma ReadDirAnswer(cfg: M.Config, lower: char -> char, s: Sys, name: string, now: int)
    requires P.CaseMapping(lower) && Good(cfg, s) && P.ValidatePath(name)
    ensures var p := P.Normalize(name, lower);
            var (s', a) := Step(cfg, lower, s, Call(ReadDir(name), now));
            && s'.files == s.files && Good(cfg, s')
            && a == (if p !in s.files then Failed(NotExist)
                     else if !s.files[p].isDir then Failed(NotDirectory)
                     else if Listing(s.files, p) == [] then Failed(EndOfListing)
                     else Entries(Listing(s.files, p)))
  {
    hide P.ValidatePath, P.Normalize, Key, ReadDirStep, Listing, Coherent;
    var p := P.Normalize(name, lower);
    KeyOfNormalized(name, lower);
    ReadDirTransparent(cfg, s, p, now);
    ListedAnswer(cfg, s.files, p, now);
  }

  lemma ListedAnswer(cfg: M.Config, files: Files, p: Path, now: int)
    requires Key(p) == p
    ensures ReadDirStep(cfg.(enabled := false), Sys(EMPTY_CACHE, files), p, now).1
            == (if p !in files then Failed(NotExist)
                else if !files[p].isDir then Failed(NotDirectory)
                else if Listing(files, p) == [] then Failed(EndOfListing)
                else Entries(Listing(files, p)))
  {
    hide Key, Listing;
  }

  /** A change of one path does to the files what the backend does, and answers its error if it refuses. */
  lemma ChangeAnswer(cfg: M.Config, lower: char -> char, s: Sys, op: Op, now: int)
    requires P.CaseMapping(lower) && Good(cfg, s) && P.ValidatePath(op.name)
    requires op.Mkdir? || op.Remove? || op.Chmod? || op.Chtimes?
    ensures var r := OneChange(s.files, P.Normalize(op.name, lower), op, now);
            var (s', a) := Step(cfg, lower, s, Call(op, now));
            && Good(cfg, s')
            && (r.Ok? ==> a == Done && s'.files == r.value)
            && (r.Err? ==> a == Failed(r.error) && s'.files == s.files)
  {
    hide P.ValidatePath, P.Normalize, Key, Coherent, Named, AllTidy, Backend.Mkdir, Backend.Remove, Backend.Chmod, Backend.Chtimes;
    KeyOfNormalized(op.name, lower);
    var p := P.Normalize(op.name, lower);
    OnePathOnly(s.files, p, op, now);
    ChangeTransparent(cfg, s, p, OneChange(s.files, p, op, now));
  }

  /** What a Stat of the same name answers after a change that succeeded. */
  lemma StatAfterChange(cfg: M.Config, lower: char -> char, s: Sys, op: Op, now: int, later: int)
    requires P.CaseMapping(lower) && Good(cfg, s) && P.ValidatePath(op.name)
    requires op.Mkdir? || op.Remove? || op.Chmod? || op.Chtimes?
    requires Step(cfg, lower, s, Call(op, now)).1 == Done
    ensures var p := P.Normalize(op.name, lower);
            var a := Step(cfg, lower, Step(cfg, lower, s, Call(op, now)).0, Call(Stat(op.name), later)).1;
            match op
            case Mkdir(_, perm) => a == Info(FileInfo(Base(p), 0, WithDirBit(perm), now, true))
            case Remove(_) => a == Failed(NotExist)
            case Chmod(_, mode) =>
              && p in s.files
              && a == Info(InfoOf(s.files[p], Base(p)).(mode := if s.files[p].isDir then WithDirBit(mode) else mode))
            case Chtimes(_, mtime) => p in s.files && a == Info(InfoOf(s.files[p], Base(p)).(modTime := mtime))
  {
    hide P.ValidatePath, P.Normalize, Key, Coherent, Good, Step, Base;
    var p := P.Normalize(op.name, lower);
    ChangeAnswer(cfg, lower, s, op, now);
    StatAnswer(cfg, lower, Step(cfg, lower, s, Call(op, now)).0, op.name, later);
  }

  /** Rename does to the files what the backend does, and answers its error if it refuses. */
  lemma RenameAnswer(cfg: M.Config, lower: char -> char, s: Sys, name: string, newName: string, now: int)
    requires P.CaseMapping(lower) && P.ValidatePath(name) && P.ValidatePath(newName)
    ensures var r := Backend.Rename(s.files, P.Normalize(name, lower), P.Normalize(newName, lower));
            var (s', a) := Step(cfg, lower, s, Call(Rename(name, newName), now));
            && (r.Ok? ==> a == Done && s'.files == r.value)
            && (r.Err? ==> a == Failed(r.error) && s' == s)
  {
    hide P.ValidatePath, P.Normalize, Key, Backend.Rename;
    KeyOfNormalized(name, lower);
    KeyOfNormalized(newName, lower);
  }

  /** A call with a path that validation refuses changes nothing. */
  lemma InvalidAnswer(cfg: M.Config, lower: char -> char, s: Sys, op: Op, now: int)
    requires !P.ValidatePath(op.name) || (op.Rename? && !P.ValidatePath(op.newName))
    ensures Step(cfg, lower, s, Call(op, now)) == (s, Failed(InvalidPath))
  {
    hide P.ValidatePath, P.Normalize, Key, StatStep, ReadDirStep;
  }

  /** No entry of an agreeing cache lies at a path that the files do not have, nor does a rename put one there. */
  lemma RenamedMisses(cfg: M.Config, s: Sys, old': Path, new': Path, t: Path)
    requires Good(cfg, s) && t !in s.files
    ensures t !in RenamedCache(cfg, s.cache, old', new').stat
  {
    hide M.ParentPath;
    assert cfg.enabled ==> forall p :: p in s.cache.stat ==> StatAgrees(s.files, p, s.cache.stat[p].value);
    assert forall p :: p in s.cache.stat ==> p in s.files;
  }

  lemma MissAnswer(cfg: M.Config, s: Sys, t: Path, now: int)
    requires Key(t) == t && t in s.files && t !in s.cache.stat
    ensures StatStep(cfg, s, t, now).1 == Info(InfoOf(s.files[t], Base(t)))
  {
    hide Key;
  }

  /** A name that leads below the new path of a renamed directory. */
  ghost predicate Lands(lower: char -> char, name: string, newName: string, inner: string, target: string) {
    var old', new', q := P.Normalize(name, lower), P.Normalize(newName, lower), P.Normalize(inner, lower);
    P.ValidatePath(target) && Below(old', q) && P.Normalize(target, lower) == Moved(old', new', q)
  }

  /**
   After a directory is renamed, a Stat of anything below its new path answers what the file had, under
   its new name, whatever the cache held.
   */
  lemma RenamedIsFound(
    cfg: M.Config, lower: char -> char, s: Sys, name: string, newName: string, inner: string, target: string, now: int, later: int)
    requires P.CaseMapping(lower) && Good(cfg, s) && MovesBelow(lower, s.files, name, newName, inner)
    requires forall p :: p in s.files ==> !Below(P.Normalize(newName, lower), p)
    requires Lands(lower, name, newName, inner, target)
    ensures var q, t := P.Normalize(inner, lower), P.Normalize(target, lower);
            var (s', a) := Step(cfg, lower, s, Call(Rename(name, newName), now));
            a == Done && Step(cfg, lower, s', Call(Stat(target), later)).1 == Info(InfoOf(s.files[q], Base(t)))
  {
    hide P.ValidatePath, P.Normalize, Key, StatStep, RenamedFiles, Base, Good, Below;
    var old', new', q := P.Normalize(name, lower), P.Normalize(newName, lower), P.Normalize(inner, lower);
    var t := P.Normalize(target, lower);
    KeyOfNormalized(name, lower);
    KeyOfNormalized(newName, lower);
    KeyOfNormalized(target, lower);
    RenameMeans(s.files, old', new');
    MovedBack(old', new', q);
    assert t !in s.files;
    RenamedMisses(cfg, s, old', new', t);
    var s' := Sys(RenamedCache(cfg, s.cache, old', new'), Backend.Rename(s.files, old', new').value);
    assert Step(cfg, lower, s, Call(Rename(name, newName), now)) == (s', Done);
    MissAnswer(cfg, s', t, later);
  }

  // ---- The file system object ----

  class FileSystem {
    const lower: char -> char
    const cache: M.Store<seq<FileInfo>, FileInfo>
    var files: Files

    ghost function State(): Sys
      reads this, cache
    {
      Sys(cache.State(), files)
    }

    /** What one method call must have done. */
    twostate predicate Served(op: Op, now: int, a: Answer)
      reads this, cache
    {
      (State(), a) == Step(cache.cfg, lower, old(State()), Call(op, now))
    }

    constructor (cfg: M.Config, lower: char -> char, files: Files)
      ensures this.lower == lower && fresh(cache) && cache.cfg == cfg
      ensures State() == Sys(EMPTY_CACHE, files)
    {
      this.lower, this.files := lower, files;
      cache := new M.Store(cfg);
    }

    method Stat(name: string, now: int) returns (a: Answer)
      modifies this, cache
      ensures Served(Op.Stat(name), now, a)
    {
      if !P.ValidatePath(name) {
        return Failed(InvalidPath);
      }
      var p := P.Normalize(name, lower);
      var hit := cache.GetStatInfo(p, now);
      if hit.Some? {
        return Info(hit.value);
      }
      match Backend.Stat(files, Key(p)) {
        case Err(e) => return Failed(e);
        case Ok(d) =>
          var info := InfoOf(d, Base(p));
          cache.PutStatInfo(p, info, now);
          return Info(info);
      }
    }

    method ReadDir(name: string, now: int) returns (a: Answer)
      requires P.CaseMapping(lower) && Named(files) && AllTidy(files)
      modifies this, cache
      ensures Served(Op.ReadDir(name), now, a)
    {
      if !P.ValidatePath(name) {
        return Failed(InvalidPath);
      }
      var p := P.Normalize(name, lower);
      var hit := cache.GetDirEntries(p, now);
      if hit.Some? {
        return Entries(hit.value);
      }
      match Backend.Stat(files, Key(p)) {
        case Err(e) => return Failed(e);
        case Ok(d) =>
          if !d.isDir {
            return Failed(NotDirectory);
          }
          KeyOfNormalized(name, lower);
          var entries := Readdir(files, Key(p));
          if entries == [] {
            return Failed(EndOfListing);
          }
          cache.PutDirEntries(p, entries, now);
          return Entries(entries);
      }
    }

    /** The common end of every changing call: take over the backend's files, then invalidate. */
    method Commit(p: string, r: Result<Files>) returns (a: Answer)
      modifies this, cache
      ensures (State(), a) == ChangeStep(cache.cfg, old(State()), p, r)
    {
      if r.Err? {
        return Failed(r.error);
      }
      files := r.value;
      cache.InvalidatePath(p);
      return Done;
    }

    method Mkdir(name: string, perm: nat, now: int) returns (a: Answer)
      modifies this, cache
      ensures Served(Op.Mkdir(name, perm), now, a)
    {
      if !P.ValidatePath(name) {
        return Failed(InvalidPath);
      }
      var p := P.Normalize(name, lower);
      a := Commit(p, Backend.Mkdir(files, Key(p), perm, now));
    }

    method Remove(name: string, now: int) returns (a: Answer)
      modifies this, cache
      ensures Served(Op.Remove(name), now, a)
    {
      if !P.ValidatePath(name) {
        return Failed(InvalidPath);
      }
      var p := P.Normalize(name, lower);
      a := Commit(p, Backend.Remove(files, Key(p)));
    }

    method Rename(name: string, newName: string, now: int) returns (a: Answer)
      modifies this, cache
      ensures Served(Op.Rename(name, newName), now, a)
    {
      if !P.ValidatePath(name) || !P.ValidatePath(newName) {
        return Failed(InvalidPath);
      }
      var p, q := P.Normalize(name, lower), P.Normalize(newName, lower);
      var r := Backend.Rename(files, Key(p), Key(q));
      if r.Err? {
        return Failed(r.error);
      }
      files := r.value;
      cache.InvalidatePath(p);
      cache.InvalidatePath(q);
      return Done;
    }

    method Chmod(name: string, mode: nat, now: int) returns (a: Answer)
      modifies this, cache
      ensures Served(Op.Chmod(name, mode), now, a)
    {
      if !P.ValidatePath(name) {
        return Failed(InvalidPath);
      }
      var p := P.Normalize(name, lower);
      a := Commit(p, Backend.Chmod(files, Key(p), mode));
    }

    method Chtimes(name: string, mtime: int, now: int) returns (a: Answer)
      modifies this, cache
      ensures Served(Op.Chtimes(name, mtime), now, a)
    {
      if !P.ValidatePath(name) {
        return Failed(InvalidPath);
      }
      var p := P.Normalize(name, lower);
      a := Commit(p, Backend.Chtimes(files, Key(p), mtime));
    }
  }
}
