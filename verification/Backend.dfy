/**
 The in-memory SMB backend behind the client: a map from canonical paths to files, and the
 share operations on it.
 */
module Backend {
  import MetadataCache

  type Path = string

  datatype FileData = FileData(name: string, content: seq<int>, mode: nat, modTime: int, isDir: bool)

  datatype FileInfo = FileInfo(name: string, size: nat, mode: nat, modTime: int, isDir: bool)

  type Files = map<Path, FileData>

  datatype Error =
    InvalidPath | NotExist | Exist | NotDirectory | ParentNotDirectory | NotEmpty | EndOfListing

  datatype Result<+T> = Ok(value: T) | Err(error: Error)

  /** fs.ModeDir, the top bit of a file mode. */
  const MODE_DIR: nat := 0x8000_0000

  function WithDirBit(mode: nat): nat {
    if mode / MODE_DIR % 2 == 1 then mode else mode + MODE_DIR
  }

  /** The last element of a path. */
  function Base(p: Path): string {
    if p == "/" then "/" else p[MetadataCache.LastSlash(p) + 1..]
  }

  /** pathDir: for a cleaned path, the directory the path is an entry of. */
  function Dir(p: Path): Path {
    MetadataCache.ParentPath(p)
  }

  function InfoOf(d: FileData, name: string): FileInfo {
    FileInfo(name, |d.content|, d.mode, d.modTime, d.isDir)
  }

  // ---- Share operations ----

  function Stat(files: Files, p: Path): Result<FileData> {
    if p in files then Ok(files[p]) else Err(NotExist)
  }

  function Mkdir(files: Files, p: Path, perm: nat, now: int): Result<Files> {
    if p in files then Err(Exist)
    else if Dir(p) !in files then Err(NotExist)
    else if !files[Dir(p)].isDir then Err(ParentNotDirectory)
    else Ok(files[p := FileData(Base(p), [], WithDirBit(perm), now, true)])
  }

  predicate Below(dir: Path, p: Path) {
    |dir| + 1 <= |p| && p[..|dir| + 1] == dir + "/"
  }

  function Remove(files: Files, p: Path): Result<Files> {
    if p !in files then Err(NotExist)
    else if files[p].isDir && exists q :: q in files && q != p && Below(p, q) then Err(NotEmpty)
    else Ok(files - {p})
  }

  function Rename(files: Files, old': Path, new': Path): Result<Files> {
    if old' !in files then Err(NotExist)
    else if new' in files then Err(Exist)
    else Ok(RenamedFiles(files, old', new'))
  }

  /** A plain file moves alone, a directory with everything below it. */
  function RenamedFiles(files: Files, old': Path, new': Path): Files
    requires old' in files
  {
    if files[old'].isDir then MoveBelow(MovedFiles(files, old', new'), old', new') else MovedFiles(files, old', new')
  }

  function MovedFiles(files: Files, old': Path, new': Path): Files
    requires old' in files
  {
    (files - {old'})[new' := files[old'].(name := Base(new'))]
  }

  /** Everything below `old'` follows a renamed directory. */
  function MoveBelow(files: Files, old': Path, new': Path): Files {
    var targets := set p | p in files && Below(old', p) :: new' + p[|old'|..];
    (map p | p in files && !Below(old', p) :: files[p]) +
    (map q | q in targets && |q| >= |new'| && old' + q[|new'|..] in files :: files[old' + q[|new'|..]].(name := Base(q)))
  }

  function Chmod(files: Files, p: Path, mode: nat): Result<Files> {
    if p !in files then Err(NotExist)
    else Ok(files[p := files[p].(mode := if files[p].isDir then WithDirBit(mode) else mode)])
  }

  function Chtimes(files: Files, p: Path, mtime: int): Result<Files> {
    if p !in files then Err(NotExist) else Ok(files[p := files[p].(modTime := mtime)])
  }

  // ---- Listings ----

  /** The test of the listing loop: something below the directory, with no further separator. */
  predicate DirectChild(dir: Path, p: Path) {
    var prefix := if dir == "/" then "/" else dir + "/";
    p != dir && |prefix| <= |p| && p[..|prefix|] == prefix && '/' !in p[|prefix|..]
  }

  /** Paths as cleaning leaves them: absolute, no empty component, no trailing separator. */
  predicate Tidy(p: Path) {
    && |p| > 0 && p[0] == '/'
    && (|p| > 1 ==> p[|p| - 1] != '/')
    && forall i :: 0 <= i < |p| - 1 ==> !(p[i] == '/' && p[i + 1] == '/')
  }

  /** The parent of a path is the only directory that lists it. */
  lemma ChildIffParent(dir: Path, p: Path)
    requires Tidy(dir) && Tidy(p)
    ensures DirectChild(dir, p) <==> p != "/" && MetadataCache.ParentPath(p) == dir
  {
    var i := MetadataCache.LastSlash(p);
    assert p[0] == '/' && i >= 0;
    if DirectChild(dir, p) {
      var prefix := if dir == "/" then "/" else dir + "/";
      assert p[|prefix| - 1] == prefix[|prefix| - 1] == '/';
      assert forall j :: |prefix| <= j < |p| ==> p[j] == p[|prefix|..][j - |prefix|];
      assert i == |prefix| - 1;
      assert dir != "/" ==> p[..|dir|] == prefix[..|dir|];
    }
    if p != "/" && MetadataCache.ParentPath(p) == dir {
      if i == 0 {
        assert p[..1] == "/";
      } else {
        assert p[i - 1] != '/';
        assert dir != "/";
        assert p[..i + 1] == p[..i] + "/";
      }
    }
  }

  function Children(files: Files, dir: Path): set<Path> {
    set p | p in files && DirectChild(dir, p) && files[p].name != "." && files[p].name != ".."
  }

  predicate Less(a: string, b: string) {
    b != "" && (a == "" || a[0] < b[0] || (a[0] == b[0] && Less(a[1..], b[1..])))
  }

  lemma {:induction false} LessTrans(a: string, b: string, c: string)
    requires Less(a, b) && Less(b, c)
    ensures Less(a, c)
  {
    if a != "" && a[0] == b[0] == c[0] {
      LessTrans(a[1..], b[1..], c[1..]);
    }
  }

  lemma {:induction false} LessIrreflexive(a: string)
    ensures !Less(a, a)
  {
    if a != "" {
      LessIrreflexive(a[1..]);
    }
  }

  lemma {:induction false} LessTotal(a: string, b: string)
    ensures Less(a, b) || Less(b, a) || a == b
    ensures !(Less(a, b) && Less(b, a))
  {
    if a != "" && b != "" {
      LessTotal(a[1..], b[1..]);
      assert a == [a[0]] + a[1..] && b == [b[0]] + b[1..];
    }
  }

  predicate Sorted(s: seq<string>) {
    forall i, j :: 0 <= i < j < |s| ==> Less(s[i], s[j])
  }

  /** Insertion into a sorted list. */
  function Insert(s: seq<string>, x: string): seq<string> {
    if s == [] then [x] else if Less(x, s[0]) then [x] + s else [s[0]] + Insert(s[1..], x)
  }

  lemma {:induction false} InsertMembers(s: seq<string>, x: string, y: string)
    ensures y in Insert(s, x) <==> y in s || y == x
  {
    if s != [] {
      assert s == [s[0]] + s[1..];
      InsertMembers(s[1..], x, y);
    }
  }

  lemma {:induction false} InsertSorted(s: seq<string>, x: string)
    requires Sorted(s) && x !in s
    ensures Sorted(Insert(s, x))
  {
    if s != [] {
      LessTotal(x, s[0]);
      if Less(x, s[0]) {
        forall j | 0 <= j < |s|
          ensures Less(x, s[j])
        {
          if j > 0 {
            LessTrans(x, s[0], s[j]);
          }
        }
      } else {
        var t := Insert(s[1..], x);
        InsertSorted(s[1..], x);
        forall j | 0 <= j < |t|
          ensures Less(s[0], t[j])
        {
          InsertMembers(s[1..], x, t[j]);
        }
      }
    }
  }

  /** A set has only one sorted listing. */
  lemma {:induction false} SortedUnique(a: seq<string>, b: seq<string>)
    requires Sorted(a) && Sorted(b)
    requires forall x :: x in a <==> x in b
    ensures a == b
  {
    assert (a != [] ==> a[0] in a) && (b != [] ==> b[0] in b);
    if a != [] && b != [] {
      HeadIsLeast(a, b);
      HeadIsLeast(b, a);
      LessTotal(a[0], b[0]);
      forall x
        ensures x in a[1..] <==> x in b[1..]
      {
        TailMembers(a, x);
        TailMembers(b, x);
      }
      SortedUnique(a[1..], b[1..]);
    }
  }

  lemma HeadIsLeast(a: seq<string>, b: seq<string>)
    requires Sorted(a) && a != [] && b != [] && b[0] in a
    ensures a[0] == b[0] || Less(a[0], b[0])
  {
  }

  lemma TailMembers(a: seq<string>, x: string)
    requires Sorted(a) && a != []
    ensures x in a[1..] <==> x in a && x != a[0]
  {
    LessIrreflexive(a[0]);
    assert a == [a[0]] + a[1..];
  }

  /** The sorted listing of a finite set, chosen among all lists: there is exactly one. */
  ghost function SortedList(s: set<string>): (r: seq<string>)
    ensures Sorted(r) && forall x :: x in r <==> x in s
  {
    SortedListExists(s);
    var r :| Sorted(r) && forall x :: x in r <==> x in s;
    r
  }

  lemma {:induction false} SortedListExists(s: set<string>)
    ensures exists r :: Sorted(r) && forall x :: x in r <==> x in s
  {
    if s == {} {
      var none: seq<string> := [];
      assert Sorted(none) && forall x :: x in none <==> x in s;
    } else {
      var y :| y in s;
      SortedListExists(s - {y});
      var r :| Sorted(r) && forall x :: x in r <==> x in s - {y};
      InsertSorted(r, y);
      forall x
        ensures x in Insert(r, y) <==> x in s
      {
        InsertMembers(r, y, x);
      }
    }
  }

  /** What a directory lists: its direct children by path, which is by name within one directory. */
  ghost function Listing(files: Files, dir: Path): seq<FileInfo> {
    var ps := SortedList(Children(files, dir));
    seq(|ps|, i requires 0 <= i < |ps| => assert ps[i] in ps; InfoOf(files[ps[i]], files[ps[i]].name))
  }

  // ---- Sorting by name ----

  /** Every file carries the last element of its path for a name; every share operation keeps it so. */
  predicate Named(files: Files) {
    forall p :: p in files ==> files[p].name == Base(p)
  }

  predicate AllTidy(files: Files) {
    forall p :: p in files ==> Tidy(p)
  }

  /** Insertion into a list that is sorted by the names of the files. */
  function InsertByName(files: Files, s: seq<Path>, p: Path): seq<Path>
    requires p in files && forall i :: 0 <= i < |s| ==> s[i] in files
  {
    if s == [] then [p]
    else if Less(files[p].name, files[s[0]].name) then [p] + s
    else [s[0]] + InsertByName(files, s[1..], p)
  }

  /** Among the children of one directory, the order by name is the order by path. */
  lemma ByNameIsByPath(files: Files, dir: Path, p: Path, q: Path)
    requires Named(files) && AllTidy(files) && Tidy(dir) && p in Children(files, dir) && q in Children(files, dir)
    ensures Less(files[p].name, files[q].name) <==> Less(p, q)
  {
    ChildSplit(dir, p);
    ChildSplit(dir, q);
    LessAfterPrefix(if dir == "/" then "/" else dir + "/", Base(p), Base(q));
  }

  lemma {:induction false} InsertByNameIsInsert(files: Files, dir: Path, s: seq<Path>, p: Path)
    requires Named(files) && AllTidy(files) && Tidy(dir) && p in Children(files, dir)
    requires forall i :: 0 <= i < |s| ==> s[i] in Children(files, dir)
    ensures InsertByName(files, s, p) == Insert(s, p)
  {
    if s != [] {
      ByNameIsByPath(files, dir, p, s[0]);
      InsertByNameIsInsert(files, dir, s[1..], p);
    }
  }

  /** Readdir: visits the map in any order and sorts by name; the order of the visit does not show. */
  method Readdir(files: Files, dir: Path) returns (infos: seq<FileInfo>)
    requires Named(files) && AllTidy(files) && Tidy(dir)
    ensures infos == Listing(files, dir)
    ensures forall i, j :: 0 <= i < j < |infos| ==> Less(infos[i].name, infos[j].name)
  {
    hide Less, Base, Insert, InsertByName, DirectChild;
    var todo, ps: seq<Path> := files.Keys, [];
    while todo != {}
      invariant todo <= files.Keys && Sorted(ps)
      invariant forall x :: x in ps <==> x in Children(files, dir) && x !in todo
    {
      var p :| p in todo;
      todo := todo - {p};
      if DirectChild(dir, p) && files[p].name != "." && files[p].name != ".." {
        assert forall i :: 0 <= i < |ps| ==> ps[i] in ps;
        InsertByNameIsInsert(files, dir, ps, p);
        InsertSorted(ps, p);
        forall x
          ensures x in Insert(ps, p) <==> x in ps || x == p
        {
          InsertMembers(ps, p, x);
        }
        ps := InsertByName(files, ps, p);
      }
    }
    SortedUnique(ps, SortedList(Children(files, dir)));
    assert forall i :: 0 <= i < |ps| ==> ps[i] in ps;
    infos := seq(|ps|, i requires 0 <= i < |ps| => InfoOf(files[ps[i]], files[ps[i]].name));
    forall i, j | 0 <= i < j < |infos|
      ensures Less(infos[i].name, infos[j].name)
    {
      ListingByName(files, dir, i, j);
    }
  }

  lemma {:induction false} LessAfterPrefix(prefix: string, a: string, b: string)
    ensures Less(prefix + a, prefix + b) <==> Less(a, b)
  {
    if prefix == "" {
      assert prefix + a == a && prefix + b == b;
    } else {
      LessAfterPrefix(prefix[1..], a, b);
      assert (prefix + a)[1..] == prefix[1..] + a && (prefix + b)[1..] == prefix[1..] + b;
    }
  }

  /** When file names are the last elements of their paths, a listing is sorted by name and holds each child once. */
  lemma ListingByName(files: Files, dir: Path, i: nat, j: nat)
    requires i < j < |Listing(files, dir)| && Tidy(dir)
    requires Named(files) && AllTidy(files)
    ensures Less(Listing(files, dir)[i].name, Listing(files, dir)[j].name)
  {
    var ps := SortedList(Children(files, dir));
    assert ps[i] in ps && ps[j] in ps;
    ByNameIsByPath(files, dir, ps[i], ps[j]);
  }

  lemma ChildSplit(dir: Path, p: Path)
    requires DirectChild(dir, p) && Tidy(p) && Tidy(dir)
    ensures p == (if dir == "/" then "/" else dir + "/") + Base(p)
  {
    var prefix := if dir == "/" then "/" else dir + "/";
    var i := MetadataCache.LastSlash(p);
    assert p[|prefix| - 1] == prefix[|prefix| - 1] == '/';
    assert forall j :: |prefix| <= j < |p| ==> p[j] == p[|prefix|..][j - |prefix|];
    assert i == |prefix| - 1;
    assert p == p[..|prefix|] + p[|prefix|..];
    assert p != "/";
  }

  // ---- What the operations mean ----

  predicate Unrelated(a: Path, b: Path) {
    a != b && !Below(a, b) && !Below(b, a)
  }

  /** Where a path below a renamed directory ends up. */
  function Moved(old': Path, new': Path, q: Path): Path
    requires |q| >= |old'|
  {
    new' + q[|old'|..]
  }

  lemma MovedBack(old': Path, new': Path, q: Path)
    requires Below(old', q)
    ensures Below(new', Moved(old', new', q)) && old' + Moved(old', new', q)[|new'|..] == q
  {
    assert q[..|old'|] == q[..|old'| + 1][..|old'|] == old';
    assert q == q[..|old'|] + q[|old'|..];
    assert q[|old'|] == q[..|old'| + 1][|old'|] == '/';
    assert Moved(old', new', q)[..|new'| + 1] == new' + "/";
  }

  lemma MovedForth(old': Path, new': Path, t: Path)
    requires Below(new', t)
    ensures Below(old', old' + t[|new'|..]) && Moved(old', new', old' + t[|new'|..]) == t
  {
    MovedBack(new', old', t);
  }

  /** Between unrelated paths, a map of files keeps what is not below the old path, and has the rest below the new one. */
  lemma MoveBelowMeans(files: Files, old': Path, new': Path)
    requires Unrelated(old', new') && forall p :: p in files ==> !Below(new', p)
    ensures var r := MoveBelow(files, old', new');
            && (forall q :: q in files && Below(old', q) ==>
                  Moved(old', new', q) in r && r[Moved(old', new', q)] == files[q].(name := Base(Moved(old', new', q))))
            && (forall p :: p in files && !Below(old', p) ==> p in r && r[p] == files[p])
            && (forall t :: t in r ==>
                  (t in files && !Below(old', t)) || (Below(new', t) && old' + t[|new'|..] in files))
  {
    var r := MoveBelow(files, old', new');
    forall q | q in files && Below(old', q)
      ensures Moved(old', new', q) in r && r[Moved(old', new', q)] == files[q].(name := Base(Moved(old', new', q)))
    {
      MovedBack(old', new', q);
    }
    hide Base;
    forall t | t in r
      ensures (t in files && !Below(old', t)) || (Below(new', t) && old' + t[|new'|..] in files)
    {
      var targets := set p | p in files && Below(old', p) :: new' + p[|old'|..];
      if !(t in files && !Below(old', t)) {
        assert t in targets;
        var p :| p in files && Below(old', p) && t == new' + p[|old'|..];
        MovedBack(old', new', p);
      }
    }
    forall p | p in files && !Below(old', p)
      ensures p in r && r[p] == files[p]
    {
      var targets := set p | p in files && Below(old', p) :: new' + p[|old'|..];
      if p in targets {
        var q :| q in files && Below(old', q) && p == new' + q[|old'|..];
        MovedBack(old', new', q);
      }
    }
  }

  /**
   Rename of a directory between unrelated paths, with nothing below the new one yet: the directory and
   everything below it arrive with contents, mode, time and type, under their new names; every other
   path stays as it was; and nothing else is there.
   */
  lemma RenameMeans(files: Files, old': Path, new': Path)
    requires old' in files && new' !in files && files[old'].isDir && Unrelated(old', new')
    requires forall p :: p in files ==> !Below(new', p)
    ensures Rename(files, old', new').Ok?
    ensures var r := Rename(files, old', new').value;
            && new' in r && r[new'] == files[old'].(name := Base(new'))
            && (forall q :: q in files && Below(old', q) ==>
                  Moved(old', new', q) in r && r[Moved(old', new', q)] == files[q].(name := Base(Moved(old', new', q))))
            && (forall p :: p in files && p != old' && !Below(old', p) ==> p in r && r[p] == files[p])
            && (forall t :: t in r ==>
                  || t == new'
                  || (t in files && t != old' && !Below(old', t))
                  || (Below(new', t) && old' + t[|new'|..] in files))
  {
    var moved := MovedFiles(files, old', new');
    assert forall p :: p in moved <==> p == new' || (p in files && p != old');
    NotBelowItself(new');
    NotBelowItself(old');
    hide MoveBelow, Base;
    MoveBelowMeans(moved, old', new');
    assert !Below(old', new');
    forall t | t in Rename(files, old', new').value && !(t in moved && !Below(old', t))
      ensures Below(new', t) && old' + t[|new'|..] in files
    {
      MovedForth(old', new', t);
    }
  }

  lemma NotBelowItself(p: Path)
    ensures !Below(p, p)
  {
  }

  /** Rename of a plain file moves it alone. */
  lemma RenameFileMeans(files: Files, old': Path, new': Path)
    requires old' in files && new' !in files && !files[old'].isDir
    ensures Rename(files, old', new').Ok?
    ensures var r := Rename(files, old', new').value;
            && r.Keys == files.Keys - {old'} + {new'}
            && r[new'] == files[old'].(name := Base(new'))
            && (forall p :: p in files && p != old' ==> r[p] == files[p])
  {
  }

  /** Rename refuses a missing source and an existing target. */
  lemma RenameRefuses(files: Files, old': Path, new': Path)
    ensures Rename(files, old', new').Err? <==> old' !in files || new' in files
    ensures old' !in files ==> Rename(files, old', new') == Err(NotExist)
    ensures old' in files && new' in files ==> Rename(files, old', new') == Err(Exist)
  {
  }

  /** A directory mode: the directory bit is set, the lower bits are those asked for. */
  lemma WithDirBitMeans(mode: nat)
    ensures WithDirBit(mode) / 0x8000_0000 % 2 == 1 && WithDirBit(mode) % 0x8000_0000 == mode % 0x8000_0000
  {
  }

  /** Mkdir makes one empty directory in an existing one, and otherwise refuses. */
  lemma MkdirMeans(files: Files, p: Path, perm: nat, now: int)
    ensures var r := Mkdir(files, p, perm, now);
            && (r.Ok? <==> p !in files && Dir(p) in files && files[Dir(p)].isDir)
            && (r.Ok? ==> r.value - {p} == files && p in r.value && r.value[p].isDir && r.value[p].content == []
                          && r.value[p].name == Base(p) && r.value[p].modTime == now && r.value[p].mode == WithDirBit(perm))
            && (p in files ==> r == Err(Exist)) && (p !in files && Dir(p) !in files ==> r == Err(NotExist))
  {
    if Mkdir(files, p, perm, now).Ok? {
      assert Mkdir(files, p, perm, now).value - {p} == files;
    }
  }

  /** Remove takes one path away, and refuses a missing one and a directory with something below it. */
  lemma RemoveMeans(files: Files, p: Path)
    ensures var r := Remove(files, p);
            && (r.Ok? <==> p in files && !(files[p].isDir && exists q :: q in files && Below(p, q)))
            && (r.Ok? ==> r.value.Keys == files.Keys - {p} && forall q :: q in r.value ==> r.value[q] == files[q])
            && (p !in files ==> r == Err(NotExist)) && (p in files && r.Err? ==> r == Err(NotEmpty))
  {
    NotBelowItself(p);
    assert (exists q :: q in files && q != p && Below(p, q)) <==> (exists q :: q in files && Below(p, q));
  }

  /** Chmod changes the mode of one file, keeping directories directories. */
  lemma ChmodMeans(files: Files, p: Path, mode: nat)
    ensures var r := Chmod(files, p, mode);
            && (r.Ok? <==> p in files) && (r.Err? ==> r == Err(NotExist))
            && (r.Ok? ==> r.value.Keys == files.Keys && (forall q :: q in files && q != p ==> r.value[q] == files[q])
                          && r.value[p].(mode := files[p].mode) == files[p]
                          && r.value[p].mode == (if files[p].isDir then WithDirBit(mode) else mode))
  {
  }

  /** Chtimes changes the modification time of one file. */
  lemma ChtimesMeans(files: Files, p: Path, mtime: int)
    ensures var r := Chtimes(files, p, mtime);
            && (r.Ok? <==> p in files) && (r.Err? ==> r == Err(NotExist))
            && (r.Ok? ==> r.value.Keys == files.Keys && (forall q :: q in files && q != p ==> r.value[q] == files[q])
                          && r.value[p].(modTime := files[p].modTime) == files[p] && r.value[p].modTime == mtime)
  {
  }

  /** A listing holds exactly the direct children, each with its own size, mode, time and type. */
  lemma ListingMeans(files: Files, dir: Path)
    requires Named(files) && AllTidy(files) && Tidy(dir)
    ensures forall p :: p in files && p != "/" && MetadataCache.ParentPath(p) == dir && Base(p) != "." && Base(p) != ".." ==>
              FileInfo(Base(p), |files[p].content|, files[p].mode, files[p].modTime, files[p].isDir) in Listing(files, dir)
    ensures forall info :: info in Listing(files, dir) ==>
              exists p :: p in files && p != "/" && MetadataCache.ParentPath(p) == dir
                          && info == FileInfo(Base(p), |files[p].content|, files[p].mode, files[p].modTime, files[p].isDir)
  {
    var ps := SortedList(Children(files, dir));
    forall p | p in files && p != "/" && MetadataCache.ParentPath(p) == dir && Base(p) != "." && Base(p) != ".."
      ensures FileInfo(Base(p), |files[p].content|, files[p].mode, files[p].modTime, files[p].isDir) in Listing(files, dir)
    {
      ChildIffParent(dir, p);
      assert p in ps;
      var i :| 0 <= i < |ps| && ps[i] == p;
      assert Listing(files, dir)[i] == InfoOf(files[p], files[p].name);
    }
    forall info | info in Listing(files, dir)
      ensures exists p :: p in files && p != "/" && MetadataCache.ParentPath(p) == dir
                          && info == FileInfo(Base(p), |files[p].content|, files[p].mode, files[p].modTime, files[p].isDir)
    {
      var i :| 0 <= i < |Listing(files, dir)| && Listing(files, dir)[i] == info;
      assert ps[i] in ps;
      ChildIffParent(dir, ps[i]);
    }
  }
}
