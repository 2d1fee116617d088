/**
 The metadata cache of the client: two maps of time-stamped entries and one list that
 orders their keys for eviction.
 */
module MetadataCache {
  import opened Wrappers

  datatype Config = Config(enabled: bool, dirTtl: int, statTtl: int, maxEntries: int)

  datatype Stamped<+T> = Stamped(value: T, cachedAt: int)

  /** Cached directory listings of type D and file infos of type I, by path. */
  datatype Cache<D, I> = Cache(dir: map<string, Stamped<D>>, stat: map<string, Stamped<I>>, order: seq<string>) {

    function Total(): nat {
      |dir| + |stat|
    }

    predicate Live(path: string) {
      path in dir || path in stat
    }
  }

  // ---- The order list ----

  function Without(order: seq<string>, path: string): (r: seq<string>)
  {
    if order == [] then []
    else if order[0] == path then order[1..]
    else [order[0]] + Without(order[1..], path)
  }

  /** A stored path moves to the end. */
  function Track(order: seq<string>, path: string): seq<string> {
    Without(order, path) + [path]
  }

  predicate Distinct(s: seq<string>) {
    forall i, j :: 0 <= i < j < |s| ==> s[i] != s[j]
  }

  lemma {:induction false} WithoutMembers(order: seq<string>, path: string, x: string)
    requires Distinct(order)
    ensures x in Without(order, path) <==> x in order && x != path
  {
    if order != [] {
      assert order == [order[0]] + order[1..];
      if order[0] != path {
        WithoutMembers(order[1..], path, x);
      }
    }
  }

  lemma {:induction false} WithoutDistinct(order: seq<string>, path: string)
    requires Distinct(order)
    ensures Distinct(Without(order, path))
  {
    if order != [] && order[0] != path {
      var w := Without(order[1..], path);
      WithoutDistinct(order[1..], path);
      WithoutMembers(order[1..], path, order[0]);
      assert order[0] !in order[1..];
      assert order[0] !in w;
      assert Distinct([order[0]] + w);
    }
  }

  lemma TrackFacts(order: seq<string>, path: string)
    requires Distinct(order)
    ensures Distinct(Track(order, path)) && path in Track(order, path)
    ensures forall x :: x in order ==> x in Track(order, path)
  {
    WithoutDistinct(order, path);
    WithoutMembers(order, path, path);
    forall x | x in order
      ensures x in Track(order, path)
    {
      WithoutMembers(order, path, x);
    }
  }

  // ---- Operations ----

  function Elems(s: seq<string>): (r: set<string>)
    ensures forall x :: x in r <==> x in s
  {
    set x | x in s
  }

  /** Drops the `n` oldest paths with everything cached for them. */
  function EvictOldest<D, I>(c: Cache<D, I>, n: nat): Cache<D, I>
    requires n <= |c.order|
  {
    Cache(c.dir - Elems(c.order[..n]), c.stat - Elems(c.order[..n]), c.order[n..])
  }

  /** How many paths eviction pops: one per surplus entry, as far as the order list reaches. */
  function PopCount<D, I>(c: Cache<D, I>, max: int): (n: nat)
    ensures n <= |c.order|
  {
    var surplus := c.Total() - max;
    if surplus <= 0 then 0 else if surplus <= |c.order| then surplus else |c.order|
  }

  function EvictIfNeeded<D, I>(c: Cache<D, I>, max: int): Cache<D, I> {
    EvictOldest(c, PopCount(c, max))
  }

  function PutDir<D, I>(cfg: Config, c: Cache<D, I>, path: string, entries: D, now: int): Cache<D, I> {
    if !cfg.enabled || cfg.dirTtl == 0 then c
    else EvictIfNeeded(Cache(c.dir[path := Stamped(entries, now)], c.stat, Track(c.order, path)), cfg.maxEntries)
  }

  function PutStat<D, I>(cfg: Config, c: Cache<D, I>, path: string, info: I, now: int): Cache<D, I> {
    if !cfg.enabled || cfg.statTtl == 0 then c
    else EvictIfNeeded(Cache(c.dir, c.stat[path := Stamped(info, now)], Track(c.order, path)), cfg.maxEntries)
  }

  function GetDir<D, I>(cfg: Config, c: Cache<D, I>, path: string, now: int): Option<D> {
    if !cfg.enabled || cfg.dirTtl == 0 || path !in c.dir || now - c.dir[path].cachedAt > cfg.dirTtl then None
    else Some(c.dir[path].value)
  }

  function GetStat<D, I>(cfg: Config, c: Cache<D, I>, path: string, now: int): Option<I> {
    if !cfg.enabled || cfg.statTtl == 0 || path !in c.stat || now - c.stat[path].cachedAt > cfg.statTtl then None
    else Some(c.stat[path].value)
  }

  /** Position of the last slash, or -1. */
  function LastSlash(path: string): (i: int)
    ensures -1 <= i < |path|
    ensures i >= 0 ==> path[i] == '/'
    ensures forall j :: i < j < |path| ==> path[j] != '/'
  {
    if path == "" then -1
    else if path[|path| - 1] == '/' then |path| - 1
    else LastSlash(path[..|path| - 1])
  }

  function ParentPath(path: string): string {
    if path == "/" || LastSlash(path) <= 0 then "/" else path[..LastSlash(path)]
  }

  /** The path itself and the listing of its parent. */
  function Invalidate<D, I>(cfg: Config, c: Cache<D, I>, path: string): Cache<D, I> {
    if !cfg.enabled then c
    else c.(dir := c.dir - {path, ParentPath(path)}, stat := c.stat - {path})
  }

  function InvalidateAll<D, I>(cfg: Config, c: Cache<D, I>): Cache<D, I> {
    if !cfg.enabled then c else Cache(map[], map[], [])
  }

  // ---- Least recently stored ----

  datatype Op<D, I> =
    | StoreDir(path: string, entries: D, now: int)
    | StoreStat(path: string, info: I, now: int)
    | Drop(path: string)
    | DropAll

  function Apply<D, I>(cfg: Config, c: Cache<D, I>, op: Op<D, I>): Cache<D, I> {
    match op
    case StoreDir(path, entries, now) => PutDir(cfg, c, path, entries, now)
    case StoreStat(path, info, now) => PutStat(cfg, c, path, info, now)
    case Drop(path) => Invalidate(cfg, c, path)
    case DropAll => InvalidateAll(cfg, c)
  }

  function Run<D, I>(cfg: Config, ops: seq<Op<D, I>>): Cache<D, I> {
    if ops == [] then Cache(map[], map[], []) else Apply(cfg, Run(cfg, ops[..|ops| - 1]), ops[|ops| - 1])
  }

  /** Does the operation store anything under this configuration? */
  predicate Stores<D, I>(cfg: Config, op: Op<D, I>) {
    cfg.enabled && ((op.StoreDir? && cfg.dirTtl != 0) || (op.StoreStat? && cfg.statTtl != 0))
  }

  /** All paths ever stored since the last clearing, least recently stored first: no eviction, no invalidation. */
  function Recency<D, I>(cfg: Config, ops: seq<Op<D, I>>): seq<string> {
    if ops == [] then []
    else
      var before, op := Recency(cfg, ops[..|ops| - 1]), ops[|ops| - 1];
      if Stores(cfg, op) then Track(before, op.path)
      else if op.DropAll? && cfg.enabled then []
      else before
  }

  predicate Suffix(s: seq<string>, whole: seq<string>) {
    |s| <= |whole| && s == whole[|whole| - |s|..]
  }

  ghost predicate Inv<D, I>(c: Cache<D, I>) {
    Distinct(c.order) && forall path :: c.Live(path) ==> path in c.order
  }

  lemma {:induction false} WithoutAppend(a: seq<string>, b: seq<string>, path: string)
    ensures Without(a + b, path) == if path in a then Without(a, path) + b else a + Without(b, path)
  {
    if a == [] {
      assert a + b == b && [] + Without(b, path) == Without(b, path);
    } else {
      assert (a + b)[1..] == a[1..] + b;
      WithoutAppend(a[1..], b, path);
      assert a == [a[0]] + a[1..];
    }
  }

  lemma {:induction false} WithoutAbsent(s: seq<string>, path: string)
    requires path !in s
    ensures Without(s, path) == s
  {
    if s != [] {
      WithoutAbsent(s[1..], path);
      assert s == [s[0]] + s[1..];
    }
  }

  lemma TrackKeepsSuffix(s: seq<string>, whole: seq<string>, path: string)
    requires Suffix(s, whole) && Distinct(whole)
    ensures Suffix(Track(s, path), Track(whole, path))
  {
    var front := whole[..|whole| - |s|];
    assert whole == front + s;
    WithoutAppend(front, s, path);
    if path in front {
      assert path !in s;
      WithoutAbsent(s, path);
      assert Track(whole, path) == Without(front, path) + (s + [path]);
    } else {
      assert Track(whole, path) == front + (Without(s, path) + [path]);
    }
  }

  lemma EvictKeepsInv<D, I>(c: Cache<D, I>, n: nat)
    requires Inv(c) && n <= |c.order|
    ensures Inv(EvictOldest(c, n)) && Suffix(EvictOldest(c, n).order, c.order)
  {
    var c' := EvictOldest(c, n);
    forall path | c'.Live(path)
      ensures path in c'.order
    {
      assert c.Live(path) && path !in c.order[..n];
      assert c.order == c.order[..n] + c.order[n..];
    }
  }

  lemma SuffixTrans(a: seq<string>, b: seq<string>, c: seq<string>)
    requires Suffix(a, b) && Suffix(b, c)
    ensures Suffix(a, c)
  {
  }

  /** Storing keeps the invariant and the recency order, whatever it evicts. */
  lemma StoreKeeps<D, I>(c: Cache<D, I>, op: Op<D, I>, max: int, whole: seq<string>)
    requires op.StoreDir? || op.StoreStat?
    requires Inv(c) && Suffix(c.order, whole) && Distinct(whole)
    ensures var c' := EvictIfNeeded(Stored(c, op), max);
            Inv(c') && Suffix(c'.order, Track(whole, op.path))
    ensures Distinct(Track(whole, op.path))
  {
    var c1 := Stored(c, op);
    TrackFacts(c.order, op.path);
    TrackFacts(whole, op.path);
    TrackKeepsSuffix(c.order, whole, op.path);
    assert forall p :: c1.Live(p) ==> c.Live(p) || p == op.path;
    EvictKeepsInv(c1, PopCount(c1, max));
    SuffixTrans(EvictIfNeeded(c1, max).order, c1.order, Track(whole, op.path));
  }

  /**
   In every history the order list is duplicate-free, covers every cached path, and is a suffix of the
   recency order of all stores: eviction has only ever taken the least recently stored paths.
   */
  lemma {:induction false} OrderIsRecency<D, I>(cfg: Config, ops: seq<Op<D, I>>)
    ensures Inv(Run(cfg, ops)) && Distinct(Recency(cfg, ops))
    ensures Suffix(Run(cfg, ops).order, Recency(cfg, ops))
    decreases |ops|
  {
    if ops != [] {
      var before, op := ops[..|ops| - 1], ops[|ops| - 1];
      OrderIsRecency(cfg, before);
      if Stores(cfg, op) {
        StoreKeeps(Run(cfg, before), op, cfg.maxEntries, Recency(cfg, before));
      }
    }
  }

  /** A cache with the entry of a storing operation added, before eviction. */
  function Stored<D, I>(c: Cache<D, I>, op: Op<D, I>): Cache<D, I>
    requires op.StoreDir? || op.StoreStat?
  {
    match op
    case StoreDir(path, entries, now) => Cache(c.dir[path := Stamped(entries, now)], c.stat, Track(c.order, path))
    case StoreStat(path, info, now) => Cache(c.dir, c.stat[path := Stamped(info, now)], Track(c.order, path))
  }

  // ---- The size bound ----

  /** Paths among the first `n` of the order that no longer have anything cached. */
  function DeadCount<D, I>(c: Cache<D, I>, n: nat): nat
    requires n <= |c.order|
  {
    if n == 0 then 0 else DeadCount(c, n - 1) + if c.Live(c.order[n - 1]) then 0 else 1
  }

  lemma DropOne<T>(m: map<string, T>, k: string)
    ensures |m - {k}| == |m| - if k in m then 1 else 0
  {
    var r := m - {k};
    if k in m {
      assert m.Keys == r.Keys + {k};
      assert |m.Keys| == |r.Keys| + 1;
    } else {
      assert r == m;
    }
  }

  lemma DropSnoc<T>(m: map<string, T>, init: seq<string>, last: string)
    requires last !in init && |m - Elems(init)| == |m| - HitCount(m, init)
    ensures |m - Elems(init + [last])| == |m| - HitCount(m, init + [last])
  {
    DropOne(m - Elems(init), last);
    DropTwice(m, init, last);
    assert (init + [last])[..|init|] == init;
    assert HitCount(m, init + [last]) == HitCount(m, init) + if last in m then 1 else 0;
  }

  lemma DropTwice<T>(m: map<string, T>, init: seq<string>, last: string)
    ensures m - Elems(init + [last]) == m - Elems(init) - {last}
  {
  }

  lemma {:induction false} DropKeysSize<T>(m: map<string, T>, keys: seq<string>)
    requires Distinct(keys)
    ensures |m - Elems(keys)| == |m| - HitCount(m, keys)
    decreases |keys|
  {
    if keys == [] {
      assert m - Elems(keys) == m;
    } else {
      var init, last := keys[..|keys| - 1], keys[|keys| - 1];
      assert init + [last] == keys;
      assert last !in init by {
        assert forall i :: 0 <= i < |init| ==> keys[i] != keys[|keys| - 1];
      }
      DropKeysSize(m, init);
      DropSnoc(m, init, last);
    }
  }

  function HitCount<T>(m: map<string, T>, keys: seq<string>): nat {
    if keys == [] then 0 else HitCount(m, keys[..|keys| - 1]) + if keys[|keys| - 1] in m then 1 else 0
  }

  /** Every popped path that is still live frees at least one entry. */
  lemma {:induction false} LiveFrees<D, I>(c: Cache<D, I>, n: nat)
    requires n <= |c.order|
    ensures HitCount(c.dir, c.order[..n]) + HitCount(c.stat, c.order[..n]) >= n - DeadCount(c, n)
  {
    if n > 0 {
      LiveFrees(c, n - 1);
      assert c.order[..n][..n - 1] == c.order[..n - 1];
    }
  }

  lemma EvictedSize<D, I>(c: Cache<D, I>, n: nat)
    requires Inv(c) && n <= |c.order|
    ensures EvictOldest(c, n).Total() <= c.Total() - n + DeadCount(c, n)
  {
    DropKeysSize(c.dir, c.order[..n]);
    DropKeysSize(c.stat, c.order[..n]);
    LiveFrees(c, n);
  }

  lemma EvictedAll<D, I>(c: Cache<D, I>)
    requires Inv(c)
    ensures EvictOldest(c, |c.order|).Total() == 0
  {
    assert c.order[..|c.order|] == c.order;
    assert forall p :: p in c.dir || p in c.stat ==> c.Live(p);
    assert c.dir - Elems(c.order) == map[];
    assert c.stat - Elems(c.order) == map[];
  }

  /**
   After a store under a positive limit, the cache exceeds the limit by at most the number of
   already-invalidated paths that eviction popped, so by nothing when there were none.
   */
  lemma StoreBound<D, I>(cfg: Config, ops: seq<Op<D, I>>, op: Op<D, I>)
    requires cfg.maxEntries > 0 && Stores(cfg, op)
    ensures var c1 := Stored(Run(cfg, ops), op);
            Run(cfg, ops + [op]).Total() <= cfg.maxEntries + DeadCount(c1, PopCount(c1, cfg.maxEntries))
  {
    hide EvictOldest, DeadCount;
    OrderIsRecency(cfg, ops);
    var c := Run(cfg, ops);
    var c1 := Stored(c, op);
    assert (ops + [op])[..|ops|] == ops;
    assert Run(cfg, ops + [op]) == EvictIfNeeded(c1, cfg.maxEntries);
    TrackFacts(c.order, op.path);
    assert Inv(c1);
    EvictedSize(c1, PopCount(c1, cfg.maxEntries));
    EvictedAll(c1);
  }

  /** A stored path goes to the end; the others keep their order. */
  lemma TrackMeans(order: seq<string>, path: string)
    requires Distinct(order)
    ensures path !in order ==> Track(order, path) == order + [path]
    ensures forall i :: 0 <= i < |order| && order[i] == path ==> Track(order, path) == order[..i] + order[i + 1..] + [path]
  {
    if path !in order {
      WithoutAbsent(order, path);
    }
    forall i | 0 <= i < |order| && order[i] == path
      ensures Track(order, path) == order[..i] + order[i + 1..] + [path]
    {
      assert path !in order[..i];
      WithoutAt(order, path, i);
    }
  }

  /** An invalidation drops the path's info and listing and its parent's listing, and nothing else. */
  lemma InvalidateMeans<D, I>(cfg: Config, c: Cache<D, I>, path: string)
    requires cfg.enabled
    ensures var c' := Invalidate(cfg, c, path);
            && c'.order == c.order
            && (forall q :: q in c'.stat <==> q in c.stat && q != path)
            && (forall q :: q in c'.dir <==> q in c.dir && q != path && q != ParentPath(path))
            && (forall q :: q in c'.stat ==> c'.stat[q] == c.stat[q]) && (forall q :: q in c'.dir ==> c'.dir[q] == c.dir[q])
  {
    hide ParentPath;
  }

  // ---- What is served ----

  /** What was last stored for the path and not dropped since, whatever was evicted. */
  function LastStat<D, I>(cfg: Config, ops: seq<Op<D, I>>, path: string): Option<Stamped<I>> {
    if ops == [] || !cfg.enabled then None
    else
      var before := LastStat(cfg, ops[..|ops| - 1], path);
      match ops[|ops| - 1]
      case StoreStat(p, info, now) => if p == path && cfg.statTtl != 0 then Some(Stamped(info, now)) else before
      case Drop(p) => if p == path then None else before
      case DropAll => None
      case StoreDir(_, _, _) => before
  }

  function LastDir<D, I>(cfg: Config, ops: seq<Op<D, I>>, path: string): Option<Stamped<D>> {
    if ops == [] || !cfg.enabled then None
    else
      var before := LastDir(cfg, ops[..|ops| - 1], path);
      match ops[|ops| - 1]
      case StoreDir(p, entries, now) => if p == path && cfg.dirTtl != 0 then Some(Stamped(entries, now)) else before
      case Drop(p) => if p == path || ParentPath(p) == path then None else before
      case DropAll => None
      case StoreStat(_, _, _) => before
  }

  /** Whatever the cache holds was last stored so, and not dropped since. */
  /** What one operation leaves for a path. */
  lemma ApplyStat<D, I>(cfg: Config, c: Cache<D, I>, op: Op<D, I>, path: string)
    requires cfg.enabled && path in Apply(cfg, c, op).stat
    ensures var c' := Apply(cfg, c, op);
            && (op.StoreStat? && op.path == path && cfg.statTtl != 0 ==> c'.stat[path] == Stamped(op.info, op.now))
            && (!(op.StoreStat? && op.path == path && cfg.statTtl != 0) ==> path in c.stat && c'.stat[path] == c.stat[path])
            && op != DropAll && op != Drop(path)
  {
    hide ParentPath, Track, PopCount;
  }

  lemma ApplyDir<D, I>(cfg: Config, c: Cache<D, I>, op: Op<D, I>, path: string)
    requires cfg.enabled && path in Apply(cfg, c, op).dir
    ensures var c' := Apply(cfg, c, op);
            && (op.StoreDir? && op.path == path && cfg.dirTtl != 0 ==> c'.dir[path] == Stamped(op.entries, op.now))
            && (!(op.StoreDir? && op.path == path && cfg.dirTtl != 0) ==> path in c.dir && c'.dir[path] == c.dir[path])
            && op != DropAll && (op.Drop? ==> op.path != path && ParentPath(op.path) != path)
  {
    hide ParentPath, Track, PopCount;
  }

  lemma {:induction false} NothingHeld<D, I>(cfg: Config, ops: seq<Op<D, I>>)
    requires !cfg.enabled
    ensures Run(cfg, ops) == Cache(map[], map[], [])
    decreases |ops|
  {
    if ops != [] {
      NothingHeld(cfg, ops[..|ops| - 1]);
    }
  }

  /** Whatever the cache holds was last stored so, and not dropped since. */
  lemma {:induction false} HeldIsLast<D, I>(cfg: Config, ops: seq<Op<D, I>>, path: string)
    ensures var c := Run(cfg, ops);
            && (path in c.stat ==> LastStat(cfg, ops, path) == Some(c.stat[path]))
            && (path in c.dir ==> LastDir(cfg, ops, path) == Some(c.dir[path]))
    decreases |ops|
  {
    if !cfg.enabled {
      NothingHeld(cfg, ops);
    } else if ops != [] {
      hide Apply, ParentPath;
      var before, op := ops[..|ops| - 1], ops[|ops| - 1];
      HeldIsLast(cfg, before, path);
      var c := Run(cfg, before);
      if path in Apply(cfg, c, op).stat {
        ApplyStat(cfg, c, op, path);
      }
      if path in Apply(cfg, c, op).dir {
        ApplyDir(cfg, c, op, path);
      }
    }
  }

  /**
   In every history a file info is served exactly while caching is on, it is still held, and it is no
   older than its time to live; it is then the one last stored and not dropped since.
   */
  lemma ServedStatIff<D, I>(cfg: Config, ops: seq<Op<D, I>>, path: string, now: int)
    ensures var c, last := Run(cfg, ops), LastStat(cfg, ops, path);
            var r := GetStat(cfg, c, path, now);
            && (r.Some? <==> cfg.enabled && cfg.statTtl != 0 && path in c.stat && last.Some? && now - last.value.cachedAt <= cfg.statTtl)
            && (r.Some? ==> r.value == last.value.value)
  {
    HeldIsLast(cfg, ops, path);
    hide Run, LastStat, LastDir;
  }

  lemma ServedDirIff<D, I>(cfg: Config, ops: seq<Op<D, I>>, path: string, now: int)
    ensures var c, last := Run(cfg, ops), LastDir(cfg, ops, path);
            var r := GetDir(cfg, c, path, now);
            && (r.Some? <==> cfg.enabled && cfg.dirTtl != 0 && path in c.dir && last.Some? && now - last.value.cachedAt <= cfg.dirTtl)
            && (r.Some? ==> r.value == last.value.value)
  {
    HeldIsLast(cfg, ops, path);
    hide Run, LastStat, LastDir;
  }

  /** A store evicts one path per entry above the limit, oldest first, and no more; all other paths keep what they had. */
  lemma EvictsOnlySurplus<D, I>(cfg: Config, ops: seq<Op<D, I>>, op: Op<D, I>)
    requires Stores(cfg, op)
    ensures var c1, c2 := Stored(Run(cfg, ops), op), Run(cfg, ops + [op]);
            var gone := |c1.order| - |c2.order|;
            && (c1.Total() <= cfg.maxEntries ==> c2 == c1)
            && (c1.Total() > cfg.maxEntries ==> gone == if c1.Total() - cfg.maxEntries <= |c1.order| then c1.Total() - cfg.maxEntries else |c1.order|)
            && (forall path :: path in c2.stat <==> path in c1.stat && path !in c1.order[..gone])
            && (forall path :: path in c2.dir <==> path in c1.dir && path !in c1.order[..gone])
            && (forall path :: path in c2.stat ==> c2.stat[path] == c1.stat[path])
            && (forall path :: path in c2.dir ==> c2.dir[path] == c1.dir[path])
  {
    assert (ops + [op])[..|ops|] == ops;
    var c1 := Stored(Run(cfg, ops), op);
    assert Run(cfg, ops + [op]) == EvictIfNeeded(c1, cfg.maxEntries);
    hide Run, Stored;
    EvictNone(c1);
  }

  /** A store puts its value, stamped with its time, under its path, and changes no other entry. */
  lemma StoredMeans<D, I>(c: Cache<D, I>, op: Op<D, I>)
    requires op.StoreDir? || op.StoreStat?
    ensures var c1 := Stored(c, op);
            && (op.StoreStat? ==> op.path in c1.stat && c1.stat[op.path] == Stamped(op.info, op.now) && c1.dir == c.dir
                                  && c1.stat - {op.path} == c.stat - {op.path})
            && (op.StoreDir? ==> op.path in c1.dir && c1.dir[op.path] == Stamped(op.entries, op.now) && c1.stat == c.stat
                                 && c1.dir - {op.path} == c.dir - {op.path})
  {
  }

  // ---- The cache object ----

  lemma {:induction false} WithoutAt(order: seq<string>, path: string, i: nat)
    requires i < |order| && order[i] == path && path !in order[..i]
    ensures Without(order, path) == order[..i] + order[i + 1..]
  {
    if i > 0 {
      assert order[0] in order[..i];
      assert order[1..][..i - 1] == order[..i][1..];
      WithoutAt(order[1..], path, i - 1);
      assert order[..i] == [order[0]] + order[1..][..i - 1];
    }
  }

  lemma EvictOneMore<D, I>(c: Cache<D, I>, n: nat)
    requires n < |c.order|
    ensures var c' := EvictOldest(c, n);
            c'.order != [] && EvictOldest(c, n + 1) == Cache(c'.dir - {c'.order[0]}, c'.stat - {c'.order[0]}, c'.order[1..])
  {
  }

  lemma EvictNone<D, I>(c: Cache<D, I>)
    ensures EvictOldest(c, 0) == c
  {
  }

  class Store<D, I> {
    const cfg: Config
    var dirCache: map<string, Stamped<D>>
    var statCache: map<string, Stamped<I>>
    var accessOrder: seq<string>

    ghost function State(): Cache<D, I>
      reads this
    {
      Cache(dirCache, statCache, accessOrder)
    }

    constructor (cfg: Config)
      ensures this.cfg == cfg && State() == Cache(map[], map[], [])
    {
      this.cfg := cfg;
      dirCache, statCache, accessOrder := map[], map[], [];
    }

    method TrackAccess(path: string)
      modifies this`accessOrder
      ensures accessOrder == Track(old(accessOrder), path)
    {
      var i := 0;
      while i < |accessOrder| && accessOrder[i] != path
        invariant 0 <= i <= |accessOrder| && accessOrder == old(accessOrder)
        invariant path !in accessOrder[..i]
      {
        i := i + 1;
      }
      if i < |accessOrder| {
        WithoutAt(accessOrder, path, i);
        accessOrder := accessOrder[..i] + accessOrder[i + 1..];
      } else {
        assert accessOrder[..i] == accessOrder;
        WithoutAbsent(accessOrder, path);
      }
      accessOrder := accessOrder + [path];
    }

    method Evict()
      modifies this
      ensures State() == EvictIfNeeded(old(State()), cfg.maxEntries)
    {
      hide EvictOldest, Elems;
      var totalEntries := |dirCache| + |statCache|;
      ghost var c := State();
      EvictNone(c);
      if totalEntries <= cfg.maxEntries {
        return;
      }
      var entriesToEvict := totalEntries - cfg.maxEntries;
      var i := 0;
      while i < entriesToEvict && |accessOrder| > 0
        invariant 0 <= i <= entriesToEvict && |accessOrder| == |c.order| - i
        invariant State() == EvictOldest(c, i)
      {
        EvictOneMore(c, i);
        var oldestPath := accessOrder[0];
        accessOrder := accessOrder[1..];
        dirCache := dirCache - {oldestPath};
        statCache := statCache - {oldestPath};
        i := i + 1;
      }
    }

    method PutDirEntries(path: string, entries: D, now: int)
      modifies this
      ensures State() == PutDir(cfg, old(State()), path, entries, now)
    {
      hide EvictIfNeeded, Track;
      if !cfg.enabled || cfg.dirTtl == 0 {
        return;
      }
      dirCache := dirCache[path := Stamped(entries, now)];
      TrackAccess(path);
      Evict();
    }

    method PutStatInfo(path: string, info: I, now: int)
      modifies this
      ensures State() == PutStat(cfg, old(State()), path, info, now)
    {
      hide EvictIfNeeded, Track;
      if !cfg.enabled || cfg.statTtl == 0 {
        return;
      }
      statCache := statCache[path := Stamped(info, now)];
      TrackAccess(path);
      Evict();
    }

    method GetDirEntries(path: string, now: int) returns (r: Option<D>)
      ensures r == GetDir(cfg, State(), path, now)
    {
      if !cfg.enabled || cfg.dirTtl == 0 || path !in dirCache || now - dirCache[path].cachedAt > cfg.dirTtl {
        return None;
      }
      return Some(dirCache[path].value);
    }

    method GetStatInfo(path: string, now: int) returns (r: Option<I>)
      ensures r == GetStat(cfg, State(), path, now)
    {
      if !cfg.enabled || cfg.statTtl == 0 || path !in statCache || now - statCache[path].cachedAt > cfg.statTtl {
        return None;
      }
      return Some(statCache[path].value);
    }

    /** getParentPath: a backward scan for the last separator. */
    method GetParentPath(path: string) returns (parent: string)
      ensures parent == ParentPath(path)
    {
      if path == "/" || path == "" {
        return "/";
      }
      var i := |path| - 1;
      while i >= 0 && path[i] != '/'
        invariant -1 <= i < |path|
        invariant LastSlash(path) == LastSlash(path[..i + 1])
      {
        assert path[..i + 1][..i] == path[..i];
        i := i - 1;
      }
      if i <= 0 {
        return "/";
      }
      assert path[..i + 1][|path[..i + 1]| - 1] == '/';
      return path[..i];
    }

    method InvalidatePath(path: string)
      modifies this
      ensures State() == Invalidate(cfg, old(State()), path)
    {
      if !cfg.enabled {
        return;
      }
      dirCache := dirCache - {path};
      statCache := statCache - {path};
      var parentPath := GetParentPath(path);
      dirCache := dirCache - {parentPath};
      assert old(dirCache) - {path} - {parentPath} == old(dirCache) - {path, parentPath};
    }

    method Clear()
      modifies this
      ensures State() == InvalidateAll(cfg, old(State()))
    {
      if cfg.enabled {
        dirCache, statCache, accessOrder := map[], map[], [];
      }
    }
  }
}
