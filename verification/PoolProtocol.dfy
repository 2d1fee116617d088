/**
 The pool under concurrency: callers interleave at the locked sections, and connections travel through
 one-slot waiter channels. Every run keeps the ownership, accounting and waiter invariants below.
 */
module PoolProtocol {
  import opened ConnectionPool
  import opened Wrappers

  /** What the caller at the receiving end of a waiter channel is doing. */
  datatype Receiver = Selecting | Leaving | Returned

  /** A channel of capacity one; `events` counts the sends and closes it has seen. */
  datatype Chan = Chan(buffer: Option<nat>, closed: bool, events: nat, receiver: Receiver)

  /**
   `pending` counts the creations in flight, `borrowed` has one entry per caller holding a connection,
   and `served` lists the channels that were sent a connection, in order. Channels are numbered in the
   order in which their callers queued.
   */
  datatype World = World(
    pool: Pool, pending: nat, borrowed: multiset<nat>, chans: seq<Chan>, served: seq<nat>, nextId: nat)

  datatype Event =
    | Get(now: int)
    | Created(now: int)
    | CreateFailed
    | Put(id: nat, now: int)
    | Receive(chan: nat)
    | TimeOut(chan: nat)
    | ContextDone(chan: nat)
    | Leave(chan: nat)
    | Close
    | Cleanup(now: int)

  /** A send that blocks under the lock, a send or close on a closed channel, or a slice out of range. */
  datatype Outcome = Next(world: World) | Crash

  function NewWorld(): World {
    World(Pool([], [], 0, false), 0, multiset{}, [], [], 0)
  }

  // ---- Channels ----

  function Send(chans: seq<Chan>, k: nat, id: nat): Option<seq<Chan>> {
    if k >= |chans| || chans[k].closed || chans[k].buffer.Some? then None
    else Some(chans[k := chans[k].(buffer := Some(id), events := chans[k].events + 1)])
  }

  function CloseAll(chans: seq<Chan>, ks: seq<nat>): Option<seq<Chan>>
    decreases |ks|
  {
    if ks == [] then Some(chans)
    else if ks[0] >= |chans| || chans[ks[0]].closed then None
    else CloseAll(chans[ks[0] := chans[ks[0]].(closed := true, events := chans[ks[0]].events + 1)], ks[1..])
  }

  /** The connections sitting in channels. */
  function Buffered(chans: seq<Chan>): multiset<nat> {
    if chans == [] then multiset{} else InBuffer(chans[0]) + Buffered(chans[1..])
  }

  function InBuffer(c: Chan): multiset<nat> {
    match c.buffer case None => multiset{} case Some(id) => multiset{id}
  }

  // ---- Steps ----

  /** May the caller at the other end of channel `k` act in the given way? */
  predicate At(w: World, k: nat, r: Receiver) {
    k < |w.chans| && w.chans[k].receiver == r
  }

  function Answer(w: World, k: nat): World
    requires k < |w.chans|
  {
    var c := w.chans[k];
    match c.buffer
    case Some(id) =>
      w.(borrowed := w.borrowed + multiset{id}, chans := w.chans[k := c.(buffer := None, receiver := Returned)])
    case None =>
      if c.closed then w.(chans := w.chans[k := c.(receiver := Returned)]) else w
  }

  function Turn(w: World, k: nat, from: Receiver, to: Receiver): World {
    if At(w, k, from) then w.(chans := w.chans[k := w.chans[k].(receiver := to)]) else w
  }

  function GetStep(cfg: Config, w: World, now: int): Outcome {
    var (p, r) := GetSection(cfg, w.pool, now, |w.chans|);
    match r
    case Panic => Crash
    case Refused => Next(w)
    case Got(id) => Next(w.(pool := p, borrowed := w.borrowed + multiset{id}))
    case Create => Next(w.(pool := p, pending := w.pending + 1))
    case Wait => Next(w.(pool := p, chans := w.chans + [Chan(None, false, 0, Selecting)]))
  }

  /** Only a caller that holds a connection puts it back. */
  function PutStep(cfg: Config, w: World, id: nat, now: int): Outcome {
    if id !in w.borrowed then Next(w)
    else
      var (p, r) := PutSection(cfg, w.pool, id, now);
      var w' := w.(pool := p, borrowed := w.borrowed - multiset{id});
      match r
      case Handed(k) =>
        (match Send(w.chans, k, id)
         case None => Crash
         case Some(chans) => Next(w'.(chans := chans, served := w.served + [k])))
      case _ => Next(w')
  }

  function CloseStep(w: World): Outcome {
    var (p, closing) := CloseSection(w.pool);
    match CloseAll(w.chans, closing)
    case None => Crash
    case Some(chans) => Next(w.(pool := p, chans := chans))
  }

  /** One step; an event that the world does not offer changes nothing. */
  function Step(cfg: Config, w: World, e: Event): Outcome {
    match e
    case Get(now) => GetStep(cfg, w, now)
    case Created(now) =>
      if w.pending == 0 then Next(w)
      else Next(w.(pool := CreatedSection(w.pool, w.nextId, now), pending := w.pending - 1,
                   borrowed := w.borrowed + multiset{w.nextId}, nextId := w.nextId + 1))
    case CreateFailed =>
      if w.pending == 0 then Next(w) else Next(w.(pool := FailedSection(w.pool), pending := w.pending - 1))
    case Put(id, now) => PutStep(cfg, w, id, now)
    case Receive(k) => Next(if At(w, k, Selecting) then Answer(w, k) else w)
    case TimeOut(k) => Next(Turn(w, k, Selecting, Returned))
    case ContextDone(k) => Next(Turn(w, k, Selecting, Leaving))
    case Leave(k) =>
      if At(w, k, Leaving)
      then Next(Turn(w, k, Leaving, Returned).(pool := CancelSection(w.pool, k)))
      else Next(w)
    case Close => CloseStep(w)
    case Cleanup(now) => Next(w.(pool := CleanupSection(cfg, w.pool, now)))
  }

  function Run(cfg: Config, w: World, es: seq<Event>): Outcome
    decreases |es|
  {
    if es == [] then Next(w)
    else
      match Step(cfg, w, es[0])
      case Crash => Crash
      case Next(w') => Run(cfg, w', es[1..])
  }

  // ---- The invariant ----

  function UseOf(c: Conn): multiset<nat> {
    if c.inUse then multiset{c.id} else multiset{}
  }

  function InUseIds(cs: seq<Conn>): multiset<nat> {
    if cs == [] then multiset{} else UseOf(cs[0]) + InUseIds(cs[1..])
  }

  function Max(a: int, b: int): int {
    if a < b then b else a
  }

  /** The books of an open pool with `pending` creations in flight, whose connections `owners` hold. */
  ghost predicate Balanced(cfg: Config, p: Pool, pending: nat, owners: multiset<nat>, nextId: nat) {
    && DistinctIds(p.connections)
    && (forall c :: c in p.connections ==> c.id < nextId)
    && p.numOpen == |p.connections| + pending
    && p.numOpen <= Max(0, cfg.maxOpen)
    && IdleCount(p.connections) <= Max(0, cfg.maxIdle - 1)
    && (p.waiters != [] ==> IdleCount(p.connections) == 0)
    && owners == InUseIds(p.connections)
  }

  predicate Increasing(s: seq<nat>) {
    forall i, j :: 0 <= i < j < |s| ==> s[i] < s[j]
  }

  /** Each channel has seen at most one event, and a queued one none. */
  predicate ChannelsOk(chans: seq<Chan>, waiters: seq<nat>) {
    && (forall k :: 0 <= k < |chans| ==>
          chans[k].events <= 1 && (chans[k].events == 0 ==> chans[k].buffer.None? && !chans[k].closed))
    && (forall i :: 0 <= i < |waiters| ==> waiters[i] < |chans| && chans[waiters[i]].events == 0)
  }

  /** Served and queued callers, in this order, have come in this order. */
  predicate FirstComeFirstServed(w: World) {
    && Increasing(w.served + w.pool.waiters)
    && (forall k :: k in w.served ==> k < |w.chans|)
  }

  function Owners(w: World): multiset<nat> {
    w.borrowed + Buffered(w.chans)
  }

  /** No connection has two owners. */
  ghost predicate SingleOwners(w: World) {
    forall id :: id in Owners(w) ==> Owners(w)[id] == 1 && id < w.nextId
  }

  ghost predicate Invariant(cfg: Config, w: World) {
    && SingleOwners(w)
    && ChannelsOk(w.chans, w.pool.waiters)
    && FirstComeFirstServed(w)
    && (w.pool.closed ==> w.pool.waiters == [])
    && (!w.pool.closed ==> Balanced(cfg, w.pool, w.pending, Owners(w), w.nextId))
  }

  // ---- Owners of connections ----

  ghost predicate InUse(cs: seq<Conn>, id: nat) {
    exists c :: c in cs && c.id == id && c.inUse
  }

  lemma {:induction false} InUseCount(cs: seq<Conn>, id: nat)
    requires DistinctIds(cs)
    ensures InUseIds(cs)[id] == if InUse(cs, id) then 1 else 0
  {
    if cs != [] {
      var c, rest := cs[0], cs[1..];
      InUseCount(rest, id);
      assert forall x :: x in cs <==> x == c || x in rest;
      assert forall x :: x in rest ==> x.id != c.id;
      assert c.id == id && c.inUse ==> InUse(cs, id);
      assert InUse(rest, id) ==> InUse(cs, id);
    }
  }

  /** Two lists whose in-use connections are the same but for one more in the second. */
  lemma InUseChange(a: seq<Conn>, b: seq<Conn>, more: multiset<nat>)
    requires DistinctIds(a) && DistinctIds(b)
    requires forall id :: more[id] == (if InUse(b, id) then 1 else 0) - (if InUse(a, id) then 1 else 0)
    ensures InUseIds(b) == InUseIds(a) + more
  {
    forall id: nat
      ensures InUseIds(b)[id] == (InUseIds(a) + more)[id]
    {
      InUseCount(a, id);
      InUseCount(b, id);
    }
  }

  lemma TrimmedInUse(cs: seq<Conn>, list: seq<Conn>)
    requires DistinctIds(cs) && Trimmed(cs, list)
    ensures InUseIds(list) == InUseIds(cs)
  {
    InUseChange(cs, list, multiset{});
  }

  /** Marking the one connection with the given pointer. */
  lemma MarkAt(cs: seq<Conn>, i: nat, inUse: bool, now: int)
    requires DistinctIds(cs) && i < |cs|
    ensures var id := cs[i].id;
            && Mark(cs, id, inUse, now) == cs[i := Conn(id, now, inUse)]
            && DistinctIds(Mark(cs, id, inUse, now))
  {
  }

  lemma {:induction false} IdleUpdate(cs: seq<Conn>, i: nat, c: Conn)
    requires i < |cs|
    ensures IdleCount(cs[i := c]) + (if cs[i].inUse then 0 else 1) == IdleCount(cs) + (if c.inUse then 0 else 1)
    ensures InUseIds(cs[i := c]) + UseOf(cs[i]) == InUseIds(cs) + UseOf(c)
  {
    if i > 0 {
      IdleUpdate(cs[1..], i - 1, c);
      assert cs[i := c][1..] == cs[1..][i - 1 := c] && cs[i := c][0] == cs[0];
      UpdateRest(UseOf(cs[0]), InUseIds(cs[1..]), InUseIds(cs[1..][i - 1 := c]), UseOf(cs[i]), UseOf(c));
    } else {
      assert cs[i := c][1..] == cs[1..];
      Swap(UseOf(c), InUseIds(cs[1..]), UseOf(cs[0]));
    }
  }

  lemma UpdateRest(head: multiset<nat>, rest: multiset<nat>, rest': multiset<nat>, x: multiset<nat>, y: multiset<nat>)
    requires rest' + x == rest + y
    ensures head + rest' + x == head + rest + y
  {
    Associative(head, rest', x);
    Associative(head, rest, y);
  }

  lemma Swap(a: multiset<nat>, b: multiset<nat>, c: multiset<nat>)
    ensures a + b + c == c + b + a
  {
  }

  lemma {:induction false} InUseCons(c: Conn, cs: seq<Conn>)
    ensures InUseIds([c] + cs) == UseOf(c) + InUseIds(cs)
  {
    assert ([c] + cs)[1..] == cs;
  }

  lemma InUseNone()
    ensures InUseIds([]) == multiset{}
  {
  }

  lemma Associative(a: multiset<nat>, b: multiset<nat>, c: multiset<nat>)
    ensures a + (b + c) == a + b + c
  {
  }

  lemma {:induction false} InUseSnoc(a: seq<Conn>, c: Conn)
    ensures InUseIds(a + [c]) == InUseIds(a) + UseOf(c)
  {
    hide InUseIds, UseOf;
    if a == [] {
      InUseNone();
      InUseCons(c, []);
      assert a + [c] == [c] + [];
    } else {
      var x, rest := a[0], a[1..];
      InUseSnoc(rest, c);
      InUseCons(x, rest);
      InUseCons(x, rest + [c]);
      assert a == [x] + rest && a + [c] == [x] + (rest + [c]);
      Associative(UseOf(x), InUseIds(rest), UseOf(c));
    }
  }

  lemma InUseAppend(a: seq<Conn>, c: Conn)
    requires c.inUse
    ensures InUseIds(a + [c]) == InUseIds(a) + multiset{c.id}
    ensures IdleCount(a + [c]) == IdleCount(a)
  {
    hide InUseIds;
    InUseSnoc(a, c);
    IdleAppend(a, [c]);
    assert [c][1..] == [] && IdleCount([c]) == 0 + IdleCount([]);
  }

  lemma {:induction false} RemoveIdAt(cs: seq<Conn>, i: nat)
    requires DistinctIds(cs) && i < |cs|
    ensures RemoveId(cs, cs[i].id) == cs[..i] + cs[i + 1..]
  {
    if i > 0 {
      RemoveIdAt(cs[1..], i - 1);
      assert cs[..i] + cs[i + 1..] == [cs[0]] + (cs[1..][..i - 1] + cs[1..][i..]);
    }
  }

  lemma {:induction false} InUseListed(cs: seq<Conn>, id: nat) returns (i: nat)
    requires id in InUseIds(cs)
    ensures i < |cs| && cs[i].id == id && cs[i].inUse
  {
    var rest := cs[1..];
    assert id in UseOf(cs[0]) + InUseIds(rest);
    if id in UseOf(cs[0]) {
      i := 0;
    } else {
      i := InUseListed(rest, id);
      assert rest[i] == cs[i + 1];
      i := i + 1;
    }
  }

  // ---- What the sections keep ----

  /** get takes an idle connection that nobody owned. */
  lemma FoundKeeps(cs: seq<Conn>, list: seq<Conn>, id: nat, now: int)
    requires DistinctIds(cs) && Trimmed(cs, list) && HoldsIdle(list, id)
    ensures var marked := Mark(list, id, true, now);
            && DistinctIds(marked) && IdleCount(marked) < IdleCount(cs)
            && InUseIds(marked) == InUseIds(cs) + multiset{id} && id !in InUseIds(cs)
            && HasId(cs, id) && (forall c :: c in marked ==> HasId(cs, c.id))
  {
    hide IdleCount, InUseIds;
    TrimmedInUse(cs, list);
    var i :| 0 <= i < |list| && list[i].id == id && !list[i].inUse;
    MarkAt(list, i, true, now);
    IdleUpdate(list, i, Conn(id, now, true));
    InUseCount(list, id);
    MarkedListed(cs, list, id, now);
    assert list[i] in list;
  }

  lemma MarkedListed(cs: seq<Conn>, list: seq<Conn>, id: nat, now: int)
    requires forall c :: c in list ==> c in cs
    ensures forall c :: c in Mark(list, id, true, now) ==> HasId(cs, c.id)
  {
    forall c | c in Mark(list, id, true, now)
      ensures HasId(cs, c.id)
    {
      var k :| 0 <= k < |list| && c.id == list[k].id;
      assert list[k] in list;
    }
  }

  lemma SweptAll(cs: seq<Conn>, now: int, timeout: int)
    requires DistinctIds(cs)
    ensures var r := SweepAll(cs, now, timeout);
            && (!r.OutOfRange? ==> Trimmed(cs, r.list))
            && (r.Found? ==> HoldsIdle(r.list, r.id))
            && (r.Swept? && |r.list| == |cs| ==> r.list == cs && IdleCount(cs) == 0)
  {
    if cs != [] {
      SweepTrims(cs, 0, |cs|, cs[|cs| - 1], now, timeout);
      SweepSawAll(cs, 0, cs[|cs| - 1], now, timeout);
    }
    IdleZero(cs);
  }

  /** The step of get on the books, by its result. */
  ghost predicate GetBalances(
    cfg: Config, p: Pool, pending: nat, owners: multiset<nat>, nextId: nat, chan: nat, p': Pool, r: GetResult)
  {
    !p'.closed &&
    match r
    case Panic => p' == p
    case Refused => false
    case Got(id) =>
      && Balanced(cfg, p', pending, owners + multiset{id}, nextId)
      && id !in owners && id < nextId && p'.waiters == p.waiters
    case Create => Balanced(cfg, p', pending + 1, owners, nextId) && p'.waiters == p.waiters
    case Wait => Balanced(cfg, p', pending, owners, nextId) && p'.waiters == p.waiters + [chan]
  }

  lemma GetKeeps(cfg: Config, p: Pool, pending: nat, owners: multiset<nat>, nextId: nat, now: int, chan: nat)
    requires !p.closed && Balanced(cfg, p, pending, owners, nextId)
    ensures var (p', r) := GetSection(cfg, p, now, chan);
            GetBalances(cfg, p, pending, owners, nextId, chan, p', r)
  {
    hide SweepAll, Sweep, InUseIds, IdleCount, Mark, HoldsIdle;
    var cs := p.connections;
    SweptAll(cs, now, cfg.idleTimeout);
    match SweepAll(cs, now, cfg.idleTimeout)
    case OutOfRange =>
    case Found(id, list) =>
      FoundKeeps(cs, list, id, now);
    case Swept(list) =>
      TrimmedInUse(cs, list);
  }

  /** put marks the connection it is given, which was in use. */
  lemma ReturnKeeps(cs: seq<Conn>, id: nat, inUse: bool, now: int)
    requires DistinctIds(cs) && id in InUseIds(cs)
    ensures var marked := Mark(cs, id, inUse, now);
            && DistinctIds(marked) && IdleCount(marked) == IdleCount(cs) + (if inUse then 0 else 1)
            && InUseIds(marked) == (if inUse then InUseIds(cs) else InUseIds(cs) - multiset{id})
            && (forall c :: c in marked ==> HasId(cs, c.id))
            && (!inUse ==> HoldsIdle(marked, id))
  {
    hide InUseIds, IdleCount;
    var i := InUseListed(cs, id);
    MarkAt(cs, i, inUse, now);
    IdleUpdate(cs, i, Conn(id, now, inUse));
    var marked := Mark(cs, id, inUse, now);
    assert InUseIds(marked) == InUseIds(marked) + UseOf(cs[i]) - multiset{id};
    assert InUseIds(cs) == InUseIds(cs) + multiset{id} - multiset{id};
    assert !marked[i].inUse <==> !inUse;
  }

  /** put drops the connection again when it makes too many idle ones. */
  lemma DropKeeps(cs: seq<Conn>, id: nat)
    requires DistinctIds(cs) && HoldsIdle(cs, id)
    ensures var rest := RemoveId(cs, id); Trimmed(cs, rest) && |rest| == |cs| - 1
  {
    var i :| 0 <= i < |cs| && cs[i].id == id && !cs[i].inUse;
    RemoveIdAt(cs, i);
    TrimOne(cs, i);
  }

  lemma PutKeeps(cfg: Config, p: Pool, pending: nat, owners: multiset<nat>, nextId: nat, id: nat, now: int)
    requires !p.closed && Balanced(cfg, p, pending, owners, nextId) && id in owners
    ensures var (p', r) := PutSection(cfg, p, id, now);
            && !p'.closed
            && (r.Handed? ==> p.waiters == [r.chan] + p'.waiters && Balanced(cfg, p', pending, owners, nextId))
            && (!r.Handed? ==> p'.waiters == p.waiters && Balanced(cfg, p', pending, owners - multiset{id}, nextId))
  {
    hide InUseIds, IdleCount, Mark, HoldsIdle, RemoveId;
    var cs := p.connections;
    ReturnKeeps(cs, id, p.waiters != [], now);
    if p.waiters == [] {
      var idle := Mark(cs, id, false, now);
      DropKeeps(idle, id);
      TrimmedInUse(idle, RemoveId(idle, id));
    }
  }

  lemma CreatedKeeps(cfg: Config, p: Pool, pending: nat, owners: multiset<nat>, nextId: nat, now: int)
    requires !p.closed && Balanced(cfg, p, pending, owners, nextId) && pending > 0
    ensures Balanced(cfg, CreatedSection(p, nextId, now), pending - 1, owners + multiset{nextId}, nextId + 1)
  {
    hide InUseIds, IdleCount;
    InUseAppend(p.connections, Conn(nextId, now, true));
    assert forall i :: 0 <= i < |p.connections| ==> p.connections[i] in p.connections;
  }

  lemma CleanupKeeps(cfg: Config, p: Pool, pending: nat, owners: multiset<nat>, nextId: nat, now: int)
    requires !p.closed && Balanced(cfg, p, pending, owners, nextId)
    ensures Balanced(cfg, CleanupSection(cfg, p, now), pending, owners, nextId)
  {
    hide InUseIds, IdleCount, Kept;
    KeptTrims(p.connections, now, cfg.idleTimeout);
    TrimmedInUse(p.connections, Kept(p.connections, now, cfg.idleTimeout));
  }

  // ---- What the channels keep ----

  lemma {:induction false} BufferedUpdate(chans: seq<Chan>, k: nat, c: Chan)
    requires k < |chans|
    ensures Buffered(chans[k := c]) + InBuffer(chans[k]) == Buffered(chans) + InBuffer(c)
  {
    if k > 0 {
      BufferedUpdate(chans[1..], k - 1, c);
      assert chans[k := c][1..] == chans[1..][k - 1 := c] && chans[k := c][0] == chans[0];
      var rest, rest' := Buffered(chans[1..]), Buffered(chans[1..][k - 1 := c]);
      assert Buffered(chans[k := c]) == InBuffer(chans[0]) + rest';
      assert InBuffer(chans[0]) + rest' + InBuffer(chans[k]) == InBuffer(chans[0]) + (rest' + InBuffer(chans[k]));
    } else {
      assert chans[k := c][1..] == chans[1..];
    }
  }

  /** A channel that keeps its buffer changes nothing. */
  lemma BufferedSame(chans: seq<Chan>, k: nat, c: Chan)
    requires k < |chans| && c.buffer == chans[k].buffer
    ensures Buffered(chans[k := c]) == Buffered(chans)
  {
    hide Buffered;
    BufferedUpdate(chans, k, c);
    assert Buffered(chans[k := c]) == Buffered(chans[k := c]) + InBuffer(c) - InBuffer(c);
    assert Buffered(chans) == Buffered(chans) + InBuffer(c) - InBuffer(c);
  }

  lemma {:induction false} BufferedAppend(chans: seq<Chan>, c: Chan)
    requires c.buffer.None?
    ensures Buffered(chans + [c]) == Buffered(chans)
  {
    if chans == [] {
      assert chans + [c] == [c] && [c][1..] == [];
    } else {
      BufferedAppend(chans[1..], c);
      assert (chans + [c])[1..] == chans[1..] + [c];
    }
  }

  /** Close reaches every queued channel, none of which was closed before. */
  lemma {:induction false} CloseAllWorks(chans: seq<Chan>, ks: seq<nat>)
    requires ChannelsOk(chans, ks) && Increasing(ks)
    ensures var r := CloseAll(chans, ks);
            && r.Some? && |r.value| == |chans| && ChannelsOk(r.value, [])
            && Buffered(r.value) == Buffered(chans)
    decreases |ks|
  {
    hide Buffered;
    if ks != [] {
      var k, c := ks[0], chans[ks[0]];
      var c' := c.(closed := true, events := c.events + 1);
      BufferedSame(chans, k, c');
      CloseAllWorks(chans[k := c'], ks[1..]);
    }
  }

  lemma IncreasingWithout(s: seq<nat>, n: nat)
    requires Increasing(s) && n < |s|
    ensures Increasing(s[..n] + s[n + 1..])
  {
  }

  lemma {:induction false} RemoveWaiterKeeps(prefix: seq<nat>, ws: seq<nat>, w: nat)
    requires Increasing(prefix + ws)
    ensures Increasing(prefix + RemoveWaiter(ws, w))
    ensures forall x :: x in RemoveWaiter(ws, w) ==> x in ws
    ensures ws == [] ==> RemoveWaiter(ws, w) == []
    decreases |ws|
  {
    hide Increasing;
    if ws != [] {
      var s, n := prefix + ws, |prefix|;
      if ws[0] == w {
        IncreasingWithout(s, n);
        assert prefix + ws[1..] == s[..n] + s[n + 1..];
      } else {
        assert s == (prefix + [ws[0]]) + ws[1..];
        RemoveWaiterKeeps(prefix + [ws[0]], ws[1..], w);
        assert prefix + RemoveWaiter(ws, w) == (prefix + [ws[0]]) + RemoveWaiter(ws[1..], w);
      }
    }
  }

  // ---- Every step keeps the invariant ----

  lemma GetStepKeeps(cfg: Config, w: World, now: int)
    requires Invariant(cfg, w)
    ensures var r := GetStep(cfg, w, now);
            && (r == Crash <==> !w.pool.closed && SweepAll(w.pool.connections, now, cfg.idleTimeout) == OutOfRange)
            && (r.Next? ==> Invariant(cfg, r.world))
  {
    hide Balanced, SweepAll, Buffered;
    if !w.pool.closed {
      GetKeeps(cfg, w.pool, w.pending, Owners(w), w.nextId, now, |w.chans|);
      var (p, r) := GetSection(cfg, w.pool, now, |w.chans|);
      match r
      case Panic =>
      case Refused =>
      case Got(id) =>
        var w' := w.(pool := p, borrowed := w.borrowed + multiset{id});
        assert Owners(w') == Owners(w) + multiset{id};
      case Create =>
      case Wait =>
        BufferedAppend(w.chans, Chan(None, false, 0, Selecting));
        assert w.served + p.waiters == (w.served + w.pool.waiters) + [|w.chans|];
        assert forall i :: 0 <= i < |w.served| ==> w.served[i] in w.served;
        var w' := GetStep(cfg, w, now).world;
        assert Owners(w') == Owners(w) && FirstComeFirstServed(w') && ChannelsOk(w'.chans, w'.pool.waiters);
    }
  }

  /** The first queued channel takes the connection, and stays ahead of those still queued. */
  lemma SendKeeps(chans: seq<Chan>, served: seq<nat>, ws: seq<nat>, id: nat)
    requires ChannelsOk(chans, ws) && ws != [] && Increasing(served + ws)
    ensures var r := Send(chans, ws[0], id);
            && r.Some? && |r.value| == |chans| && ChannelsOk(r.value, ws[1..])
            && Buffered(r.value) == Buffered(chans) + multiset{id}
            && Increasing(served + [ws[0]] + ws[1..])
  {
    hide Buffered;
    var k, c := ws[0], chans[ws[0]];
    BufferedUpdate(chans, k, c.(buffer := Some(id), events := c.events + 1));
    var order, n := served + ws, |served|;
    assert order == served + [k] + ws[1..];
    assert order[n] == k && forall i :: 0 <= i < |ws| - 1 ==> ws[1..][i] == order[n + i + 1];
    assert forall i :: 0 <= i < |ws| - 1 ==> ws[1..][i] == ws[i + 1];
  }

  lemma PutStepKeeps(cfg: Config, w: World, id: nat, now: int)
    requires Invariant(cfg, w)
    ensures var r := PutStep(cfg, w, id, now); r.Next? && Invariant(cfg, r.world)
  {
    hide Balanced, Buffered, Mark, IdleCount, RemoveId, Send, ChannelsOk, Increasing;
    if id in w.borrowed {
      var gone := w.borrowed - multiset{id};
      assert gone + Buffered(w.chans) == Owners(w) - multiset{id};
      if !w.pool.closed {
        PutKeeps(cfg, w.pool, w.pending, Owners(w), w.nextId, id, now);
        var (p, r) := PutSection(cfg, w.pool, id, now);
        if r.Handed? {
          SendKeeps(w.chans, w.served, w.pool.waiters, id);
          assert gone + (Buffered(w.chans) + multiset{id}) == Owners(w);
          assert w.pool.waiters[0] in w.pool.waiters;
          Queued(w);
        }
      }
    }
  }

  lemma Queued(w: World)
    requires ChannelsOk(w.chans, w.pool.waiters)
    ensures forall k :: k in w.pool.waiters ==> k < |w.chans|
  {
  }

  lemma AnswerKeeps(cfg: Config, w: World, k: nat)
    requires Invariant(cfg, w) && k < |w.chans|
    ensures Invariant(cfg, Answer(w, k))
  {
    hide Balanced, Buffered;
    var c := w.chans[k];
    match c.buffer
    case Some(id) =>
      var c' := c.(buffer := None, receiver := Returned);
      BufferedUpdate(w.chans, k, c');
      assert Owners(Answer(w, k)) == w.borrowed + (Buffered(w.chans[k := c']) + InBuffer(c)) == Owners(w);
    case None =>
      BufferedSame(w.chans, k, c.(receiver := Returned));
      assert Owners(Answer(w, k)) == Owners(w) && ChannelsOk(Answer(w, k).chans, w.pool.waiters);
  }

  lemma TurnKeeps(cfg: Config, w: World, k: nat, from: Receiver, to: Receiver)
    requires Invariant(cfg, w)
    ensures Invariant(cfg, Turn(w, k, from, to))
  {
    hide Balanced, Buffered;
    if At(w, k, from) {
      var c := w.chans[k];
      BufferedSame(w.chans, k, c.(receiver := to));
      var w' := Turn(w, k, from, to);
      assert Owners(w') == Owners(w) && ChannelsOk(w'.chans, w.pool.waiters);
    }
  }

  lemma LeaveKeeps(cfg: Config, w: World, k: nat)
    requires Invariant(cfg, w)
    ensures Invariant(cfg, w.(pool := CancelSection(w.pool, k)))
  {
    RemoveWaiterKeeps(w.served, w.pool.waiters, k);
    var ws := RemoveWaiter(w.pool.waiters, k);
    assert forall i :: 0 <= i < |ws| ==> ws[i] in w.pool.waiters;
  }

  lemma CloseStepKeeps(cfg: Config, w: World)
    requires Invariant(cfg, w)
    ensures var r := CloseStep(w); r.Next? && Invariant(cfg, r.world)
  {
    if !w.pool.closed {
      var s := w.served + w.pool.waiters;
      assert forall i :: 0 <= i < |w.pool.waiters| ==> w.pool.waiters[i] == s[|w.served| + i];
      CloseAllWorks(w.chans, w.pool.waiters);
      assert w.served + [] == s[..|w.served|];
    }
  }

  lemma CreatedStepKeeps(cfg: Config, w: World, now: int)
    requires Invariant(cfg, w)
    ensures var r := Step(cfg, w, Created(now)); r.Next? && Invariant(cfg, r.world)
  {
    hide Balanced, Buffered;
    if w.pending > 0 {
      if !w.pool.closed {
        CreatedKeeps(cfg, w.pool, w.pending, Owners(w), w.nextId, now);
      }
      assert Owners(Step(cfg, w, Created(now)).world) == Owners(w) + multiset{w.nextId};
    }
  }

  lemma FailedStepKeeps(cfg: Config, w: World)
    requires Invariant(cfg, w)
    ensures var r := Step(cfg, w, CreateFailed); r.Next? && Invariant(cfg, r.world)
  {
    hide Buffered, IdleCount, InUseIds;
    assert Owners(Step(cfg, w, CreateFailed).world) == Owners(w);
  }

  lemma CleanupStepKeeps(cfg: Config, w: World, now: int)
    requires Invariant(cfg, w)
    ensures Invariant(cfg, w.(pool := CleanupSection(cfg, w.pool, now)))
  {
    hide Balanced, Buffered, Kept;
    if !w.pool.closed {
      CleanupKeeps(cfg, w.pool, w.pending, Owners(w), w.nextId, now);
    }
  }

  /** Does the sweep of this step slice out of range? SweepPanicsIff says when that is. */
  predicate Overruns(cfg: Config, w: World, e: Event) {
    e.Get? && !w.pool.closed && SweepAll(w.pool.connections, e.now, cfg.idleTimeout) == OutOfRange
  }

  lemma StepKeeps(cfg: Config, w: World, e: Event)
    requires Invariant(cfg, w)
    ensures var r := Step(cfg, w, e);
            && (r == Crash <==> Overruns(cfg, w, e))
            && (r.Next? ==> Invariant(cfg, r.world))
  {
    hide Invariant, SweepAll, CleanupSection, PutStep, CloseStep;
    match e
    case Get(now) => GetStepKeeps(cfg, w, now);
    case Created(now) => CreatedStepKeeps(cfg, w, now);
    case CreateFailed => FailedStepKeeps(cfg, w);
    case Put(id, now) => PutStepKeeps(cfg, w, id, now);
    case Receive(k) => if At(w, k, Selecting) { AnswerKeeps(cfg, w, k); }
    case TimeOut(k) => TurnKeeps(cfg, w, k, Selecting, Returned);
    case ContextDone(k) => TurnKeeps(cfg, w, k, Selecting, Leaving);
    case Leave(k) =>
      TurnKeeps(cfg, w, k, Leaving, Returned);
      LeaveKeeps(cfg, Turn(w, k, Leaving, Returned), k);
    case Close => CloseStepKeeps(cfg, w);
    case Cleanup(now) => CleanupStepKeeps(cfg, w, now);
  }

  lemma {:induction false} RunKeeps(cfg: Config, w: World, es: seq<Event>)
    requires Invariant(cfg, w)
    ensures Run(cfg, w, es).Next? ==> Invariant(cfg, Run(cfg, w, es).world)
    decreases |es|
  {
    if es != [] {
      StepKeeps(cfg, w, es[0]);
      var r := Step(cfg, w, es[0]);
      if r.Next? {
        RunKeeps(cfg, r.world, es[1..]);
      }
    }
  }

  lemma EmptyBalanced(cfg: Config)
    ensures Balanced(cfg, Pool([], [], 0, false), 0, multiset{}, 0)
  {
  }

  lemma StartHolds(cfg: Config)
    ensures Invariant(cfg, NewWorld())
  {
    EmptyBalanced(cfg);
    hide Balanced;
    var w := NewWorld();
    assert w.served + w.pool.waiters == [];
    assert Owners(w) == multiset{};
  }

  /**
   In every interleaving: the invariant holds at the end of every run, and the next step goes wrong only
   by the out-of-range slice of get's sweep. In particular no send blocks or meets a closed channel.
   */
  lemma PoolIsSafe(cfg: Config, es: seq<Event>, e: Event)
    ensures var r := Run(cfg, NewWorld(), es);
            r.Next? ==> Invariant(cfg, r.world) && (Step(cfg, r.world, e) == Crash <==> Overruns(cfg, r.world, e))
  {
    StartHolds(cfg);
    RunKeeps(cfg, NewWorld(), es);
    var r := Run(cfg, NewWorld(), es);
    if r.Next? {
      StepKeeps(cfg, r.world, e);
    }
  }

  /** put keeps a connection idle only while that makes fewer than MaxIdle, so MaxIdle itself is never reached. */
  lemma KeptIdleIff(cfg: Config, p: Pool, id: nat, now: int)
    requires !p.closed && DistinctIds(p.connections) && id in InUseIds(p.connections)
    ensures PutSection(cfg, p, id, now).1 == KeptIdle <==> p.waiters == [] && IdleCount(p.connections) + 1 < cfg.maxIdle
  {
    ReturnKeeps(p.connections, id, false, now);
  }

  // ---- Runs that go wrong ----

  lemma RunStep(cfg: Config, w: World, e: Event, es: seq<Event>)
    ensures Run(cfg, w, [e] + es) == match Step(cfg, w, e) case Crash => Crash case Next(w') => Run(cfg, w', es)
  {
    assert ([e] + es)[1..] == es;
  }

  lemma {:induction false} RunAppend(cfg: Config, w: World, es: seq<Event>, fs: seq<Event>)
    ensures Run(cfg, w, es + fs) == match Run(cfg, w, es) case Crash => Crash case Next(w') => Run(cfg, w', fs)
    decreases |es|
  {
    if es == [] {
      assert es + fs == fs;
    } else {
      assert es + fs == [es[0]] + (es[1..] + fs) && es == [es[0]] + es[1..];
      RunStep(cfg, w, es[0], es[1..] + fs);
      var r := Step(cfg, w, es[0]);
      if r.Next? {
        RunAppend(cfg, r.world, es[1..], fs);
      }
    }
  }

  /** A pool with room whose connections are all in use: get reserves, and the creation lends a new connection. */
  lemma BorrowNew(cfg: Config, w: World)
    requires !w.pool.closed && w.pool.numOpen < cfg.maxOpen
    requires SweepAll(w.pool.connections, 0, cfg.idleTimeout) == Swept(w.pool.connections)
    ensures var p := w.pool;
            Run(cfg, w, [Get(0)] + [Created(0)]) ==
            Next(w.(pool := p.(connections := p.connections + [Conn(w.nextId, 0, true)], numOpen := p.numOpen + 1),
                    borrowed := w.borrowed + multiset{w.nextId}, nextId := w.nextId + 1))
  {
    hide SweepAll;
    RunStep(cfg, w, Get(0), [Created(0)]);
    RunStep(cfg, Step(cfg, w, Get(0)).world, Created(0), []);
    assert [Created(0)] + [] == [Created(0)];
  }

  lemma {:induction false} SweepInUse(cs: seq<Conn>, i: nat, last: Conn, now: int, timeout: int)
    requires i <= |cs| && forall k :: 0 <= k < |cs| ==> cs[k].inUse
    ensures Sweep(cs, i, |cs|, last, now, timeout) == Swept(cs)
    decreases |cs| - i
  {
    if i < |cs| {
      SweepInUse(cs, i + 1, last, now, timeout);
    }
  }

  lemma SweptInUse(cs: seq<Conn>, timeout: int)
    requires forall k :: 0 <= k < |cs| ==> cs[k].inUse
    ensures SweepAll(cs, 0, timeout) == Swept(cs)
  {
    if cs != [] {
      SweepInUse(cs, 0, cs[|cs| - 1], 0, timeout);
    }
  }

  /** The world in which the only connection is lent. */
  function LentOne(): World {
    World(Pool([Conn(0, 0, true)], [], 1, false), 0, multiset{0}, [], [], 1)
  }

  lemma LendOne(cfg: Config)
    requires cfg.maxOpen > 0
    ensures Run(cfg, NewWorld(), [Get(0)] + [Created(0)]) == Next(LentOne())
  {
    BorrowNew(cfg, NewWorld());
    assert [] + [Conn(0, 0, true)] == [Conn(0, 0, true)];
    assert multiset{} + multiset{0} == multiset{0};
  }

  lemma {:induction false} IdleAtMost(cs: seq<Conn>)
    ensures IdleCount(cs) <= |cs|
  {
    if cs != [] {
      IdleAtMost(cs[1..]);
    }
  }

  /** put when more may idle than there are connections. */
  lemma PutKept(cfg: Config, w: World, id: nat, now: int)
    requires !w.pool.closed && w.pool.waiters == [] && id in w.borrowed && |w.pool.connections| < cfg.maxIdle
    ensures Step(cfg, w, Put(id, now)) ==
            Next(w.(pool := w.pool.(connections := Mark(w.pool.connections, id, false, now)),
                    borrowed := w.borrowed - multiset{id}))
  {
    hide IdleCount, Mark;
    IdleAtMost(Mark(w.pool.connections, id, false, now));
  }

  /** The world in which two connections are lent. */
  function LentTwo(): World {
    World(Pool([Conn(0, 0, true)] + [Conn(1, 0, true)], [], 2, false), 0, multiset{0} + multiset{1}, [], [], 2)
  }

  lemma PutBoth()
    ensures Run(Config(3, 2, 5), LentTwo(), [Put(0, 0)] + ([Put(1, 0)] + [Get(10)])) == Crash
  {
    hide SweepAll, IdleCount, Mark;
    var cfg, w := Config(3, 2, 5), LentTwo();
    PutKept(cfg, w, 0, 0);
    RunStep(cfg, w, Put(0, 0), [Put(1, 0)] + [Get(10)]);
    var w1 := Step(cfg, w, Put(0, 0)).world;
    PutKept(cfg, w1, 1, 0);
    RunStep(cfg, w1, Put(1, 0), [Get(10)]);
    var w2 := Step(cfg, w1, Put(1, 0)).world;
    BothMarked(w.pool.connections);
    TwoExpired(w2.pool.connections);
    RunStep(cfg, w2, Get(10), []);
    assert [Get(10)] + [] == [Get(10)];
  }

  lemma BothMarked(cs: seq<Conn>)
    requires cs == [Conn(0, 0, true)] + [Conn(1, 0, true)]
    ensures Mark(Mark(cs, 0, false, 0), 1, false, 0) == [Conn(0, 0, false), Conn(1, 0, false)]
  {
  }

  /** Two connections that are lent, put back and left to expire make the next get slice out of range. */
  lemma SweepPanicRun()
    ensures Run(Config(3, 2, 5), NewWorld(),
                [Get(0), Created(0), Get(0), Created(0), Put(0, 0), Put(1, 0), Get(10)]) == Crash
  {
    hide SweepAll, Run, Step;
    var cfg, lend, put := Config(3, 2, 5), [Get(0)] + [Created(0)], [Put(0, 0)] + ([Put(1, 0)] + [Get(10)]);
    LendOne(cfg);
    SweptInUse([Conn(0, 0, true)], 5);
    BorrowNew(cfg, LentOne());
    RunAppend(cfg, NewWorld(), lend, lend + put);
    RunAppend(cfg, LentOne(), lend, put);
    PutBoth();
    assert lend + (lend + put) == [Get(0), Created(0), Get(0), Created(0), Put(0, 0), Put(1, 0), Get(10)];
  }

  lemma TwoExpired(cs: seq<Conn>)
    requires cs == [Conn(0, 0, false), Conn(1, 0, false)]
    ensures SweepAll(cs, 10, 5) == OutOfRange
  {
    assert IdleBeforeLast(cs) by { assert !cs[0].inUse; }
    SweepPanicsIff(cs, 10, 5);
  }

  /** Three connections, two of them put back: at time 10 the first has expired, the second has not. */
  function TwoBack(): World {
    World(Pool([Conn(0, 0, false), Conn(1, 8, false), Conn(2, 0, true)], [], 3, false), 0, multiset{2}, [], [], 3)
  }

  function LentThree(): World {
    World(Pool([Conn(0, 0, true)] + [Conn(1, 0, true)] + [Conn(2, 0, true)], [], 3, false), 0,
          multiset{0} + multiset{1} + multiset{2}, [], [], 3)
  }

  lemma LendThree()
    ensures var lend := [Get(0)] + [Created(0)];
            Run(Config(5, 3, 5), NewWorld(), lend + (lend + lend)) == Next(LentThree())
  {
    hide SweepAll, Run, Step;
    var cfg, lend := Config(5, 3, 5), [Get(0)] + [Created(0)];
    LendOne(cfg);
    SweptInUse([Conn(0, 0, true)], 5);
    BorrowNew(cfg, LentOne());
    SweptInUse([Conn(0, 0, true)] + [Conn(1, 0, true)], 5);
    BorrowNew(cfg, LentTwo());
    RunAppend(cfg, NewWorld(), lend, lend + lend);
    RunAppend(cfg, LentOne(), lend, lend);
  }

  lemma PutTwo()
    ensures Run(Config(5, 3, 5), LentThree(), [Put(0, 0)] + [Put(1, 8)]) == Next(TwoBack())
  {
    hide IdleCount, Mark;
    var cfg, w := Config(5, 3, 5), LentThree();
    PutKept(cfg, w, 0, 0);
    RunStep(cfg, w, Put(0, 0), [Put(1, 8)]);
    var w1 := Step(cfg, w, Put(0, 0)).world;
    PutKept(cfg, w1, 1, 8);
    RunStep(cfg, w1, Put(1, 8), []);
    assert [Put(1, 8)] + [] == [Put(1, 8)];
    TwoMarked(w.pool.connections);
    assert LentThree().borrowed - multiset{0} - multiset{1} == multiset{2};
  }

  lemma TwoMarked(cs: seq<Conn>)
    requires cs == [Conn(0, 0, true)] + [Conn(1, 0, true)] + [Conn(2, 0, true)]
    ensures Mark(Mark(cs, 0, false, 0), 1, false, 8) == [Conn(0, 0, false), Conn(1, 8, false), Conn(2, 0, true)]
  {
  }

  /** After a run of ordinary calls get reserves a new connection although an idle one is usable. */
  lemma GetOverlooksRun()
    ensures var lend := [Get(0)] + [Created(0)];
            var r := Run(Config(5, 3, 5), NewWorld(), (lend + (lend + lend)) + ([Put(0, 0)] + [Put(1, 8)]));
            r.Next? &&
            var r' := Step(Config(5, 3, 5), r.world, Get(10));
            r'.Next? && r'.world.pending == 1 && r'.world.pool.connections == [Conn(1, 8, false), Conn(2, 0, true)]
            && Usable(r'.world.pool.connections[0], 10, 5)
  {
    var lend := [Get(0)] + [Created(0)];
    LendThree();
    PutTwo();
    RunAppend(Config(5, 3, 5), NewWorld(), lend + (lend + lend), [Put(0, 0)] + [Put(1, 8)]);
    hide SweepAll, Run;
    SweepOverlooks(TwoBack().pool.connections, 10, 5);
  }

  // ---- Connections sent to callers that have gone ----

  /** A connection in a channel whose caller has returned, or is on its way out. */
  predicate Stranded(w: World, k: nat) {
    k < |w.chans| && w.chans[k].receiver != Selecting && w.chans[k].buffer.Some?
  }

  /** Does this step strand a connection: a put to a caller that has gone, or a caller that goes with its channel full? */
  predicate Strands(w: World, e: Event, k: nat) {
    match e
    case Put(id, _) =>
      && id in w.borrowed && !w.pool.closed && w.pool.waiters != [] && w.pool.waiters[0] == k
      && k < |w.chans| && w.chans[k].receiver != Selecting
    case TimeOut(chan) => chan == k && At(w, k, Selecting) && w.chans[k].buffer.Some?
    case ContextDone(chan) => chan == k && At(w, k, Selecting) && w.chans[k].buffer.Some?
    case _ => false
  }

  lemma HandedFirst(cfg: Config, p: Pool, id: nat, now: int)
    ensures var r := PutSection(cfg, p, id, now).1;
            (r.Handed? <==> !p.closed && p.waiters != []) && (r.Handed? ==> r.chan == p.waiters[0])
  {
  }

  lemma PutStrands(cfg: Config, w: World, id: nat, now: int, k: nat)
    requires ChannelsOk(w.chans, w.pool.waiters) && !Stranded(w, k) && PutStep(cfg, w, id, now).Next?
    ensures Stranded(PutStep(cfg, w, id, now).world, k) <==> Strands(w, Put(id, now), k)
  {
    hide PutSection;
    HandedFirst(cfg, w.pool, id, now);
  }

  lemma CloseStrandsNone(w: World, k: nat)
    requires CloseStep(w).Next?
    ensures var w' := CloseStep(w).world;
            && |w'.chans| == |w.chans|
            && (k < |w.chans| ==> w'.chans[k].buffer == w.chans[k].buffer && w'.chans[k].receiver == w.chans[k].receiver)
  {
    hide CloseAll;
    CloseAllLeaves(w.chans, CloseSection(w.pool).1, k);
  }

  lemma GetLeaves(cfg: Config, w: World, now: int, k: nat)
    ensures var r := GetStep(cfg, w, now);
            r.Next? ==> (if k < |w.chans| then k < |r.world.chans| && r.world.chans[k] == w.chans[k]
                         else k < |r.world.chans| ==> r.world.chans[k].buffer.None?)
  {
    hide GetSection;
  }

  lemma ReceiveLeaves(w: World, chan: nat, k: nat)
    requires At(w, chan, Selecting)
    ensures var w' := Answer(w, chan);
            && |w'.chans| == |w.chans|
            && (k < |w.chans| && chan != k ==> w'.chans[k] == w.chans[k])
            && (w'.chans[chan].buffer.None? || w'.chans[chan] == w.chans[chan])
  {
  }

  lemma TurnLeaves(w: World, chan: nat, from: Receiver, to: Receiver, k: nat)
    ensures var w' := Turn(w, chan, from, to);
            && |w'.chans| == |w.chans|
            && (k < |w.chans| ==> w'.chans[k] == if chan == k && At(w, k, from) then w.chans[k].(receiver := to) else w.chans[k])
  {
  }

  /** A step strands a connection in a channel exactly then. */
  lemma StrandsIff(cfg: Config, w: World, e: Event, k: nat)
    requires Invariant(cfg, w) && !Stranded(w, k) && Step(cfg, w, e).Next?
    ensures Stranded(Step(cfg, w, e).world, k) <==> Strands(w, e, k)
  {
    assert ChannelsOk(w.chans, w.pool.waiters);
    hide Invariant, ChannelsOk, GetStep, PutStep, CloseStep, Answer, Turn, CleanupSection, CreatedSection;
    match e
    case Get(now) => GetLeaves(cfg, w, now, k);
    case Put(id, now) => PutStrands(cfg, w, id, now, k);
    case Receive(chan) => if At(w, chan, Selecting) { ReceiveLeaves(w, chan, k); }
    case TimeOut(chan) => TurnLeaves(w, chan, Selecting, Returned, k);
    case ContextDone(chan) => TurnLeaves(w, chan, Selecting, Leaving, k);
    case Leave(chan) => TurnLeaves(w, chan, Leaving, Returned, k);
    case Close => CloseStrandsNone(w, k);
    case _ =>
  }

  /** In particular a put strands its connection exactly when the first queued caller has gone or is leaving. */
  lemma PutStrandsIff(cfg: Config, w: World, id: nat, now: int)
    requires Invariant(cfg, w) && !w.pool.closed && id in w.borrowed && w.pool.waiters != []
    ensures var r := Step(cfg, w, Put(id, now));
            var k := w.pool.waiters[0];
            && r.Next? && k < |w.chans| && !Stranded(w, k)
            && (Stranded(r.world, k) <==> w.chans[k].receiver != Selecting)
            && r.world.chans[k].buffer == Some(id)
  {
    hide Balanced, Owners, SingleOwners, FirstComeFirstServed, PutSection;
    PutStepKeeps(cfg, w, id, now);
    HandedFirst(cfg, w.pool, id, now);
    StrandsIff(cfg, w, Put(id, now), w.pool.waiters[0]);
  }

  lemma PutSpares(cfg: Config, w: World, id: nat, now: int, k: nat)
    requires ChannelsOk(w.chans, w.pool.waiters) && Stranded(w, k)
    ensures var r := PutStep(cfg, w, id, now); r.Next? ==> |r.world.chans| == |w.chans| && r.world.chans[k] == w.chans[k]
  {
    hide PutSection;
    HandedFirst(cfg, w.pool, id, now);
  }

  lemma StrandedStep(cfg: Config, w: World, e: Event, k: nat)
    requires Invariant(cfg, w) && Stranded(w, k)
    ensures var r := Step(cfg, w, e); r.Next? ==> Stranded(r.world, k) && r.world.chans[k].buffer == w.chans[k].buffer
  {
    assert ChannelsOk(w.chans, w.pool.waiters);
    hide Invariant, ChannelsOk, GetStep, PutStep, CloseStep, Answer, Turn, CleanupSection, CreatedSection;
    match e
    case Get(now) => GetLeaves(cfg, w, now, k);
    case Put(id, now) => PutSpares(cfg, w, id, now, k);
    case Receive(chan) => if At(w, chan, Selecting) { ReceiveLeaves(w, chan, k); }
    case TimeOut(chan) => TurnLeaves(w, chan, Selecting, Returned, k);
    case ContextDone(chan) => TurnLeaves(w, chan, Selecting, Leaving, k);
    case Leave(chan) => TurnLeaves(w, chan, Leaving, Returned, k);
    case Close => if Step(cfg, w, e).Next? { CloseStrandsNone(w, k); }
    case _ =>
  }

  /** Closing channels touches neither buffers nor receivers. */
  lemma {:induction false} CloseAllLeaves(chans: seq<Chan>, ks: seq<nat>, k: nat)
    ensures var r := CloseAll(chans, ks);
            r.Some? ==>
              && |r.value| == |chans|
              && (k < |chans| ==> r.value[k].buffer == chans[k].buffer && r.value[k].receiver == chans[k].receiver)
    decreases |ks|
  {
    if ks != [] && ks[0] < |chans| {
      CloseAllLeaves(chans[ks[0] := chans[ks[0]].(closed := true, events := chans[ks[0]].events + 1)], ks[1..], k);
    }
  }

  /**
   A stranded connection is lost: whatever happens next it stays in its channel, and until the pool is
   closed it counts as one of the open connections in use.
   */
  lemma {:induction false} StrandedForever(cfg: Config, w: World, es: seq<Event>, k: nat)
    requires Invariant(cfg, w) && Stranded(w, k)
    ensures var r := Run(cfg, w, es);
            r.Next? ==>
              && Stranded(r.world, k) && r.world.chans[k].buffer == w.chans[k].buffer
              && (!r.world.pool.closed ==> InUse(r.world.pool.connections, w.chans[k].buffer.value))
    decreases |es|
  {
    if es == [] {
      if !w.pool.closed {
        var id := w.chans[k].buffer.value;
        BufferedUpdate(w.chans, k, Chan(None, false, 0, Returned));
        assert id in Buffered(w.chans) + multiset{};
        InUseCount(w.pool.connections, id);
      }
    } else {
      StepKeeps(cfg, w, es[0]);
      StrandedStep(cfg, w, es[0], k);
      var r := Step(cfg, w, es[0]);
      if r.Next? {
        StrandedForever(cfg, r.world, es[1..], k);
      }
    }
  }

  lemma QueueAndTimeOut()
    ensures var r := Run(Config(5, 1, 100), LentOne(), [Get(0)] + ([TimeOut(0)] + [Put(0, 0)]));
            r.Next? && Stranded(r.world, 0)
  {
    var cfg, w := Config(5, 1, 100), LentOne();
    SweptInUse([Conn(0, 0, true)], 100);
    hide SweepAll, Mark, IdleCount;
    RunStep(cfg, w, Get(0), [TimeOut(0)] + [Put(0, 0)]);
    var w1 := Step(cfg, w, Get(0)).world;
    assert w1.pool.waiters == [0] && w1.chans == [Chan(None, false, 0, Selecting)];
    RunStep(cfg, w1, TimeOut(0), [Put(0, 0)]);
    var w2 := Step(cfg, w1, TimeOut(0)).world;
    RunStep(cfg, w2, Put(0, 0), []);
    assert [Put(0, 0)] + [] == [Put(0, 0)];
  }

  /** A second caller queues for the only connection, times out, and is sent it all the same. */
  lemma StrandingRun()
    ensures var r := Run(Config(5, 1, 100), NewWorld(), [Get(0), Created(0), Get(0), TimeOut(0), Put(0, 0)]);
            r.Next? && Stranded(r.world, 0)
  {
    hide Run, Step, Stranded;
    var lend, rest := [Get(0)] + [Created(0)], [Get(0)] + ([TimeOut(0)] + [Put(0, 0)]);
    LendOne(Config(5, 1, 100));
    QueueAndTimeOut();
    RunAppend(Config(5, 1, 100), NewWorld(), lend, rest);
    assert lend + rest == [Get(0), Created(0), Get(0), TimeOut(0), Put(0, 0)];
  }

  // ---- Callers that wait beside a free slot ----

  /** Callers queue only while the pool is full. */
  predicate FullWhileQueued(cfg: Config, w: World) {
    !w.pool.closed && w.pool.waiters != [] ==> w.pool.numOpen >= cfg.maxOpen
  }

  lemma GetStaysFull(cfg: Config, w: World, now: int)
    requires Invariant(cfg, w) && FullWhileQueued(cfg, w)
    ensures var r := GetStep(cfg, w, now); r.Next? ==> FullWhileQueued(cfg, r.world)
  {
    hide SweepAll, InUseIds, IdleCount, Mark, HoldsIdle;
    if !w.pool.closed {
      SweptAll(w.pool.connections, now, cfg.idleTimeout);
    }
  }

  lemma CleanupStaysFull(cfg: Config, w: World, now: int)
    requires Invariant(cfg, w) && FullWhileQueued(cfg, w)
    ensures FullWhileQueued(cfg, w.(pool := CleanupSection(cfg, w.pool, now)))
  {
    hide InUseIds, IdleCount, Kept;
    if !w.pool.closed {
      KeptTrims(w.pool.connections, now, cfg.idleTimeout);
    }
  }

  /** A creation that fails under a queue frees a slot and wakes nobody; no other step leaves callers waiting beside room. */
  lemma StaysFullIff(cfg: Config, w: World, e: Event)
    requires Invariant(cfg, w) && FullWhileQueued(cfg, w) && Step(cfg, w, e).Next?
    ensures FullWhileQueued(cfg, Step(cfg, w, e).world) <==>
            !(e.CreateFailed? && w.pending > 0 && !w.pool.closed && w.pool.waiters != [])
  {
    hide SweepAll, InUseIds, IdleCount, Mark, Kept, CloseAll, ChannelsOk, SingleOwners, FirstComeFirstServed;
    match e
    case Get(now) => GetStaysFull(cfg, w, now);
    case Put(id, now) => HandedFirst(cfg, w.pool, id, now);
    case Cleanup(now) => CleanupStaysFull(cfg, w, now);
    case Leave(k) => assert w.pool.waiters == [] ==> RemoveWaiter(w.pool.waiters, k) == [];
    case _ =>
  }

  /** One caller creates, another queues, the creation fails: the pool is empty and the second caller still waits. */
  lemma WaitingBesideRoomRun()
    ensures var r := Run(Config(5, 1, 100), NewWorld(), [Get(0), Get(0), CreateFailed]);
            r.Next? && r.world.pool == Pool([], [0], 0, false) && r.world.pending == 0 && At(r.world, 0, Selecting)
  {
    var cfg, w := Config(5, 1, 100), NewWorld();
    assert [Get(0), Get(0), CreateFailed] == [Get(0)] + ([Get(0)] + [CreateFailed]);
    RunStep(cfg, w, Get(0), [Get(0)] + [CreateFailed]);
    var w1 := Step(cfg, w, Get(0)).world;
    RunStep(cfg, w1, Get(0), [CreateFailed]);
    var w2 := Step(cfg, w1, Get(0)).world;
    RunStep(cfg, w2, CreateFailed, []);
    assert [CreateFailed] + [] == [CreateFailed];
  }

  // ---- What callers get ----

  /** In every run, what get hands out was listed, idle and fresh, and is now in use with its time renewed. */
  lemma GotIsUsable(cfg: Config, es: seq<Event>, now: int)
    requires var r := Run(cfg, NewWorld(), es); r.Next? && GetSection(cfg, r.world.pool, now, |r.world.chans|).1.Got?
    ensures var w := Run(cfg, NewWorld(), es).world;
            var id := GetSection(cfg, w.pool, now, |w.chans|).1.id;
            var r := Step(cfg, w, Get(now));
            && !w.pool.closed && r.Next?
            && (exists c :: c in w.pool.connections && c.id == id && Usable(c, now, cfg.idleTimeout))
            && Conn(id, now, true) in r.world.pool.connections
            && r.world.borrowed == w.borrowed + multiset{id} && w.borrowed[id] == 0
  {
    hide GetSection, Invariant, Usable;
    StartHolds(cfg);
    RunKeeps(cfg, NewWorld(), es);
    var w := Run(cfg, NewWorld(), es).world;
    GotWorld(cfg, w, now);
  }

  lemma GotOnOpen(cfg: Config, p: Pool, now: int, chan: nat)
    ensures GetSection(cfg, p, now, chan).1.Got? ==> !p.closed
  {
  }

  lemma GotWorld(cfg: Config, w: World, now: int)
    requires Invariant(cfg, w) && GetSection(cfg, w.pool, now, |w.chans|).1.Got?
    ensures var id := GetSection(cfg, w.pool, now, |w.chans|).1.id;
            var r := Step(cfg, w, Get(now));
            && !w.pool.closed && r.Next?
            && (exists c :: c in w.pool.connections && c.id == id && Usable(c, now, cfg.idleTimeout))
            && Conn(id, now, true) in r.world.pool.connections
            && r.world.borrowed == w.borrowed + multiset{id} && w.borrowed[id] == 0
  {
    GotOnOpen(cfg, w.pool, now, |w.chans|);
    GetKeeps(cfg, w.pool, w.pending, Owners(w), w.nextId, now, |w.chans|);
    GotMeans(cfg, w.pool, now, |w.chans|);
    hide GetSection, Usable, Balanced, Buffered, OnlyExpiredLeave;
  }

  /** Closing reaches each listed channel and leaves the others. */
  lemma {:induction false} CloseAllReaches(chans: seq<Chan>, ks: seq<nat>, k: nat)
    requires CloseAll(chans, ks).Some? && k < |chans|
    ensures var r := CloseAll(chans, ks).value;
            |r| == |chans| && (k in ks ==> r[k].closed) && (k !in ks ==> r[k] == chans[k])
            && (chans[k].closed ==> r[k].closed)
    decreases |ks|
  {
    if ks != [] {
      var chans' := chans[ks[0] := chans[ks[0]].(closed := true, events := chans[ks[0]].events + 1)];
      CloseAllReaches(chans', ks[1..], k);
      assert ks == [ks[0]] + ks[1..];
    }
  }

  /**
   Close closes the channel of every caller queued before it, and no other; a caller still waiting there
   returns at its next receive, without a connection.
   */
  lemma CloseWakesQueue(cfg: Config, w: World, k: nat)
    requires Invariant(cfg, w) && !w.pool.closed && k < |w.chans|
    ensures var r := Step(cfg, w, Close);
            && r.Next? && r.world.pool.closed && r.world.pool.waiters == []
            && |r.world.chans| == |w.chans|
            && (k in w.pool.waiters ==> r.world.chans[k].closed)
            && (k !in w.pool.waiters ==> r.world.chans[k] == w.chans[k])
            && (k in w.pool.waiters && At(w, k, Selecting) ==>
                  var r' := Step(cfg, r.world, Receive(k));
                  r'.Next? && At(r'.world, k, Returned) && r'.world.borrowed == w.borrowed)
  {
    CloseStepKeeps(cfg, w);
    CloseAllReaches(w.chans, w.pool.waiters, k);
    CloseAllLeaves(w.chans, w.pool.waiters, k);
    assert k in w.pool.waiters ==> w.chans[k].events == 0;
    hide Balanced, Owners, SingleOwners, FirstComeFirstServed, CloseAll;
  }

  /** A caller that leaves is out of the queue, and the others keep their places. */
  lemma LeaveMeans(cfg: Config, w: World, k: nat)
    requires Invariant(cfg, w) && At(w, k, Leaving)
    ensures var r := Step(cfg, w, Leave(k));
            && r.Next? && At(r.world, k, Returned) && k !in r.world.pool.waiters
            && (forall x :: x != k ==> (x in r.world.pool.waiters <==> x in w.pool.waiters))
            && r.world.pool.connections == w.pool.connections && r.world.borrowed == w.borrowed
  {
    hide Balanced, SingleOwners, ChannelsOk, FirstComeFirstServed, RemoveWaiter;
    QueueDistinct(w);
    CancelMeans(w.pool.waiters, k);
  }

  lemma QueueDistinct(w: World)
    requires FirstComeFirstServed(w)
    ensures forall i, j :: 0 <= i < j < |w.pool.waiters| ==> w.pool.waiters[i] != w.pool.waiters[j]
  {
    var order, n, ws := w.served + w.pool.waiters, |w.served|, w.pool.waiters;
    assert forall i :: 0 <= i < |ws| ==> ws[i] == order[n + i];
  }

  /** A caller that receives a connection holds it; the channel is empty afterwards. */
  lemma ReceiveMeans(cfg: Config, w: World, k: nat)
    requires At(w, k, Selecting)
    ensures var r := Step(cfg, w, Receive(k));
            && r.Next? && r.world.pool == w.pool
            && (w.chans[k].buffer.Some? ==>
                  At(r.world, k, Returned) && r.world.chans[k].buffer.None?
                  && r.world.borrowed == w.borrowed + multiset{w.chans[k].buffer.value})
            && (w.chans[k].buffer.None? && !w.chans[k].closed ==> r.world == w)
  {
  }

  /** A caller that times out returns and stays queued; one whose context ends is on its way out, and queued until it has left. */
  lemma GiveUpMeans(cfg: Config, w: World, k: nat)
    requires At(w, k, Selecting)
    ensures var r := Step(cfg, w, TimeOut(k)); r.Next? && At(r.world, k, Returned) && r.world.pool == w.pool && r.world.borrowed == w.borrowed
    ensures var r := Step(cfg, w, ContextDone(k)); r.Next? && At(r.world, k, Leaving) && r.world.pool == w.pool && r.world.borrowed == w.borrowed
  {
  }
}
