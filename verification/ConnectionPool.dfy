/**
 The client connection pool: the locked sections of get, put, createConnection, Close and
 cleanup as functions on the pool, and the in-place slice edits they make.
 */
module ConnectionPool {
  import opened Wrappers

  datatype Config = Config(maxIdle: int, maxOpen: int, idleTimeout: int)

  /** A pooled connection; the id stands for the pointer. */
  datatype Conn = Conn(id: nat, lastUsed: int, inUse: bool)

  /** The fields guarded by the pool's mutex; waiters are channel numbers. */
  datatype Pool = Pool(connections: seq<Conn>, waiters: seq<nat>, numOpen: int, closed: bool)

  // ---- Lists of connections ----

  predicate DistinctIds(cs: seq<Conn>) {
    forall i, j :: 0 <= i < j < |cs| ==> cs[i].id != cs[j].id
  }

  predicate HasId(cs: seq<Conn>, id: nat) {
    exists i :: 0 <= i < |cs| && cs[i].id == id
  }

  function IdleCount(cs: seq<Conn>): nat {
    if cs == [] then 0 else (if cs[0].inUse then 0 else 1) + IdleCount(cs[1..])
  }

  /** The effect of writing through a connection pointer. */
  function Mark(cs: seq<Conn>, id: nat, inUse: bool, now: int): (r: seq<Conn>)
    ensures |r| == |cs|
    ensures forall i :: 0 <= i < |cs| ==> r[i] == if cs[i].id == id then Conn(id, now, inUse) else cs[i]
  {
    seq(|cs|, i requires 0 <= i < |cs| => if cs[i].id == id then Conn(id, now, inUse) else cs[i])
  }

  /** Removal of the first element with the given pointer. */
  function RemoveId(cs: seq<Conn>, id: nat): seq<Conn> {
    if cs == [] then [] else if cs[0].id == id then cs[1..] else [cs[0]] + RemoveId(cs[1..], id)
  }

  lemma {:induction false} IdleAppend(a: seq<Conn>, b: seq<Conn>)
    ensures IdleCount(a + b) == IdleCount(a) + IdleCount(b)
  {
    if a == [] {
      assert a + b == b;
    } else {
      IdleAppend(a[1..], b);
      assert (a + b)[1..] == a[1..] + b;
    }
  }

  lemma {:induction false} IdleZero(cs: seq<Conn>)
    ensures IdleCount(cs) == 0 <==> forall i :: 0 <= i < |cs| ==> cs[i].inUse
  {
    if cs != [] {
      IdleZero(cs[1..]);
      assert forall i :: 0 < i < |cs| ==> cs[i] == cs[1..][i - 1];
    }
  }

  // ---- The sweep in get ----

  datatype SweepResult = Swept(list: seq<Conn>) | Found(id: nat, list: seq<Conn>) | OutOfRange

  predicate Fresh(c: Conn, now: int, timeout: int) {
    now - c.lastUsed < timeout
  }

  /**
   The loop ranges over the original slice header, of `n` elements, while removals shift its backing
   array: after a removal the next element is skipped, and beyond the end of the shortened list the
   loop still reads the original last element, whose removal slices out of range.
   `list` is the current list, `i` the loop index, `last` the original last element.
   */
  function Sweep(list: seq<Conn>, i: nat, n: nat, last: Conn, now: int, timeout: int): SweepResult
    decreases n - i
  {
    if i >= n then Swept(list)
    else
      var c := if i < |list| then list[i] else last;
      if c.inUse then Sweep(list, i + 1, n, last, now, timeout)
      else if Fresh(c, now, timeout) then Found(c.id, list)
      else if i < |list| then Sweep(list[..i] + list[i + 1..], i + 1, n, last, now, timeout)
      else OutOfRange
  }

  function SweepAll(cs: seq<Conn>, now: int, timeout: int): SweepResult {
    if cs == [] then Swept(cs) else Sweep(cs, 0, |cs|, cs[|cs| - 1], now, timeout)
  }

  /** Does walking the list, by one past used and by two past expired connections, meet a fresh one? */
  predicate MeetsFresh(cs: seq<Conn>, now: int, timeout: int) {
    cs != [] &&
    if cs[0].inUse then MeetsFresh(cs[1..], now, timeout)
    else Fresh(cs[0], now, timeout) || (|cs| > 2 && MeetsFresh(cs[2..], now, timeout))
  }

  predicate Expired(c: Conn, now: int, timeout: int) {
    !c.inUse && !Fresh(c, now, timeout)
  }

  predicate IdleBeforeLast(cs: seq<Conn>) {
    exists i :: 0 <= i < |cs| - 1 && !cs[i].inUse
  }

  /** The state of the loop: the current list still ends in the original last element, unless that has expired. */
  predicate AtLoop(list: seq<Conn>, i: nat, n: nat, last: Conn, now: int, timeout: int) {
    i <= n && |list| <= n && (Expired(last, now, timeout) || (list != [] && list[|list| - 1] == last))
  }

  /** Once something was removed, the walk ends in the stale reads of the last element. */
  lemma {:induction false} SweepAfterRemoval(list: seq<Conn>, i: nat, n: nat, last: Conn, now: int, timeout: int)
    requires AtLoop(list, i, n, last, now, timeout) && |list| < n && i < n
    requires i < |list| ==> list[|list| - 1] == last
    ensures Sweep(list, i, n, last, now, timeout) == OutOfRange <==>
            Expired(last, now, timeout) && (i < |list| ==> !MeetsFresh(list[i..], now, timeout))
    decreases n - i
  {
    if i >= |list| {
      if i + 1 < n && last.inUse {
        SweepAfterRemoval(list, i + 1, n, last, now, timeout);
      }
    } else {
      var rest := list[i..];
      if list[i].inUse {
        assert rest[1..] == list[i + 1..];
        SweepAfterRemoval(list, i + 1, n, last, now, timeout);
        assert i + 1 == |list| ==> rest[1..] == [];
      } else if !Fresh(list[i], now, timeout) {
        var list' := list[..i] + list[i + 1..];
        assert i + 1 < |list'| ==> list'[i + 1..] == rest[2..];
        SweepAfterRemoval(list', i + 1, n, last, now, timeout);
      }
    }
  }

  lemma {:induction false} SweepBeforeRemoval(cs: seq<Conn>, i: nat, now: int, timeout: int)
    requires cs != [] && i <= |cs| && forall k :: 0 <= k < i ==> cs[k].inUse
    ensures var last := cs[|cs| - 1];
            Sweep(cs, i, |cs|, last, now, timeout) == OutOfRange <==>
            i < |cs| && Expired(last, now, timeout) && !MeetsFresh(cs[i..], now, timeout) && IdleBeforeLast(cs)
    decreases |cs| - i
  {
    var n, last := |cs|, cs[|cs| - 1];
    if i < n {
      var rest := cs[i..];
      if cs[i].inUse {
        assert rest[1..] == cs[i + 1..];
        SweepBeforeRemoval(cs, i + 1, now, timeout);
      } else if !Fresh(cs[i], now, timeout) {
        var list' := cs[..i] + cs[i + 1..];
        if i + 1 < n {
          assert i + 1 < |list'| ==> list'[i + 1..] == rest[2..];
          assert IdleBeforeLast(cs);
          SweepAfterRemoval(list', i + 1, n, last, now, timeout);
        }
      }
    }
  }

  /**
   The sweep slices out of range exactly when the last connection is idle and expired, another idle
   connection stands before it, and the skipping walk meets no fresh one.
   */
  lemma SweepPanicsIff(cs: seq<Conn>, now: int, timeout: int)
    ensures SweepAll(cs, now, timeout) == OutOfRange <==>
      cs != [] && Expired(cs[|cs| - 1], now, timeout) && IdleBeforeLast(cs) && !MeetsFresh(cs, now, timeout)
  {
    if cs != [] {
      SweepBeforeRemoval(cs, 0, now, timeout);
      assert cs[0..] == cs;
    }
  }

  predicate Usable(c: Conn, now: int, timeout: int) {
    !c.inUse && Fresh(c, now, timeout)
  }

  lemma {:induction false} FoundAfterRemoval(list: seq<Conn>, i: nat, n: nat, last: Conn, now: int, timeout: int)
    requires AtLoop(list, i, n, last, now, timeout) && |list| < n && i < n
    requires i < |list| ==> list[|list| - 1] == last
    ensures Sweep(list, i, n, last, now, timeout).Found? <==>
            Usable(last, now, timeout) || (i < |list| && MeetsFresh(list[i..], now, timeout))
    decreases n - i
  {
    if i >= |list| {
      if i + 1 < n && last.inUse {
        FoundAfterRemoval(list, i + 1, n, last, now, timeout);
      }
    } else {
      var rest := list[i..];
      if list[i].inUse {
        assert rest[1..] == list[i + 1..];
        FoundAfterRemoval(list, i + 1, n, last, now, timeout);
        assert i + 1 == |list| ==> rest[1..] == [];
      } else if !Fresh(list[i], now, timeout) {
        var list' := list[..i] + list[i + 1..];
        assert i + 1 < |list'| ==> list'[i + 1..] == rest[2..];
        FoundAfterRemoval(list', i + 1, n, last, now, timeout);
      }
    }
  }

  lemma {:induction false} FoundBeforeRemoval(cs: seq<Conn>, i: nat, now: int, timeout: int)
    requires cs != [] && i <= |cs| && forall k :: 0 <= k < i ==> cs[k].inUse
    ensures var last := cs[|cs| - 1];
            Sweep(cs, i, |cs|, last, now, timeout).Found? <==>
            Usable(last, now, timeout) || (i < |cs| && MeetsFresh(cs[i..], now, timeout))
    decreases |cs| - i
  {
    var n, last := |cs|, cs[|cs| - 1];
    if i < n {
      var rest := cs[i..];
      if cs[i].inUse {
        assert rest[1..] == cs[i + 1..];
        FoundBeforeRemoval(cs, i + 1, now, timeout);
        assert i + 1 == n ==> rest[1..] == [];
      } else if !Fresh(cs[i], now, timeout) {
        var list' := cs[..i] + cs[i + 1..];
        if i + 1 < n {
          assert i + 1 < |list'| ==> list'[i + 1..] == rest[2..];
          FoundAfterRemoval(list', i + 1, n, last, now, timeout);
        }
      }
    }
  }

  /** The sweep finds a connection exactly when the last one is usable or the skipping walk meets a fresh one. */
  lemma SweepFoundIff(cs: seq<Conn>, now: int, timeout: int)
    ensures SweepAll(cs, now, timeout).Found? <==>
            cs != [] && (Usable(cs[|cs| - 1], now, timeout) || MeetsFresh(cs, now, timeout))
  {
    if cs != [] {
      FoundBeforeRemoval(cs, 0, now, timeout);
      assert cs[0..] == cs;
    }
  }

  /** The first fresh connection that the walk meets, going by one past used and by two past expired ones. */
  function Met(cs: seq<Conn>, now: int, timeout: int): Option<Conn> {
    if cs == [] then None
    else if cs[0].inUse then Met(cs[1..], now, timeout)
    else if Fresh(cs[0], now, timeout) then Some(cs[0])
    else if |cs| > 2 then Met(cs[2..], now, timeout)
    else None
  }

  lemma {:induction false} MetIsUsable(cs: seq<Conn>, now: int, timeout: int)
    ensures Met(cs, now, timeout).Some? <==> MeetsFresh(cs, now, timeout)
    ensures var r := Met(cs, now, timeout); r.Some? ==> r.value in cs && Usable(r.value, now, timeout)
  {
    if cs != [] {
      if cs[0].inUse {
        MetIsUsable(cs[1..], now, timeout);
      } else if !Fresh(cs[0], now, timeout) && |cs| > 2 {
        MetIsUsable(cs[2..], now, timeout);
      }
    }
  }

  /** What the walk finds from position `i` on: the connection it meets, or else the last. */
  function Choice(list: seq<Conn>, i: nat, last: Conn, now: int, timeout: int): Conn {
    if i < |list| && Met(list[i..], now, timeout).Some? then Met(list[i..], now, timeout).value else last
  }

  lemma {:induction false} ChosenAfterRemoval(list: seq<Conn>, i: nat, n: nat, last: Conn, now: int, timeout: int)
    requires AtLoop(list, i, n, last, now, timeout) && |list| < n && i < n
    requires i < |list| ==> list[|list| - 1] == last
    ensures var r := Sweep(list, i, n, last, now, timeout);
            r.Found? ==> r.id == Choice(list, i, last, now, timeout).id && Usable(Choice(list, i, last, now, timeout), now, timeout)
    decreases n - i
  {
    if i >= |list| {
      if i + 1 < n && last.inUse {
        ChosenAfterRemoval(list, i + 1, n, last, now, timeout);
      }
    } else {
      var rest := list[i..];
      if list[i].inUse {
        assert rest[1..] == list[i + 1..];
        ChosenAfterRemoval(list, i + 1, n, last, now, timeout);
        assert i + 1 == |list| ==> rest[1..] == [];
      } else if !Fresh(list[i], now, timeout) {
        var list' := list[..i] + list[i + 1..];
        assert i + 1 < |list'| ==> list'[i + 1..] == rest[2..];
        ChosenAfterRemoval(list', i + 1, n, last, now, timeout);
      }
    }
  }

  lemma {:induction false} ChosenBeforeRemoval(cs: seq<Conn>, i: nat, now: int, timeout: int)
    requires cs != [] && i <= |cs| && forall k :: 0 <= k < i ==> cs[k].inUse
    ensures var last := cs[|cs| - 1];
            var r := Sweep(cs, i, |cs|, last, now, timeout);
            r.Found? ==> r.id == Choice(cs, i, last, now, timeout).id && Usable(Choice(cs, i, last, now, timeout), now, timeout)
    decreases |cs| - i
  {
    var n, last := |cs|, cs[|cs| - 1];
    if i < n {
      var rest := cs[i..];
      if cs[i].inUse {
        assert rest[1..] == cs[i + 1..];
        ChosenBeforeRemoval(cs, i + 1, now, timeout);
        assert i + 1 == n ==> rest[1..] == [];
      } else if !Fresh(cs[i], now, timeout) {
        var list' := cs[..i] + cs[i + 1..];
        if i + 1 < n {
          assert i + 1 < |list'| ==> list'[i + 1..] == rest[2..];
          ChosenAfterRemoval(list', i + 1, n, last, now, timeout);
        }
      }
    }
  }

  /** Whatever the sweep takes out of the list has expired. */
  lemma {:induction false} SweepDropsExpired(list: seq<Conn>, i: nat, n: nat, last: Conn, now: int, timeout: int, c: Conn)
    requires c in list
    ensures var r := Sweep(list, i, n, last, now, timeout);
            !r.OutOfRange? && c !in r.list ==> Expired(c, now, timeout)
    decreases n - i
  {
    if i < n {
      var x := if i < |list| then list[i] else last;
      if x.inUse {
        SweepDropsExpired(list, i + 1, n, last, now, timeout, c);
      } else if !Fresh(x, now, timeout) && i < |list| {
        var list' := list[..i] + list[i + 1..];
        if c in list' {
          SweepDropsExpired(list', i + 1, n, last, now, timeout, c);
        } else {
          assert list == list[..i] + [x] + list[i + 1..];
        }
      }
    }
  }

  /**
   What the sweep finds is the first usable connection that the walk meets, or else the last, which is
   then usable; and what it took out of the list had expired.
   */
  lemma SweepFinds(cs: seq<Conn>, now: int, timeout: int)
    requires SweepAll(cs, now, timeout).Found?
    ensures var r := SweepAll(cs, now, timeout);
            var met := Met(cs, now, timeout);
            && cs != [] && r.id == (if met.Some? then met.value.id else cs[|cs| - 1].id)
            && exists k :: 0 <= k < |cs| && cs[k].id == r.id && Usable(cs[k], now, timeout)
                           && cs[k] == (if met.Some? then met.value else cs[|cs| - 1])
    ensures forall c :: c in cs && c !in SweepAll(cs, now, timeout).list ==> Expired(c, now, timeout)
  {
    ChosenBeforeRemoval(cs, 0, now, timeout);
    assert cs[0..] == cs;
    MetIsUsable(cs, now, timeout);
    var last, chosen := cs[|cs| - 1], Choice(cs, 0, cs[|cs| - 1], now, timeout);
    assert chosen in cs;
    var k :| 0 <= k < |cs| && cs[k] == chosen;
    forall c | c in cs
      ensures c !in SweepAll(cs, now, timeout).list ==> Expired(c, now, timeout)
    {
      SweepDropsExpired(cs, 0, |cs|, last, now, timeout, c);
    }
  }

  /** A sweep that finds nothing takes out expired connections only, too. */
  lemma SweptDropsExpired(cs: seq<Conn>, now: int, timeout: int, c: Conn)
    requires c in cs && !SweepAll(cs, now, timeout).OutOfRange? && c !in SweepAll(cs, now, timeout).list
    ensures Expired(c, now, timeout)
  {
    SweepDropsExpired(cs, 0, |cs|, cs[|cs| - 1], now, timeout, c);
  }

  /** So it overlooks a usable connection that follows an expired one. */
  lemma SweepOverlooks(cs: seq<Conn>, now: int, timeout: int)
    requires |cs| == 3 && Expired(cs[0], now, timeout) && Usable(cs[1], now, timeout) && cs[2].inUse
    ensures SweepAll(cs, now, timeout) == Swept(cs[1..])
  {
    var list := cs[..0] + cs[1..];
    assert list == cs[1..] && list[1] == cs[2];
    assert Sweep(list, 3, 3, cs[2], now, timeout) == Swept(list);
    assert Sweep(list, 2, 3, cs[2], now, timeout) == Swept(list);
    assert Sweep(list, 1, 3, cs[2], now, timeout) == Swept(list);
  }

  /** `list` is `cs` with idle connections taken out. */
  ghost predicate Trimmed(cs: seq<Conn>, list: seq<Conn>) {
    && |list| <= |cs| && IdleCount(list) + (|cs| - |list|) == IdleCount(cs)
    && DistinctIds(list)
    && (forall c :: c in list ==> c in cs)
    && (forall c :: c in cs && c.inUse ==> c in list)
  }

  lemma TrimmedTrans(a: seq<Conn>, b: seq<Conn>, c: seq<Conn>)
    requires Trimmed(a, b) && Trimmed(b, c)
    ensures Trimmed(a, c)
  {
  }

  lemma TrimOne(cs: seq<Conn>, i: nat)
    requires i < |cs| && DistinctIds(cs) && !cs[i].inUse
    ensures Trimmed(cs, cs[..i] + cs[i + 1..])
  {
    var a, x, b := cs[..i], cs[i], cs[i + 1..];
    var rest := a + b;
    assert cs == a + [x] + b;
    IdleAppend(a + [x], b);
    IdleAppend(a, [x]);
    IdleAppend(a, b);
    assert IdleCount([x]) == 1 + IdleCount([x][1..]);
    forall j, k | 0 <= j < k < |rest|
      ensures rest[j].id != rest[k].id
    {
      assert rest[j] == cs[if j < i then j else j + 1] && rest[k] == cs[if k < i then k else k + 1];
    }
    forall c | c in cs && c.inUse
      ensures c in rest
    {
      assert c in a || c in b;
    }
  }

  ghost predicate HoldsIdle(cs: seq<Conn>, id: nat) {
    exists i :: 0 <= i < |cs| && cs[i].id == id && !cs[i].inUse
  }

  /** The sweep only takes idle connections out of the list, and what it finds is idle and still listed. */
  lemma {:induction false} SweepTrims(list: seq<Conn>, i: nat, n: nat, last: Conn, now: int, timeout: int)
    requires AtLoop(list, i, n, last, now, timeout) && DistinctIds(list)
    ensures var r := Sweep(list, i, n, last, now, timeout);
            && (!r.OutOfRange? ==> Trimmed(list, r.list))
            && (r.Found? ==> HoldsIdle(r.list, r.id))
    decreases n - i
  {
    if i < n {
      var c := if i < |list| then list[i] else last;
      if c.inUse {
        SweepTrims(list, i + 1, n, last, now, timeout);
      } else if Fresh(c, now, timeout) {
        assert i >= |list| ==> list[|list| - 1] == c;
      } else if i < |list| {
        var list' := list[..i] + list[i + 1..];
        TrimOne(list, i);
        SweepTrims(list', i + 1, n, last, now, timeout);
        var r := Sweep(list', i + 1, n, last, now, timeout);
        if !r.OutOfRange? {
          TrimmedTrans(list, list', r.list);
        }
      }
    }
  }

  /** A sweep that removes and finds nothing has seen only connections in use. */
  lemma {:induction false} SweepSawAll(cs: seq<Conn>, i: nat, last: Conn, now: int, timeout: int)
    requires i <= |cs| && forall k :: 0 <= k < i ==> cs[k].inUse
    ensures var r := Sweep(cs, i, |cs|, last, now, timeout);
            r.Swept? && |r.list| == |cs| ==> r.list == cs && forall k :: 0 <= k < |cs| ==> cs[k].inUse
    decreases |cs| - i
  {
    if i < |cs| {
      if cs[i].inUse {
        SweepSawAll(cs, i + 1, last, now, timeout);
      } else if !Fresh(cs[i], now, timeout) {
        SweepShrinks(cs[..i] + cs[i + 1..], i + 1, |cs|, last, now, timeout);
      }
    }
  }

  lemma {:induction false} SweepShrinks(list: seq<Conn>, i: nat, n: nat, last: Conn, now: int, timeout: int)
    ensures var r := Sweep(list, i, n, last, now, timeout); !r.OutOfRange? ==> |r.list| <= |list|
    decreases n - i
  {
    if i < n {
      var c := if i < |list| then list[i] else last;
      if c.inUse {
        SweepShrinks(list, i + 1, n, last, now, timeout);
      } else if !Fresh(c, now, timeout) && i < |list| {
        SweepShrinks(list[..i] + list[i + 1..], i + 1, n, last, now, timeout);
      }
    }
  }

  /** The append that removes element `i`: the rest moves down, the last slot keeps its element. */
  method CloseGap(a: array<Conn>, i: nat, m: nat) returns (m': nat)
    requires i < m <= a.Length
    modifies a
    ensures m' == m - 1 && a[..m'] == old(a[..i]) + old(a[i + 1..m])
    ensures forall j :: m' <= j < a.Length ==> a[j] == old(a[j])
    ensures i < m' ==> a[m' - 1] == old(a[m - 1])
  {
    forall j | i <= j < m - 1 {
      a[j] := a[j + 1];
    }
    m' := m - 1;
    var list, tail := old(a[..i]), old(a[i + 1..m]);
    assert forall j :: 0 <= j < m' ==> a[j] == (list + tail)[j];
  }

  /** The sweep on the backing array itself. */
  method SweepSlice(a: array<Conn>, now: int, timeout: int) returns (r: SweepResult)
    modifies a
    ensures r == SweepAll(old(a[..]), now, timeout)
  {
    var n, m := a.Length, a.Length;
    ghost var last := if n > 0 then a[n - 1] else Conn(0, 0, true);
    var i := 0;
    assert a[..m] == a[..];
    while i < n
      invariant 0 <= i <= n && m <= n
      invariant n > 0 ==> SweepAll(old(a[..]), now, timeout) == Sweep(a[..m], i, n, last, now, timeout)
      invariant forall j :: m <= j < n ==> a[j] == last
      invariant i < m ==> a[m - 1] == last
    {
      var conn := a[i];
      if !conn.inUse {
        if Fresh(conn, now, timeout) {
          return Found(conn.id, a[..m]);
        }
        if i + 1 > m {
          return OutOfRange;
        }
        ghost var list := a[..m];
        assert list[..i] == a[..i] && list[i + 1..] == a[i + 1..m];
        m := CloseGap(a, i, m);
        assert a[..m] == list[..i] + list[i + 1..];
      }
      i := i + 1;
    }
    return Swept(a[..m]);
  }

  // ---- The compaction in cleanup ----

  predicate CleanupKeeps(c: Conn, now: int, timeout: int) {
    c.inUse || now - c.lastUsed <= timeout
  }

  /** Exactly the connections in use or not yet expired, in order. */
  function Kept(cs: seq<Conn>, now: int, timeout: int): (r: seq<Conn>)
    ensures |r| <= |cs|
  {
    if cs == [] then []
    else
      var init, c := Kept(cs[..|cs| - 1], now, timeout), cs[|cs| - 1];
      if CleanupKeeps(c, now, timeout) then init + [c] else init
  }

  lemma {:induction false} KeptMembers(cs: seq<Conn>, now: int, timeout: int, c: Conn)
    ensures c in Kept(cs, now, timeout) <==> c in cs && CleanupKeeps(c, now, timeout)
  {
    if cs != [] {
      KeptMembers(cs[..|cs| - 1], now, timeout, c);
      assert cs == cs[..|cs| - 1] + [cs[|cs| - 1]];
    }
  }

  /** An idle connection that cleanup keeps and get would close is exactly as old as the timeout. */
  lemma KeptYetExpired(cs: seq<Conn>, now: int, timeout: int, c: Conn)
    ensures c in Kept(cs, now, timeout) && Expired(c, now, timeout) <==>
            c in cs && !c.inUse && now - c.lastUsed == timeout
  {
    KeptMembers(cs, now, timeout, c);
  }

  lemma {:induction false} KeptTrims(cs: seq<Conn>, now: int, timeout: int)
    requires DistinctIds(cs)
    ensures Trimmed(cs, Kept(cs, now, timeout))
  {
    if cs != [] {
      var init, c := cs[..|cs| - 1], cs[|cs| - 1];
      var k := Kept(init, now, timeout);
      KeptTrims(init, now, timeout);
      assert cs == init + [c];
      IdleAppend(init, [c]);
      IdleAppend(k, [c]);
      assert [c][1..] == [] && IdleCount([c]) == (if c.inUse then 0 else 1) + IdleCount([]);
      assert forall i :: 0 <= i < |k| ==> k[i] in k;
      assert forall x :: x in init ==> x.id != c.id;
    }
  }

  /** cleanup's loop writes the connections it keeps to the front of the slice it ranges over. */
  method CompactSlice(a: array<Conn>, now: int, timeout: int) returns (i: nat)
    modifies a
    ensures i <= a.Length && a[..i] == Kept(old(a[..]), now, timeout)
  {
    i := 0;
    ghost var cs := a[..];
    for k := 0 to a.Length
      invariant i <= k && a[..i] == Kept(cs[..k], now, timeout)
      invariant forall j :: k <= j < a.Length ==> a[j] == cs[j]
    {
      var conn := a[k];
      assert cs[..k + 1][..k] == cs[..k];
      if CleanupKeeps(conn, now, timeout) {
        a[i] := conn;
        i := i + 1;
      }
    }
    assert cs[..a.Length] == cs;
  }

  // ---- The locked sections ----

  datatype GetResult = Refused | Got(id: nat) | Create | Wait | Panic

  /** get up to the point where it unlocks; a waiter enters the queue under channel `chan`. */
  function GetSection(cfg: Config, p: Pool, now: int, chan: nat): (Pool, GetResult) {
    if p.closed then (p, Refused)
    else
      match SweepAll(p.connections, now, cfg.idleTimeout)
      case OutOfRange => (p, Panic)
      case Found(id, list) =>
        (p.(connections := Mark(list, id, true, now), numOpen := p.numOpen - (|p.connections| - |list|)), Got(id))
      case Swept(list) =>
        var q := p.(connections := list, numOpen := p.numOpen - (|p.connections| - |list|));
        if q.numOpen < cfg.maxOpen then (q.(numOpen := q.numOpen + 1), Create)
        else (q.(waiters := q.waiters + [chan]), Wait)
  }

  /** createConnection appends under the lock; a failure gives the reservation back. */
  function CreatedSection(p: Pool, id: nat, now: int): Pool {
    p.(connections := p.connections + [Conn(id, now, true)])
  }

  function FailedSection(p: Pool): Pool {
    p.(numOpen := p.numOpen - 1)
  }

  datatype PutResult = Discarded | Handed(chan: nat) | KeptIdle | Dropped

  /** put: closed pools discard; a waiter is served first; else the connection idles unless that makes too many. */
  function PutSection(cfg: Config, p: Pool, id: nat, now: int): (Pool, PutResult) {
    if p.closed then (p, Discarded)
    else if p.waiters != [] then
      (p.(waiters := p.waiters[1..], connections := Mark(p.connections, id, true, now)), Handed(p.waiters[0]))
    else
      var idle := Mark(p.connections, id, false, now);
      if IdleCount(idle) >= cfg.maxIdle then
        (p.(connections := RemoveId(idle, id), numOpen := p.numOpen - 1), Dropped)
      else (p.(connections := idle), KeptIdle)
  }

  function RemoveWaiter(ws: seq<nat>, w: nat): seq<nat> {
    if ws == [] then [] else if ws[0] == w then ws[1..] else [ws[0]] + RemoveWaiter(ws[1..], w)
  }

  function CancelSection(p: Pool, w: nat): Pool {
    p.(waiters := RemoveWaiter(p.waiters, w))
  }

  /** Close also says which channels it closes. */
  function CloseSection(p: Pool): (Pool, seq<nat>) {
    if p.closed then (p, []) else (Pool([], [], 0, true), p.waiters)
  }

  function CleanupSection(cfg: Config, p: Pool, now: int): Pool {
    if p.closed then p
    else
      var kept := Kept(p.connections, now, cfg.idleTimeout);
      p.(connections := kept, numOpen := p.numOpen - (|p.connections| - |kept|))
  }

  /** The pool object: each method is one locked section. */
  class SharedPool {
    const cfg: Config
    var connections: seq<Conn>
    var waiters: seq<nat>
    var numOpen: int
    var closed: bool

    ghost function State(): Pool
      reads this
    {
      Pool(connections, waiters, numOpen, closed)
    }

    constructor (cfg: Config)
      ensures this.cfg == cfg && State() == Pool([], [], 0, false)
    {
      this.cfg := cfg;
      connections, waiters, numOpen, closed := [], [], 0, false;
    }

    method Get(now: int, chan: nat) returns (r: GetResult)
      modifies this
      ensures (State(), r) == GetSection(cfg, old(State()), now, chan)
    {
      if closed {
        return Refused;
      }
      var cs := connections;
      var slice := new Conn[|cs|](i requires 0 <= i < |cs| => cs[i]);
      assert slice[..] == cs;
      var swept := SweepSlice(slice, now, cfg.idleTimeout);
      match swept {
        case OutOfRange =>
          return Panic;
        case Found(id, list) =>
          numOpen := numOpen - (|connections| - |list|);
          connections := Mark(list, id, true, now);
          return Got(id);
        case Swept(list) =>
          numOpen := numOpen - (|connections| - |list|);
          connections := list;
      }
      if numOpen < cfg.maxOpen {
        numOpen := numOpen + 1;
        return Create;
      }
      waiters := waiters + [chan];
      return Wait;
    }

    method Created(id: nat, now: int)
      modifies this
      ensures State() == CreatedSection(old(State()), id, now)
    {
      connections := connections + [Conn(id, now, true)];
    }

    method CreateFailed()
      modifies this
      ensures State() == FailedSection(old(State()))
    {
      numOpen := numOpen - 1;
    }

    method Put(id: nat, now: int) returns (r: PutResult)
      modifies this
      ensures (State(), r) == PutSection(cfg, old(State()), id, now)
    {
      if closed {
        return Discarded;
      }
      ghost var before := connections;
      connections := Mark(connections, id, false, now);
      if |waiters| > 0 {
        var waiter := waiters[0];
        waiters := waiters[1..];
        connections := Mark(connections, id, true, now);
        assert connections == Mark(before, id, true, now);
        return Handed(waiter);
      }
      var idleCount := CountIdle(connections);
      if idleCount >= cfg.maxIdle {
        numOpen := numOpen - 1;
        connections := RemoveId(connections, id);
        return Dropped;
      }
      return KeptIdle;
    }

    method Cancel(w: nat)
      modifies this
      ensures State() == CancelSection(old(State()), w)
    {
      waiters := RemoveWaiter(waiters, w);
    }

    method Close() returns (closing: seq<nat>)
      modifies this
      ensures (State(), closing) == CloseSection(old(State()))
    {
      if closed {
        return [];
      }
      closed := true;
      closing := waiters;
      waiters, connections, numOpen := [], [], 0;
    }

    method Cleanup(now: int)
      modifies this
      ensures State() == CleanupSection(cfg, old(State()), now)
    {
      if closed {
        return;
      }
      var cs := connections;
      var slice := new Conn[|cs|](i requires 0 <= i < |cs| => cs[i]);
      assert slice[..] == cs;
      var i := CompactSlice(slice, now, cfg.idleTimeout);
      numOpen := numOpen - (|cs| - i);
      connections := slice[..i];
    }
  }

  /** The counting loop of put. */
  method CountIdle(cs: seq<Conn>) returns (n: nat)
    ensures n == IdleCount(cs)
  {
    n := 0;
    for i := 0 to |cs|
      invariant n == IdleCount(cs[..i])
    {
      assert cs[..i + 1] == cs[..i] + [cs[i]];
      IdleAppend(cs[..i], [cs[i]]);
      assert [cs[i]][1..] == [] && IdleCount([cs[i]]) == (if cs[i].inUse then 0 else 1) + IdleCount([]);
      if !cs[i].inUse {
        n := n + 1;
      }
    }
    assert cs[..|cs|] == cs;
  }

  // ---- What the sections mean ----

  /** A closed pool refuses and stays as it is. */
  lemma GetOnClosed(cfg: Config, p: Pool, now: int, chan: nat)
    requires p.closed
    ensures GetSection(cfg, p, now, chan) == (p, Refused)
  {
  }

  /** Nothing but the connection `id` changes, and nothing leaves the list but what has expired. */
  ghost predicate OnlyExpiredLeave(cs: seq<Conn>, cs': seq<Conn>, id: nat, now: int, timeout: int) {
    && (forall c :: c in cs && c.id != id && c !in cs' ==> Expired(c, now, timeout))
    && (forall c :: c in cs' && c.id != id ==> c in cs)
  }

  lemma {:induction false} MarkMembers(cs: seq<Conn>, id: nat, inUse: bool, now: int)
    ensures forall c: Conn :: c.id != id ==> (c in Mark(cs, id, inUse, now) <==> c in cs)
    ensures HasId(cs, id) ==> Conn(id, now, inUse) in Mark(cs, id, inUse, now)
    ensures forall c :: c in Mark(cs, id, inUse, now) && c.id == id ==> c == Conn(id, now, inUse)
  {
    var r := Mark(cs, id, inUse, now);
    forall c: Conn | c.id != id
      ensures c in r <==> c in cs
    {
      if c in cs {
        var k :| 0 <= k < |cs| && cs[k] == c;
        assert r[k] == c;
      }
    }
    if HasId(cs, id) {
      var k :| 0 <= k < |cs| && cs[k].id == id;
      assert r[k] == Conn(id, now, inUse);
    }
  }

  /**
   get hands out a connection that was idle and fresh, and marks it used now; every other connection
   stays as it was or has expired.
   */
  lemma GotMeans(cfg: Config, p: Pool, now: int, chan: nat)
    requires !p.closed && DistinctIds(p.connections) && GetSection(cfg, p, now, chan).1.Got?
    ensures var (p', r) := GetSection(cfg, p, now, chan);
            && (exists c :: c in p.connections && c.id == r.id && Usable(c, now, cfg.idleTimeout))
            && Conn(r.id, now, true) in p'.connections
            && OnlyExpiredLeave(p.connections, p'.connections, r.id, now, cfg.idleTimeout)
            && p'.waiters == p.waiters && !p'.closed
  {
    var cs := p.connections;
    SweepFinds(cs, now, cfg.idleTimeout);
    SweepTrims(cs, 0, |cs|, cs[|cs| - 1], now, cfg.idleTimeout);
    var r := SweepAll(cs, now, cfg.idleTimeout);
    var k :| 0 <= k < |cs| && cs[k].id == r.id && Usable(cs[k], now, cfg.idleTimeout);
    assert cs[k] in cs;
    hide Mark, SweepAll, Usable;
    MarkMembers(r.list, r.id, true, now);
  }

  /** get reserves or queues only when the sweep finds nothing, and then takes out expired connections only. */
  lemma NotGotMeans(cfg: Config, p: Pool, now: int, chan: nat)
    requires !p.closed && DistinctIds(p.connections)
    requires GetSection(cfg, p, now, chan).1.Create? || GetSection(cfg, p, now, chan).1.Wait?
    ensures var (p', r) := GetSection(cfg, p, now, chan);
            var gone := |p.connections| - |p'.connections|;
            && SweepAll(p.connections, now, cfg.idleTimeout).Swept?
            && (r.Create? <==> p.numOpen - gone < cfg.maxOpen)
            && p'.numOpen == p.numOpen - gone + (if r.Create? then 1 else 0)
            && p'.waiters == (if r.Create? then p.waiters else p.waiters + [chan])
            && (forall c :: c in p'.connections ==> c in p.connections)
            && (forall c :: c in p.connections && c !in p'.connections ==> Expired(c, now, cfg.idleTimeout))
  {
    var cs := p.connections;
    if cs != [] {
      SweepTrims(cs, 0, |cs|, cs[|cs| - 1], now, cfg.idleTimeout);
    }
    hide Expired;
    forall c | c in cs && c !in SweepAll(cs, now, cfg.idleTimeout).list
      ensures Expired(c, now, cfg.idleTimeout)
    {
      SweptDropsExpired(cs, now, cfg.idleTimeout, c);
    }
  }

  /** A creation lists the new connection, in use and used now, behind the others. */
  lemma CreatedMeans(p: Pool, id: nat, now: int)
    ensures var p' := CreatedSection(p, id, now);
            && |p'.connections| == |p.connections| + 1 && p'.connections[|p.connections|] == Conn(id, now, true)
            && p'.connections[..|p.connections|] == p.connections
            && p'.(connections := p.connections) == p
  {
  }

  /** put on an open pool: who gets the connection, how it is marked, and that no other one changes. */
  lemma PutMeans(cfg: Config, p: Pool, id: nat, now: int)
    requires !p.closed && DistinctIds(p.connections) && HasId(p.connections, id)
    ensures var (p', r) := PutSection(cfg, p, id, now);
            && (r.Handed? <==> p.waiters != [])
            && (r.Handed? ==> p.waiters == [r.chan] + p'.waiters && Conn(id, now, true) in p'.connections)
            && (r.KeptIdle? ==> p'.waiters == [] && Conn(id, now, false) in p'.connections)
            && (r.Dropped? ==> p'.waiters == [] && !HasId(p'.connections, id))
            && p'.numOpen == (if r.Dropped? then p.numOpen - 1 else p.numOpen) && !p'.closed
            && (forall c: Conn :: c.id != id ==> (c in p'.connections <==> c in p.connections))
  {
    hide Mark, RemoveId, IdleCount, HasId;
    MarkMembers(p.connections, id, true, now);
    MarkMembers(p.connections, id, false, now);
    MarkDistinct(p.connections, id, false, now);
    RemovedMembers(Mark(p.connections, id, false, now), id);
  }

  lemma MarkDistinct(cs: seq<Conn>, id: nat, inUse: bool, now: int)
    requires DistinctIds(cs)
    ensures DistinctIds(Mark(cs, id, inUse, now))
  {
  }

  lemma {:induction false} RemovedMembers(cs: seq<Conn>, id: nat)
    requires DistinctIds(cs)
    ensures !HasId(RemoveId(cs, id), id)
    ensures forall c: Conn :: c.id != id ==> (c in RemoveId(cs, id) <==> c in cs)
  {
    if cs != [] {
      assert cs == [cs[0]] + cs[1..];
      if cs[0].id == id {
        assert forall k :: 0 <= k < |cs[1..]| ==> cs[1..][k] == cs[k + 1];
      } else {
        RemovedMembers(cs[1..], id);
        var rest := RemoveId(cs[1..], id);
        assert forall k :: 0 <= k < |[cs[0]] + rest| ==> ([cs[0]] + rest)[k] == if k == 0 then cs[0] else rest[k - 1];
      }
    }
  }

  /** A leaving caller is out of the queue; the others keep their places. */
  lemma {:induction false} CancelMeans(ws: seq<nat>, w: nat)
    requires forall i, j :: 0 <= i < j < |ws| ==> ws[i] != ws[j]
    ensures w !in RemoveWaiter(ws, w)
    ensures forall x :: x != w ==> (x in RemoveWaiter(ws, w) <==> x in ws)
    ensures w !in ws ==> RemoveWaiter(ws, w) == ws
    ensures forall i :: 0 <= i < |ws| && ws[i] == w ==> RemoveWaiter(ws, w) == ws[..i] + ws[i + 1..]
    decreases |ws|
  {
    if ws != [] {
      assert ws == [ws[0]] + ws[1..];
      if ws[0] != w {
        CancelMeans(ws[1..], w);
        forall i | 0 <= i < |ws| && ws[i] == w
          ensures RemoveWaiter(ws, w) == ws[..i] + ws[i + 1..]
        {
          assert ws[1..][i - 1] == w;
          assert ws[..i] + ws[i + 1..] == [ws[0]] + (ws[1..][..i - 1] + ws[1..][i..]);
        }
      }
    }
  }

  /** After cleanup the list holds exactly the connections in use or not expired, and numOpen has followed. */
  lemma CleanupMeans(cfg: Config, p: Pool, now: int)
    ensures var p' := CleanupSection(cfg, p, now);
            && (p.closed ==> p' == p)
            && (!p.closed ==>
                  && (forall c :: c in p'.connections <==> c in p.connections && (c.inUse || now - c.lastUsed <= cfg.idleTimeout))
                  && p'.numOpen == p.numOpen - (|p.connections| - |p'.connections|)
                  && p'.waiters == p.waiters && !p'.closed)
  {
    if !p.closed {
      forall c: Conn
        ensures c in Kept(p.connections, now, cfg.idleTimeout) <==> c in p.connections && CleanupKeeps(c, now, cfg.idleTimeout)
      {
        KeptMembers(p.connections, now, cfg.idleTimeout, c);
      }
    }
  }

  /** Close empties an open pool and hands out its queue; a closed one stays as it is. */
  lemma CloseMeans(p: Pool)
    ensures var (p', closing) := CloseSection(p);
            && p'.closed && (p.closed ==> p' == p && closing == [])
            && (!p.closed ==> p'.connections == [] && p'.waiters == [] && p'.numOpen == 0 && closing == p.waiters)
  {
  }
}
