/**
 The server's session, tree and handle state machine: each request, and each round of idle expiry, is
 one step over the sessions and the shares. Shares are named by their keys and are never removed.
 */
module Server {
  import opened HandleMap
  import opened ShareFiles

  datatype Tree = Tree(share: string, readOnly: bool)

  datatype Session = Session(valid: bool, trees: map<nat, Tree>, nextTree: nat, lastActivity: int)

  /** A share with its fixed read-only option. */
  datatype Served = Served(readOnly: bool, share: Share)

  datatype State = State(sessions: map<nat, Session>, shares: map<string, Served>)

  /** What the authenticator says. */
  datatype Auth = Rejected | Challenged | Accepted

  datatype Request =
    | SessionSetup(header: nat, previous: nat, newId: nat, auth: Auth, now: int)
    | TreeConnect(session: nat, share: string, allowed: bool)
    | TreeDisconnect(session: nat, tree: nat)
    | FileCommand(session: nat, tree: nat, command: Command)
    | Logoff(session: nat, order: seq<nat>)
    | Expire(cutoff: int, order: seq<nat>)

  // ---- Steps ----

  predicate Live(sv: State, session: nat) {
    session in sv.sessions && sv.sessions[session].valid
  }

  predicate LiveTree(sv: State, session: nat, tree: nat) {
    Live(sv, session) && tree in sv.sessions[session].trees
  }

  function WithTable(s: Served, t: Table): Served {
    s.(share := s.share.(table := t))
  }

  /** The session that SESSION_SETUP continues, or 0 for none; session 0 does not exist. */
  function Continued(sv: State, header: nat, previous: nat): nat {
    if previous != 0 && previous in sv.sessions then previous
    else if header != 0 && header in sv.sessions then header
    else 0
  }

  function SetupStep(sv: State, header: nat, previous: nat, newId: nat, auth: Auth, now: int): (State, Reply) {
    var old_ := Continued(sv, header, previous);
    var id := if old_ != 0 then old_ else newId;
    var sessions := if old_ != 0 then sv.sessions else sv.sessions[newId := Session(false, map[], 1, now)];
    match auth
    case Rejected => (if old_ != 0 then sv else sv.(sessions := sessions - {newId}), Failure(LOGON_FAILURE))
    case Challenged => (sv.(sessions := sessions), Failure(MORE_PROCESSING_REQUIRED))
    case Accepted =>
      (sv.(sessions := sessions[id := sessions[id].(valid := true, lastActivity := now)]), OK_REPLY)
  }

  function ConnectStep(sv: State, session: nat, share: string, allowed: bool): (State, Reply) {
    if !Live(sv, session) then (sv, Failure(USER_SESSION_DELETED))
    else if share == "" || share !in sv.shares then (sv, Failure(BAD_NETWORK_NAME))
    else if !allowed then (sv, Failure(ACCESS_DENIED))
    else
      var s := sv.sessions[session];
      var trees := s.trees[s.nextTree := Tree(share, sv.shares[share].readOnly)];
      (sv.(sessions := sv.sessions[session := s.(trees := trees, nextTree := (s.nextTree + 1) % 0x1_0000_0000)]), OK_REPLY)
  }

  /** Releases what was opened through one tree of a session. */
  function DropTree(shares: map<string, Served>, session: nat, tree: nat, name: string): map<string, Served> {
    if name in shares
    then shares[name := WithTable(shares[name], Dropped(shares[name].share.table, ByTree(tree, session)))]
    else shares
  }

  function DisconnectStep(sv: State, session: nat, tree: nat): (State, Reply) {
    if !Live(sv, session) then (sv, Failure(USER_SESSION_DELETED))
    else if !LiveTree(sv, session, tree) then (sv, Failure(NETWORK_NAME_DELETED))
    else
      var s := sv.sessions[session];
      (State(sv.sessions[session := s.(trees := s.trees - {tree})], DropTree(sv.shares, session, tree, s.trees[tree].share)),
       OK_REPLY)
  }

  function CommandStep(sv: State, session: nat, tree: nat, m: Command): (State, Reply) {
    if !Live(sv, session) then (sv, Failure(USER_SESSION_DELETED))
    else if !LiveTree(sv, session, tree) then (sv, Failure(NETWORK_NAME_DELETED))
    else
      var t := sv.sessions[session].trees[tree];
      if t.share !in sv.shares then (sv, Failure(BAD_NETWORK_NAME))
      else
        var served := sv.shares[t.share];
        var (share, reply) := Apply(served.share, Caller(tree, session, t.readOnly), m);
        (sv.(shares := sv.shares[t.share := served.(share := share)]), reply)
  }

  function DropTrees(shares: map<string, Served>, session: nat, trees: map<nat, Tree>, order: seq<nat>): map<string, Served>
    decreases |order|
  {
    if order == [] then shares
    else
      var shares' := if order[0] in trees then DropTree(shares, session, order[0], trees[order[0]].share) else shares;
      DropTrees(shares', session, trees, order[1..])
  }

  /** LOGOFF goes through the trees in the order of a map iteration. */
  function LogoffStep(sv: State, session: nat, order: seq<nat>): (State, Reply) {
    if !Live(sv, session) then (sv, Failure(USER_SESSION_DELETED))
    else (State(sv.sessions - {session}, DropTrees(sv.shares, session, sv.sessions[session].trees, order)), OK_REPLY)
  }

  predicate IsExpired(s: Session, cutoff: int) {
    s.lastActivity < cutoff
  }

  function DropSession(shares: map<string, Served>, session: nat): map<string, Served> {
    map n | n in shares :: WithTable(shares[n], Dropped(shares[n].share.table, BySession(session)))
  }

  function DropSessions(shares: map<string, Served>, order: seq<nat>): map<string, Served>
    decreases |order|
  {
    if order == [] then shares else DropSessions(DropSession(shares, order[0]), order[1..])
  }

  /** The expired sessions go first, and then, one by one, their handles in every share. */
  function ExpireStep(sv: State, cutoff: int, order: seq<nat>): State {
    State(map id | id in sv.sessions && !IsExpired(sv.sessions[id], cutoff) :: sv.sessions[id],
          DropSessions(sv.shares, order))
  }

  function Step(sv: State, q: Request): (State, Reply) {
    match q
    case SessionSetup(header, previous, newId, auth, now) => SetupStep(sv, header, previous, newId, auth, now)
    case TreeConnect(session, share, allowed) => ConnectStep(sv, session, share, allowed)
    case TreeDisconnect(session, tree) => DisconnectStep(sv, session, tree)
    case FileCommand(session, tree, m) => CommandStep(sv, session, tree, m)
    case Logoff(session, order) => LogoffStep(sv, session, order)
    case Expire(cutoff, order) => (ExpireStep(sv, cutoff, order), OK_REPLY)
  }

  // ---- Runs ----

  /**
   What a run may contain: a new session gets an ID that no session has, and the loops of LOGOFF and
   expiry go through exactly what they range over.
   */
  ghost predicate Offered(sv: State, q: Request) {
    match q
    case SessionSetup(header, previous, newId, _, _) =>
      Continued(sv, header, previous) == 0 ==> newId != 0 && newId !in sv.sessions
    case Logoff(session, order) =>
      Live(sv, session) ==> forall t :: t in order <==> t in sv.sessions[session].trees
    case Expire(cutoff, order) =>
      forall id :: id in order <==> id in sv.sessions && IsExpired(sv.sessions[id], cutoff)
    case _ => true
  }

  /** The 32-bit counter of tree IDs has not come round to a tree that is still connected. */
  predicate TreeIdFree(sv: State, q: Request) {
    q.TreeConnect? && Live(sv, q.session) ==> sv.sessions[q.session].nextTree !in sv.sessions[q.session].trees
  }

  ghost predicate Admissible(sv: State, q: Request) {
    Offered(sv, q) && TreeIdFree(sv, q)
  }

  function Run(sv: State, qs: seq<Request>): State
    decreases |qs|
  {
    if qs == [] then sv else Run(Step(sv, qs[0]).0, qs[1..])
  }

  ghost predicate AllAdmissible(sv: State, qs: seq<Request>)
    decreases |qs|
  {
    qs != [] ==> Admissible(sv, qs[0]) && AllAdmissible(Step(sv, qs[0]).0, qs[1..])
  }

  /** No session yet, and nothing open. */
  ghost predicate Start(sv: State) {
    sv.sessions == map[] && forall n :: n in sv.shares ==> sv.shares[n].share.table == EMPTY_TABLE
  }

  // ---- No orphan handles ----

  /** The handle's session is live and authenticated, and its tree is a live tree of that session, on this very share. */
  predicate Rooted(sessions: map<nat, Session>, name: string, o: OpenFile) {
    && o.session in sessions && sessions[o.session].valid
    && o.tree in sessions[o.session].trees
    && sessions[o.session].trees[o.tree].share == name
  }

  ghost predicate AllRooted(sessions: map<nat, Session>, name: string, t: Table) {
    forall id :: id in t.handles ==> Rooted(sessions, name, t.handles[id])
  }

  ghost predicate TableOk(t: Table) {
    Indexed(t) && SharingSafe(t)
  }

  ghost predicate NoOrphans(sv: State) {
    forall n :: n in sv.shares ==> AllRooted(sv.sessions, n, sv.shares[n].share.table)
  }

  /** Every tree leads to a share, whose read-only option it carries. */
  ghost predicate TreesOk(sessions: map<nat, Session>, shares: map<string, Served>) {
    forall s, t :: s in sessions && t in sessions[s].trees ==>
      var tree := sessions[s].trees[t];
      tree.share in shares && tree.readOnly == shares[tree.share].readOnly
  }

  ghost predicate Invariant(sv: State) {
    && NoOrphans(sv)
    && TreesOk(sv.sessions, sv.shares)
    && (forall n :: n in sv.shares ==> TableOk(sv.shares[n].share.table))
    && 0 !in sv.sessions
  }

  /** Sessions change, but no tree is lost. */
  ghost predicate KeepsTrees(before: map<nat, Session>, after: map<nat, Session>) {
    forall s, t :: s in before && t in before[s].trees ==>
      && s in after && (before[s].valid ==> after[s].valid)
      && t in after[s].trees && after[s].trees[t] == before[s].trees[t]
  }

  lemma SetupKeeps(sv: State, header: nat, previous: nat, newId: nat, auth: Auth, now: int)
    requires Invariant(sv) && (Continued(sv, header, previous) == 0 ==> newId != 0 && newId !in sv.sessions)
    ensures Invariant(SetupStep(sv, header, previous, newId, auth, now).0)
  {
    hide TableOk, NoOrphans;
    var sv' := SetupStep(sv, header, previous, newId, auth, now).0;
    MoreTreesRooted(sv, sv'.sessions);
  }

  /** More sessions and trees keep every handle rooted. */
  lemma MoreTreesRooted(sv: State, sessions: map<nat, Session>)
    requires NoOrphans(sv) && KeepsTrees(sv.sessions, sessions)
    ensures NoOrphans(sv.(sessions := sessions))
  {
    forall n | n in sv.shares
      ensures AllRooted(sessions, n, sv.shares[n].share.table)
    {
      assert AllRooted(sv.sessions, n, sv.shares[n].share.table);
    }
  }

  lemma ConnectKeeps(sv: State, session: nat, share: string, allowed: bool)
    requires Invariant(sv)
    requires Live(sv, session) ==> sv.sessions[session].nextTree !in sv.sessions[session].trees
    ensures Invariant(ConnectStep(sv, session, share, allowed).0)
  {
    hide TableOk, NoOrphans;
    var sv' := ConnectStep(sv, session, share, allowed).0;
    MoreTreesRooted(sv, sv'.sessions);
  }

  /** The handles of `after` are handles of `before`. */
  ghost predicate Fewer(before: map<string, Served>, after: map<string, Served>) {
    && after.Keys == before.Keys
    && forall n :: n in before ==> LikeBefore(before[n], after[n])
  }

  ghost predicate LikeBefore(s: Served, s': Served) {
    && s'.readOnly == s.readOnly && s'.share.files == s.share.files
    && (TableOk(s.share.table) ==> TableOk(s'.share.table))
    && forall id :: id in s'.share.table.handles ==>
         id in s.share.table.handles && s'.share.table.handles[id] == s.share.table.handles[id]
  }

  lemma DroppedOk(t: Table, f: Filter)
    requires TableOk(t)
    ensures TableOk(Dropped(t, f))
  {
    StepSafe(t, ReleaseMany(f));
  }

  lemma DropTreeFewer(shares: map<string, Served>, session: nat, tree: nat, name: string)
    ensures var shares' := DropTree(shares, session, tree, name);
            Fewer(shares, shares') &&
            (name in shares ==>
               forall id :: id in shares'[name].share.table.handles ==>
                 !BelongsTo(shares'[name].share.table.handles[id], tree, session))
  {
    hide TableOk;
    if name in shares && TableOk(shares[name].share.table) {
      DroppedOk(shares[name].share.table, ByTree(tree, session));
    }
  }

  lemma DisconnectKeeps(sv: State, session: nat, tree: nat)
    requires Invariant(sv)
    ensures Invariant(DisconnectStep(sv, session, tree).0)
  {
    hide TableOk, DropTree;
    if LiveTree(sv, session, tree) {
      var name := sv.sessions[session].trees[tree].share;
      var sv' := DisconnectStep(sv, session, tree).0;
      DropTreeFewer(sv.shares, session, tree, name);
      forall n, id | n in sv'.shares && id in sv'.shares[n].share.table.handles
        ensures Rooted(sv'.sessions, n, sv'.shares[n].share.table.handles[id])
      {
        assert LikeBefore(sv.shares[n], sv'.shares[n]);
        assert Rooted(sv.sessions, n, sv.shares[n].share.table.handles[id]);
      }
      forall n | n in sv'.shares
        ensures TableOk(sv'.shares[n].share.table)
      {
        assert LikeBefore(sv.shares[n], sv'.shares[n]);
      }
      SharesKeepTrees(sv'.sessions, sv.shares, sv'.shares);
    }
  }

  lemma SharesKeepTrees(sessions: map<nat, Session>, shares: map<string, Served>, shares': map<string, Served>)
    requires TreesOk(sessions, shares) && Fewer(shares, shares')
    ensures TreesOk(sessions, shares')
  {
    hide TableOk;
    assert forall n :: n in shares ==> n in shares' && LikeBefore(shares[n], shares'[n]);
  }

  lemma FewerTrans(a: map<string, Served>, b: map<string, Served>, c: map<string, Served>)
    requires Fewer(a, b) && Fewer(b, c)
    ensures Fewer(a, c)
  {
    hide TableOk;
    forall n | n in a
      ensures LikeBefore(a[n], c[n])
    {
      assert LikeBefore(a[n], b[n]) && LikeBefore(b[n], c[n]);
    }
  }

  /** After the loop of LOGOFF no handle is left that was opened through one of the trees, on the tree's share. */
  lemma {:induction false} DropTreesFewer(shares: map<string, Served>, session: nat, trees: map<nat, Tree>, order: seq<nat>)
    ensures var shares' := DropTrees(shares, session, trees, order);
            && Fewer(shares, shares')
            && (forall n, id :: n in shares' && id in shares'[n].share.table.handles ==>
                  var o := shares'[n].share.table.handles[id];
                  !(o.session == session && o.tree in order && o.tree in trees && trees[o.tree].share == n))
    decreases |order|
  {
    hide TableOk, DropTree;
    if order != [] {
      var t := order[0];
      var shares1 := if t in trees then DropTree(shares, session, t, trees[t].share) else shares;
      if t in trees {
        DropTreeFewer(shares, session, t, trees[t].share);
      }
      DropTreesFewer(shares1, session, trees, order[1..]);
      var shares' := DropTrees(shares1, session, trees, order[1..]);
      FewerTrans(shares, shares1, shares');
      forall n, id | n in shares' && id in shares'[n].share.table.handles
        ensures var o := shares'[n].share.table.handles[id];
                !(o.session == session && o.tree in order && o.tree in trees && trees[o.tree].share == n)
      {
        assert LikeBefore(shares1[n], shares'[n]);
        assert order == [t] + order[1..];
      }
    }
  }

  lemma LogoffKeeps(sv: State, session: nat, order: seq<nat>)
    requires Invariant(sv) && Admissible(sv, Logoff(session, order))
    ensures Invariant(LogoffStep(sv, session, order).0)
  {
    hide TableOk, DropTrees;
    if Live(sv, session) {
      var sv' := LogoffStep(sv, session, order).0;
      DropTreesFewer(sv.shares, session, sv.sessions[session].trees, order);
      forall n, id | n in sv'.shares && id in sv'.shares[n].share.table.handles
        ensures Rooted(sv'.sessions, n, sv'.shares[n].share.table.handles[id])
      {
        assert LikeBefore(sv.shares[n], sv'.shares[n]);
        assert Rooted(sv.sessions, n, sv.shares[n].share.table.handles[id]);
      }
      forall n | n in sv'.shares
        ensures TableOk(sv'.shares[n].share.table)
      {
        assert LikeBefore(sv.shares[n], sv'.shares[n]);
      }
      SharesKeepTrees(sv'.sessions, sv.shares, sv'.shares);
    }
  }

  lemma DropSessionFewer(shares: map<string, Served>, session: nat)
    ensures var shares' := DropSession(shares, session);
            Fewer(shares, shares') &&
            forall n, id :: n in shares' && id in shares'[n].share.table.handles ==>
              shares'[n].share.table.handles[id].session != session
  {
    hide TableOk;
    var shares' := DropSession(shares, session);
    forall n | n in shares
      ensures LikeBefore(shares[n], shares'[n])
    {
      if TableOk(shares[n].share.table) {
        DroppedOk(shares[n].share.table, BySession(session));
      }
    }
  }

  lemma {:induction false} DropSessionsFewer(shares: map<string, Served>, order: seq<nat>)
    ensures var shares' := DropSessions(shares, order);
            && Fewer(shares, shares')
            && (forall n, id :: n in shares' && id in shares'[n].share.table.handles ==>
                  shares'[n].share.table.handles[id].session !in order)
    decreases |order|
  {
    hide TableOk, DropSession;
    if order != [] {
      var shares1 := DropSession(shares, order[0]);
      DropSessionFewer(shares, order[0]);
      DropSessionsFewer(shares1, order[1..]);
      var shares' := DropSessions(shares1, order[1..]);
      FewerTrans(shares, shares1, shares');
      forall n, id | n in shares' && id in shares'[n].share.table.handles
        ensures shares'[n].share.table.handles[id].session !in order
      {
        assert LikeBefore(shares1[n], shares'[n]);
        assert order == [order[0]] + order[1..];
      }
    }
  }

  lemma ExpireKeeps(sv: State, cutoff: int, order: seq<nat>)
    requires Invariant(sv) && Admissible(sv, Expire(cutoff, order))
    ensures Invariant(ExpireStep(sv, cutoff, order))
  {
    hide TableOk, DropSessions;
    var sv' := ExpireStep(sv, cutoff, order);
    DropSessionsFewer(sv.shares, order);
    forall n, id | n in sv'.shares && id in sv'.shares[n].share.table.handles
      ensures Rooted(sv'.sessions, n, sv'.shares[n].share.table.handles[id])
    {
      assert LikeBefore(sv.shares[n], sv'.shares[n]);
      assert Rooted(sv.sessions, n, sv.shares[n].share.table.handles[id]);
    }
    forall n | n in sv'.shares
      ensures TableOk(sv'.shares[n].share.table)
    {
      assert LikeBefore(sv.shares[n], sv'.shares[n]);
    }
    SharesKeepTrees(sv'.sessions, sv.shares, sv'.shares);
  }

  lemma CommandKeeps(sv: State, session: nat, tree: nat, m: Command)
    requires Invariant(sv)
    ensures Invariant(CommandStep(sv, session, tree, m).0)
  {
    hide Apply, Indexed, SharingSafe;
    if LiveTree(sv, session, tree) {
      var t := sv.sessions[session].trees[tree];
      var served := sv.shares[t.share];
      var c := Caller(tree, session, t.readOnly);
      assert TableOk(served.share.table);
      ApplyKeeps(served.share, c, m);
      var sv' := CommandStep(sv, session, tree, m).0;
      forall n | n in sv'.shares
        ensures AllRooted(sv'.sessions, n, sv'.shares[n].share.table)
      {
        assert AllRooted(sv.sessions, n, sv.shares[n].share.table);
      }
    }
  }

  lemma StepKeeps(sv: State, q: Request)
    requires Invariant(sv) && Admissible(sv, q)
    ensures Invariant(Step(sv, q).0)
  {
    hide Invariant, SetupStep, ConnectStep, DisconnectStep, CommandStep, LogoffStep, ExpireStep;
    match q
    case SessionSetup(header, previous, newId, auth, now) => SetupKeeps(sv, header, previous, newId, auth, now);
    case TreeConnect(session, share, allowed) => ConnectKeeps(sv, session, share, allowed);
    case TreeDisconnect(session, tree) => DisconnectKeeps(sv, session, tree);
    case FileCommand(session, tree, m) => CommandKeeps(sv, session, tree, m);
    case Logoff(session, order) => LogoffKeeps(sv, session, order);
    case Expire(cutoff, order) => ExpireKeeps(sv, cutoff, order);
  }

  lemma {:induction false} RunKeeps(sv: State, qs: seq<Request>)
    requires Invariant(sv) && AllAdmissible(sv, qs)
    ensures Invariant(Run(sv, qs))
    decreases |qs|
  {
    if qs != [] {
      StepKeeps(sv, qs[0]);
      RunKeeps(Step(sv, qs[0]).0, qs[1..]);
    }
  }

  lemma StartHolds(sv: State)
    requires Start(sv)
    ensures Invariant(sv)
  {
  }

  /** After any run every handle in a share's table names a live session and a live tree of it on that share. */
  lemma NoOrphanHandles(sv: State, qs: seq<Request>)
    requires Start(sv) && AllAdmissible(sv, qs)
    ensures NoOrphans(Run(sv, qs))
    ensures forall n :: n in Run(sv, qs).shares ==> SharingSafe(Run(sv, qs).shares[n].share.table)
  {
    StartHolds(sv);
    RunKeeps(sv, qs);
    var sv' := Run(sv, qs);
    assert forall n :: n in sv'.shares ==> TableOk(sv'.shares[n].share.table);
  }

  /** A session that has logged off has nothing open anywhere. */
  lemma LogoffClosesAll(sv: State, session: nat, order: seq<nat>, n: string, id: FileId)
    requires Invariant(sv) && Admissible(sv, Logoff(session, order)) && Live(sv, session)
    requires var shares := LogoffStep(sv, session, order).0.shares; n in shares && id in shares[n].share.table.handles
    ensures LogoffStep(sv, session, order).0.shares[n].share.table.handles[id].session != session
  {
    LogoffKeeps(sv, session, order);
    var sv' := LogoffStep(sv, session, order).0;
    assert AllRooted(sv'.sessions, n, sv'.shares[n].share.table);
  }

  // ---- Tree IDs that come round ----

  /** Is anything open through this tree? */
  ghost predicate Used(sv: State, session: nat, tree: nat, name: string) {
    name in sv.shares &&
    exists id :: id in sv.shares[name].share.table.handles && BelongsTo(sv.shares[name].share.table.handles[id], tree, session)
  }

  /** A new tree orphans handles exactly when it takes the ID of a tree on another share with something open. */
  lemma ConnectKeepsIff(sv: State, session: nat, share: string)
    requires Invariant(sv) && ConnectStep(sv, session, share, true).1 == OK_REPLY
    ensures var s := sv.sessions[session];
            NoOrphans(ConnectStep(sv, session, share, true).0) <==>
              !(s.nextTree in s.trees && s.trees[s.nextTree].share != share
                && Used(sv, session, s.nextTree, s.trees[s.nextTree].share))
  {
    hide TableOk;
    var s := sv.sessions[session];
    var sv' := ConnectStep(sv, session, share, true).0;
    if s.nextTree in s.trees && s.trees[s.nextTree].share != share && Used(sv, session, s.nextTree, s.trees[s.nextTree].share) {
      var name := s.trees[s.nextTree].share;
      var id :| id in sv.shares[name].share.table.handles && BelongsTo(sv.shares[name].share.table.handles[id], s.nextTree, session);
      assert !Rooted(sv'.sessions, name, sv'.shares[name].share.table.handles[id]);
      assert !AllRooted(sv'.sessions, name, sv'.shares[name].share.table);
    } else {
      forall n, id | n in sv'.shares && id in sv'.shares[n].share.table.handles
        ensures Rooted(sv'.sessions, n, sv'.shares[n].share.table.handles[id])
      {
        assert AllRooted(sv.sessions, n, sv.shares[n].share.table);
      }
    }
  }

  /** After `k` steps no session has used more than `k` tree IDs. */
  ghost predicate Numbered(sv: State, k: nat) {
    forall s :: s in sv.sessions ==> NumberedSession(sv.sessions[s], k)
  }

  ghost predicate NumberedSession(s: Session, k: nat) {
    s.nextTree <= k + 1 && forall t :: t in s.trees ==> t < s.nextTree
  }

  lemma NumberedStep(sv: State, q: Request, k: nat)
    requires Numbered(sv, k) && k + 2 < 0x1_0000_0000
    ensures Numbered(Step(sv, q).0, k + 1) && TreeIdFree(sv, q)
  {
    hide DropTree, DropTrees, DropSessions, Apply;
    var sv' := Step(sv, q).0;
    forall s | s in sv'.sessions
      ensures NumberedSession(sv'.sessions[s], k + 1)
    {
      assert s in sv.sessions ==> NumberedSession(sv.sessions[s], k);
    }
  }

  ghost predicate AllOffered(sv: State, qs: seq<Request>)
    decreases |qs|
  {
    qs != [] ==> Offered(sv, qs[0]) && AllOffered(Step(sv, qs[0]).0, qs[1..])
  }

  lemma {:induction false} ShortRun(sv: State, qs: seq<Request>, k: nat)
    requires Numbered(sv, k) && k + |qs| + 1 < 0x1_0000_0000 && AllOffered(sv, qs)
    ensures AllAdmissible(sv, qs)
    decreases |qs|
  {
    if qs != [] {
      hide Step, Offered, TreeIdFree;
      NumberedStep(sv, qs[0], k);
      ShortRun(Step(sv, qs[0]).0, qs[1..], k + 1);
    }
  }

  /** In a run shorter than the range of the tree IDs, fresh session IDs are all that is needed. */
  lemma NoOrphansInShortRuns(sv: State, qs: seq<Request>)
    requires Start(sv) && AllOffered(sv, qs) && |qs| < 0xFFFF_FFFF
    ensures NoOrphans(Run(sv, qs))
  {
    ShortRun(sv, qs, 0);
    NoOrphanHandles(sv, qs);
  }

  // ---- Read-only shares ----

  predicate Reaches(sv: State, q: Request, n: string) {
    q.FileCommand? && LiveTree(sv, q.session, q.tree) && sv.sessions[q.session].trees[q.tree].share == n
  }

  predicate DeletesFrom(sv: State, q: Request, n: string) {
    && Reaches(sv, q, n) && n in sv.shares
    && DeletesOnClose(sv.shares[n].share, Caller(q.tree, q.session, sv.sessions[q.session].trees[q.tree].readOnly), q.command)
  }

  /** Steps other than file commands leave all files alone, and add no handle. */
  lemma OtherStepsFewer(sv: State, q: Request)
    requires !q.FileCommand?
    ensures Fewer(sv.shares, Step(sv, q).0.shares)
  {
    hide TableOk, DropTree, DropTrees, DropSessions;
    match q
    case TreeDisconnect(session, tree) =>
      if LiveTree(sv, session, tree) {
        DropTreeFewer(sv.shares, session, tree, sv.sessions[session].trees[tree].share);
      }
    case Logoff(session, order) =>
      if Live(sv, session) {
        DropTreesFewer(sv.shares, session, sv.sessions[session].trees, order);
      }
    case Expire(_, order) => DropSessionsFewer(sv.shares, order);
    case _ =>
  }

  /** The files of a read-only share change in a step exactly when it closes a delete-on-close handle on it. */
  lemma ReadOnlyStepIff(sv: State, q: Request, n: string)
    requires Invariant(sv) && n in sv.shares && sv.shares[n].readOnly
    ensures var shares := Step(sv, q).0.shares;
            n in shares && (shares[n].share.files != sv.shares[n].share.files <==> DeletesFrom(sv, q, n))
  {
    hide TableOk, DropTree, DropTrees, DropSessions, Apply, DeletesOnClose;
    if !q.FileCommand? {
      OtherStepsFewer(sv, q);
      assert LikeBefore(sv.shares[n], Step(sv, q).0.shares[n]);
    } else if Reaches(sv, q, n) {
      ReadOnlyChangesIff(sv.shares[n].share, Caller(q.tree, q.session, true), q.command);
    }
  }

  lemma ReadOnlyStep(sv: State, q: Request, n: string)
    requires Invariant(sv) && n in sv.shares && sv.shares[n].readOnly && NoDeletes(sv.shares[n].share.table)
    requires !(q.FileCommand? && AsksToDelete(q.command))
    ensures var shares := Step(sv, q).0.shares;
            && n in shares && shares[n].readOnly && shares[n].share.files == sv.shares[n].share.files
            && NoDeletes(shares[n].share.table)
  {
    hide TableOk, DropTree, DropTrees, DropSessions, Apply, AsksToDelete;
    if !q.FileCommand? {
      OtherStepsFewer(sv, q);
      assert LikeBefore(sv.shares[n], Step(sv, q).0.shares[n]);
    } else if Reaches(sv, q, n) {
      ReadOnlyStays(sv.shares[n].share, Caller(q.tree, q.session, true), q.command);
    }
  }

  lemma {:induction false} ReadOnlyRun(sv: State, qs: seq<Request>, n: string)
    requires Invariant(sv) && AllAdmissible(sv, qs)
    requires n in sv.shares && sv.shares[n].readOnly && NoDeletes(sv.shares[n].share.table)
    requires forall i :: 0 <= i < |qs| ==> !(qs[i].FileCommand? && AsksToDelete(qs[i].command))
    ensures var shares := Run(sv, qs).shares; n in shares && shares[n].share.files == sv.shares[n].share.files
    decreases |qs|
  {
    if qs != [] {
      hide Invariant, Step, AsksToDelete;
      StepKeeps(sv, qs[0]);
      ReadOnlyStep(sv, qs[0], n);
      ReadOnlyRun(Step(sv, qs[0]).0, qs[1..], n);
    }
  }

  /** Over any run in which no CREATE asks for deletion on close, a read-only share's files stay as they are. */
  lemma ReadOnlyFilesNeverChange(sv: State, qs: seq<Request>, n: string)
    requires Start(sv) && AllAdmissible(sv, qs) && n in sv.shares && sv.shares[n].readOnly
    requires forall i :: 0 <= i < |qs| ==> !(qs[i].FileCommand? && AsksToDelete(qs[i].command))
    ensures var shares := Run(sv, qs).shares; n in shares && shares[n].share.files == sv.shares[n].share.files
  {
    StartHolds(sv);
    ReadOnlyRun(sv, qs, n);
  }

  // ---- Expiry ----

  predicate SetsUp(q: Request) {
    q.SessionSetup?
  }

  /** Only SESSION_SETUP refreshes a session, however busy it is. */
  lemma {:induction false} ActivityIsSetupTime(sv: State, qs: seq<Request>, session: nat)
    requires session in sv.sessions && session in Run(sv, qs).sessions
    requires forall i :: 0 <= i < |qs| ==> !SetsUp(qs[i])
    ensures Run(sv, qs).sessions[session].lastActivity == sv.sessions[session].lastActivity
    decreases |qs|
  {
    if qs != [] {
      hide DropTree, DropTrees, DropSessions, Apply;
      assert !SetsUp(qs[0]);
      var sv' := Step(sv, qs[0]).0;
      if session in sv'.sessions {
        ActivityIsSetupTime(sv', qs[1..], session);
      } else {
        StaysGone(sv', qs[1..], session);
      }
    }
  }

  lemma {:induction false} StaysGone(sv: State, qs: seq<Request>, session: nat)
    requires session !in sv.sessions && forall i :: 0 <= i < |qs| ==> !SetsUp(qs[i])
    ensures session !in Run(sv, qs).sessions
    decreases |qs|
  {
    if qs != [] {
      hide DropTree, DropTrees, DropSessions, Apply;
      assert !SetsUp(qs[0]);
      StaysGone(Step(sv, qs[0]).0, qs[1..], session);
    }
  }

  /** So a session that is set up once is expired by the clock alone: it survives exactly while its set-up is recent. */
  lemma BusySessionExpiresIff(sv: State, qs: seq<Request>, session: nat, cutoff: int, order: seq<nat>)
    requires session in sv.sessions && session in Run(sv, qs).sessions
    requires forall i :: 0 <= i < |qs| ==> !SetsUp(qs[i])
    ensures session in ExpireStep(Run(sv, qs), cutoff, order).sessions <==> cutoff <= sv.sessions[session].lastActivity
  {
    ActivityIsSetupTime(sv, qs, session);
  }

  // ---- The server object ----

  class SmbServer {
    var sessions: map<nat, Session>
    var shares: map<string, Served>

    ghost function Value(): State
      reads this
    {
      State(sessions, shares)
    }

    constructor (shares: map<string, Served>)
      ensures Value() == State(map[], shares)
    {
      this.sessions, this.shares := map[], shares;
    }

    method SetUpSession(header: nat, previous: nat, newId: nat, auth: Auth, now: int) returns (reply: Reply)
      requires 0 !in sessions && newId != 0
      modifies this
      ensures 0 !in sessions
      ensures (Value(), reply) == SetupStep(old(Value()), header, previous, newId, auth, now)
    {
      var id, isNew := 0, false;
      if previous != 0 && previous in sessions {
        id := previous;
      }
      if id == 0 && header != 0 && header in sessions {
        id := header;
      }
      if id == 0 {
        id, isNew := newId, true;
        sessions := sessions[id := Session(false, map[], 1, now)];
      }
      match auth {
        case Rejected =>
          if isNew {
            sessions := sessions - {id};
          }
          return Failure(LOGON_FAILURE);
        case Challenged =>
          return Failure(MORE_PROCESSING_REQUIRED);
        case Accepted =>
          sessions := sessions[id := sessions[id].(valid := true, lastActivity := now)];
          return OK_REPLY;
      }
    }

    method ConnectTree(session: nat, share: string, allowed: bool) returns (reply: Reply)
      modifies this
      ensures (Value(), reply) == ConnectStep(old(Value()), session, share, allowed)
    {
      if session !in sessions || !sessions[session].valid {
        return Failure(USER_SESSION_DELETED);
      }
      if share == "" || share !in shares {
        return Failure(BAD_NETWORK_NAME);
      }
      if !allowed {
        return Failure(ACCESS_DENIED);
      }
      var s := sessions[session];
      var tree := s.nextTree;
      s := s.(nextTree := (tree + 1) % 0x1_0000_0000);
      s := s.(trees := s.trees[tree := Tree(share, shares[share].readOnly)]);
      sessions := sessions[session := s];
      return OK_REPLY;
    }

    method DisconnectTree(session: nat, tree: nat) returns (reply: Reply)
      modifies this
      ensures (Value(), reply) == DisconnectStep(old(Value()), session, tree)
    {
      if session !in sessions || !sessions[session].valid {
        return Failure(USER_SESSION_DELETED);
      }
      var s := sessions[session];
      if tree !in s.trees {
        return Failure(NETWORK_NAME_DELETED);
      }
      shares := DropTree(shares, session, tree, s.trees[tree].share);
      sessions := sessions[session := s.(trees := s.trees - {tree})];
      return OK_REPLY;
    }

    /** Reports the order in which the loop met the trees. */
    method LogOff(session: nat) returns (reply: Reply, order: seq<nat>)
      modifies this
      ensures (Value(), reply) == LogoffStep(old(Value()), session, order)
      ensures Offered(old(Value()), Logoff(session, order))
    {
      order := [];
      if session !in sessions || !sessions[session].valid {
        return Failure(USER_SESSION_DELETED), order;
      }
      var trees := sessions[session].trees;
      var todo := trees.Keys;
      while todo != {}
        invariant sessions == old(sessions) && shares == DropTrees(old(shares), session, trees, order)
        invariant todo <= trees.Keys && forall t :: t in order <==> t in trees.Keys - todo
        decreases todo
      {
        var t :| t in todo;
        shares := DropTree(shares, session, t, trees[t].share);
        DropTreesSnoc(old(shares), session, trees, order, t);
        todo, order := todo - {t}, order + [t];
      }
      sessions := sessions - {session};
      return OK_REPLY, order;
    }

    /** Removes the idle sessions, then releases their handles share by share. */
    method CleanupExpired(cutoff: int) returns (order: seq<nat>)
      modifies this
      ensures Value() == ExpireStep(old(Value()), cutoff, order)
      ensures Offered(old(Value()), Expire(cutoff, order))
    {
      order := RemoveExpired(cutoff);
      for i := 0 to |order|
        invariant sessions == ExpireStep(old(Value()), cutoff, order).sessions
        invariant shares == DropSessions(old(shares), order[..i])
      {
        ReleaseEverywhere(order[i]);
        DropSessionsSnoc(old(shares), order[..i], order[i]);
        assert order[..i + 1] == order[..i] + [order[i]];
      }
      assert order[..|order|] == order;
    }

    method RemoveExpired(cutoff: int) returns (expired: seq<nat>)
      modifies this
      ensures shares == old(shares)
      ensures sessions == map id | id in old(sessions) && !IsExpired(old(sessions)[id], cutoff) :: old(sessions)[id]
      ensures forall id :: id in expired <==> id in old(sessions) && IsExpired(old(sessions)[id], cutoff)
    {
      expired := [];
      var todo := sessions.Keys;
      while todo != {}
        invariant shares == old(shares) && todo <= old(sessions).Keys
        invariant forall id :: id in expired <==> id in old(sessions).Keys - todo && IsExpired(old(sessions)[id], cutoff)
        invariant sessions == map id | id in old(sessions) && id !in expired :: old(sessions)[id]
        decreases todo
      {
        var id :| id in todo;
        todo := todo - {id};
        if sessions[id].lastActivity < cutoff {
          expired := expired + [id];
          sessions := sessions - {id};
        }
      }
    }

    method ReleaseEverywhere(session: nat)
      modifies this
      ensures sessions == old(sessions) && shares == DropSession(old(shares), session)
    {
      var todo := shares.Keys;
      while todo != {}
        invariant sessions == old(sessions) && todo <= old(shares).Keys && shares.Keys == old(shares).Keys
        invariant forall n :: n in shares ==>
          shares[n] == if n in todo then old(shares)[n] else DropSession(old(shares), session)[n]
        decreases todo
      {
        var n :| n in todo;
        shares := shares[n := WithTable(shares[n], Dropped(shares[n].share.table, BySession(session)))];
        todo := todo - {n};
      }
    }
  }

  lemma {:induction false} DropTreesSnoc(shares: map<string, Served>, session: nat, trees: map<nat, Tree>, order: seq<nat>, t: nat)
    requires t in trees
    ensures DropTrees(shares, session, trees, order + [t])
         == DropTree(DropTrees(shares, session, trees, order), session, t, trees[t].share)
    decreases |order|
  {
    hide DropTree;
    if order == [] {
      assert order + [t] == [t] && [t][1..] == [];
    } else {
      var shares' := if order[0] in trees then DropTree(shares, session, order[0], trees[order[0]].share) else shares;
      DropTreesSnoc(shares', session, trees, order[1..], t);
      assert (order + [t])[1..] == order[1..] + [t];
    }
  }

  lemma {:induction false} DropSessionsSnoc(shares: map<string, Served>, order: seq<nat>, session: nat)
    ensures DropSessions(shares, order + [session]) == DropSession(DropSessions(shares, order), session)
    decreases |order|
  {
    hide DropSession;
    if order == [] {
      assert order + [session] == [session] && [session][1..] == [];
    } else {
      DropSessionsSnoc(DropSession(shares, order[0]), order[1..], session);
      assert (order + [session])[1..] == order[1..] + [session];
    }
  }
}
