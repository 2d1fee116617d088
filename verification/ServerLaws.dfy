/**
 What each request of the server means, and what follows over runs: who is authenticated, which trees
 exist, and exactly what a request takes away.
 */
module ServerLaws {
  import opened HandleMap
  import opened ShareFiles
  import opened Server
  import opened Wrappers

  // ---- SESSION_SETUP ----

  /** The session that a SESSION_SETUP is about: the previous one, else the one of the header, else a new one. */
  function Target(sv: State, q: Request): nat
    requires q.SessionSetup?
  {
    if q.previous != 0 && q.previous in sv.sessions then q.previous
    else if q.header != 0 && q.header in sv.sessions then q.header
    else q.newId
  }

  /** The reply repeats the verdict, and the shares stay as they are. */
  lemma SetupReply(sv: State, q: Request)
    requires q.SessionSetup? && Offered(sv, q)
    ensures var (sv', reply) := Server.Step(sv, q);
            && (reply.status == SUCCESS <==> q.auth.Accepted?)
            && (reply.status == LOGON_FAILURE <==> q.auth.Rejected?)
            && (reply.status == MORE_PROCESSING_REQUIRED <==> q.auth.Challenged?)
            && sv'.shares == sv.shares
  {
  }

  /**
   Rejected leaves the sessions as they were; Challenged at most adds an unauthenticated session; Accepted
   makes the target valid now, with the trees it had, and touches no other session.
   */
  lemma SetupMeans(sv: State, q: Request)
    requires q.SessionSetup? && Offered(sv, q)
    ensures var sv' := Server.Step(sv, q).0;
            var id := Target(sv, q);
            && (q.auth.Rejected? ==> sv'.sessions == sv.sessions)
            && (!q.auth.Rejected? ==> id in sv'.sessions && sv'.sessions - {id} == sv.sessions - {id})
            && (q.auth.Challenged? ==>
                  if id in sv.sessions then sv'.sessions == sv.sessions
                  else sv'.sessions[id] == Session(false, map[], 1, q.now))
            && (q.auth.Accepted? ==>
                  && sv'.sessions[id].valid && sv'.sessions[id].lastActivity == q.now
                  && (id in sv.sessions ==>
                        sv'.sessions[id].trees == sv.sessions[id].trees && sv'.sessions[id].nextTree == sv.sessions[id].nextTree)
                  && (id !in sv.sessions ==> sv'.sessions[id].trees == map[] && sv'.sessions[id].nextTree == 1))
  {
    if q.auth.Rejected? && Continued(sv, q.header, q.previous) == 0 {
      assert sv.sessions[q.newId := Session(false, map[], 1, q.now)] - {q.newId} == sv.sessions;
    }
  }

  /** Is this an accepted SESSION_SETUP for the session? */
  predicate Accepts(sv: State, q: Request, id: nat) {
    q.SessionSetup? && q.auth.Accepted? && Target(sv, q) == id
  }

  /** Only an accepted SESSION_SETUP makes a session valid. */
  lemma ValidByAccepted(sv: State, q: Request, id: nat)
    requires Offered(sv, q) && Live(Server.Step(sv, q).0, id) && !Live(sv, id)
    ensures Accepts(sv, q, id)
  {
    hide DropTree, DropTrees, DropSessions, Apply;
    if q.SessionSetup? {
      SetupMeans(sv, q);
    }
  }

  /** Some step of the run is an accepted SESSION_SETUP for the session. */
  ghost predicate AcceptedIn(sv: State, qs: seq<Request>, id: nat)
    decreases |qs|
  {
    qs != [] && (Accepts(sv, qs[0], id) || AcceptedIn(Server.Step(sv, qs[0]).0, qs[1..], id))
  }

  lemma {:induction false} LiveByAccepted(sv: State, qs: seq<Request>, id: nat)
    requires AllOffered(sv, qs) && Live(Server.Run(sv, qs), id) && !Live(sv, id)
    ensures AcceptedIn(sv, qs, id)
    decreases |qs|
  {
    if qs != [] {
      hide Server.Step, Offered, Accepts, Live;
      var sv' := Server.Step(sv, qs[0]).0;
      if Live(sv', id) {
        ValidByAccepted(sv, qs[0], id);
      } else {
        LiveByAccepted(sv', qs[1..], id);
      }
    }
  }

  lemma {:induction false} AdmissibleIsOffered(sv: State, qs: seq<Request>)
    requires AllAdmissible(sv, qs)
    ensures AllOffered(sv, qs)
    decreases |qs|
  {
    if qs != [] {
      hide Server.Step, Offered, TreeIdFree;
      AdmissibleIsOffered(Server.Step(sv, qs[0]).0, qs[1..]);
    }
  }

  /**
   After any run every live session was accepted by the authenticator in that run, and so was the session
   of every open handle.
   */
  lemma OnlyAuthenticated(sv: State, qs: seq<Request>, id: nat)
    requires Start(sv) && AllAdmissible(sv, qs)
    ensures Live(Server.Run(sv, qs), id) ==> AcceptedIn(sv, qs, id)
    ensures forall n, h :: n in Server.Run(sv, qs).shares && h in Server.Run(sv, qs).shares[n].share.table.handles ==>
              AcceptedIn(sv, qs, Server.Run(sv, qs).shares[n].share.table.handles[h].session)
  {
    AdmissibleIsOffered(sv, qs);
    NoOrphanHandles(sv, qs);
    var sv' := Server.Run(sv, qs);
    hide AllAdmissible, AllOffered, Server.Run;
    if Live(sv', id) {
      LiveByAccepted(sv, qs, id);
    }
    forall n, h | n in sv'.shares && h in sv'.shares[n].share.table.handles
      ensures AcceptedIn(sv, qs, sv'.shares[n].share.table.handles[h].session)
    {
      assert AllRooted(sv'.sessions, n, sv'.shares[n].share.table);
      LiveByAccepted(sv, qs, sv'.shares[n].share.table.handles[h].session);
    }
  }

  // ---- TREE_CONNECT ----

  /** TREE_CONNECT succeeds exactly for a live session, a share that exists and a user it allows, and adds one tree. */
  lemma ConnectMeans(sv: State, session: nat, share: string, allowed: bool)
    ensures var (sv', reply) := Server.Step(sv, TreeConnect(session, share, allowed));
            && (reply.status == SUCCESS <==> Live(sv, session) && share != "" && share in sv.shares && allowed)
            && (reply.status == USER_SESSION_DELETED <==> !Live(sv, session))
            && (reply.status == ACCESS_DENIED <==> Live(sv, session) && share != "" && share in sv.shares && !allowed)
            && (reply.status != SUCCESS ==> sv' == sv)
            && (reply.status == SUCCESS ==>
                  var s := sv.sessions[session];
                  && sv'.shares == sv.shares && sv'.sessions.Keys == sv.sessions.Keys
                  && (forall x :: x in sv.sessions && x != session ==> sv'.sessions[x] == sv.sessions[x])
                  && s.nextTree in sv'.sessions[session].trees
                  && sv'.sessions[session].trees[s.nextTree] == Tree(share, sv.shares[share].readOnly)
                  && sv'.sessions[session].trees - {s.nextTree} == s.trees - {s.nextTree}
                  && sv'.sessions[session].valid && sv'.sessions[session].lastActivity == s.lastActivity
                  && (s.nextTree < 0x1_0000_0000 ==>
                        sv'.sessions[session].nextTree == if s.nextTree == 0xFFFF_FFFF then 0 else s.nextTree + 1))
  {
  }

  predicate HasTree(sv: State, session: nat, tree: nat, t: Tree) {
    session in sv.sessions && tree in sv.sessions[session].trees && sv.sessions[session].trees[tree] == t
  }

  /** Is this a TREE_CONNECT that the share allows the session, for this tree? */
  predicate Connects(sv: State, q: Request, session: nat, tree: nat, t: Tree) {
    && q.TreeConnect? && q.allowed && q.session == session && q.share == t.share
    && Live(sv, session) && sv.sessions[session].nextTree == tree
    && t.share in sv.shares && t.readOnly == sv.shares[t.share].readOnly
  }

  /** Only an allowed TREE_CONNECT makes a tree. */
  lemma TreeByConnect(sv: State, q: Request, session: nat, tree: nat, t: Tree)
    requires Offered(sv, q) && HasTree(Server.Step(sv, q).0, session, tree, t) && !HasTree(sv, session, tree, t)
    ensures Connects(sv, q, session, tree, t)
  {
    hide DropTree, DropTrees, DropSessions, Apply;
    if q.SessionSetup? {
      SetupMeans(sv, q);
    }
  }

  ghost predicate ConnectedIn(sv: State, qs: seq<Request>, session: nat, tree: nat, t: Tree)
    decreases |qs|
  {
    qs != [] && (Connects(sv, qs[0], session, tree, t) || ConnectedIn(Server.Step(sv, qs[0]).0, qs[1..], session, tree, t))
  }

  /** After any run from the start every tree was allowed by a TREE_CONNECT of that run. */
  lemma {:induction false} TreesWereAllowed(sv: State, qs: seq<Request>, session: nat, tree: nat, t: Tree)
    requires AllOffered(sv, qs) && HasTree(Server.Run(sv, qs), session, tree, t) && !HasTree(sv, session, tree, t)
    ensures ConnectedIn(sv, qs, session, tree, t)
    decreases |qs|
  {
    if qs != [] {
      hide Server.Step, Offered, Connects, HasTree;
      var sv' := Server.Step(sv, qs[0]).0;
      if HasTree(sv', session, tree, t) {
        TreeByConnect(sv, qs[0], session, tree, t);
      } else {
        TreesWereAllowed(sv', qs[1..], session, tree, t);
      }
    }
  }

  // ---- What is taken away ----

  /** The handles of `after` are those of `before` that the filter does not ask for; everything else is the same. */
  ghost predicate Without(before: Served, after: Served, f: Filter) {
    && after.readOnly == before.readOnly && after.share.files == before.share.files
    && (forall id :: id in after.share.table.handles <==>
          id in before.share.table.handles && !Matches(f, before.share.table.handles[id]))
    && (forall id :: id in after.share.table.handles ==>
          after.share.table.handles[id] == before.share.table.handles[id])
  }

  /** TREE_DISCONNECT takes away the tree and exactly the handles opened through it. */
  lemma DisconnectMeans(sv: State, session: nat, tree: nat)
    requires Invariant(sv)
    ensures var (sv', reply) := Server.Step(sv, TreeDisconnect(session, tree));
            && (reply.status == SUCCESS <==> LiveTree(sv, session, tree))
            && (reply.status == USER_SESSION_DELETED <==> !Live(sv, session))
            && (reply.status != SUCCESS ==> sv' == sv)
            && (reply.status == SUCCESS ==>
                  && sv'.sessions == sv.sessions[session := sv.sessions[session].(trees := sv.sessions[session].trees - {tree})]
                  && sv'.shares.Keys == sv.shares.Keys
                  && forall n :: n in sv.shares ==>
                       if n == sv.sessions[session].trees[tree].share
                       then Without(sv.shares[n], sv'.shares[n], ByTree(tree, session)) else sv'.shares[n] == sv.shares[n])
  {
    hide Dropped, Matches, TableOk, NoOrphans;
    if LiveTree(sv, session, tree) {
      DroppedMeans(sv.shares[sv.sessions[session].trees[tree].share].share.table, ByTree(tree, session));
    }
  }

  /** Is the handle one that a loop over these trees releases, in the share `n`? */
  predicate Reached(o: OpenFile, session: nat, trees: map<nat, Tree>, order: seq<nat>, n: string) {
    o.session == session && o.tree in order && o.tree in trees && trees[o.tree].share == n
  }

  ghost predicate Exactly(before: map<string, Served>, after: map<string, Served>, gone: (string, OpenFile) -> bool) {
    && after.Keys == before.Keys
    && forall n :: n in before ==> LessExactly(before[n], after[n], n, gone)
  }

  ghost predicate LessExactly(before: Served, after: Served, n: string, gone: (string, OpenFile) -> bool) {
    && after.readOnly == before.readOnly && after.share.files == before.share.files
    && (forall id :: id in after.share.table.handles <==>
          id in before.share.table.handles && !gone(n, before.share.table.handles[id]))
    && (forall id :: id in after.share.table.handles ==>
          after.share.table.handles[id] == before.share.table.handles[id])
  }

  lemma DropTreeExactly(shares: map<string, Served>, session: nat, tree: nat, name: string)
    ensures Exactly(shares, DropTree(shares, session, tree, name), (n, o: OpenFile) => n == name && BelongsTo(o, tree, session))
  {
    hide Dropped;
    if name in shares {
      DroppedMeans(shares[name].share.table, ByTree(tree, session));
    }
  }

  lemma ExactlyTwice(a: map<string, Served>, b: map<string, Served>, c: map<string, Served>,
                     g: (string, OpenFile) -> bool, h: (string, OpenFile) -> bool, k: (string, OpenFile) -> bool)
    requires Exactly(a, b, g) && Exactly(b, c, h) && forall n, o :: k(n, o) <==> g(n, o) || h(n, o)
    ensures Exactly(a, c, k)
  {
    forall n | n in a
      ensures LessExactly(a[n], c[n], n, k)
    {
      assert LessExactly(a[n], b[n], n, g) && LessExactly(b[n], c[n], n, h);
    }
  }

  lemma {:induction false} DropTreesExactly(shares: map<string, Served>, session: nat, trees: map<nat, Tree>, order: seq<nat>)
    ensures Exactly(shares, DropTrees(shares, session, trees, order), (n, o) => Reached(o, session, trees, order, n))
    decreases |order|
  {
    hide DropTree;
    if order != [] {
      var t, rest := order[0], order[1..];
      var shares1 := if t in trees then DropTree(shares, session, t, trees[t].share) else shares;
      var g := (n, o: OpenFile) => t in trees && n == trees[t].share && BelongsTo(o, t, session);
      if t in trees {
        DropTreeExactly(shares, session, t, trees[t].share);
      }
      assert Exactly(shares, shares1, g);
      DropTreesExactly(shares1, session, trees, rest);
      assert order == [t] + rest;
      hide Exactly;
      ExactlyTwice(shares, shares1, DropTrees(shares1, session, trees, rest), g,
                   (n, o) => Reached(o, session, trees, rest, n), (n, o) => Reached(o, session, trees, order, n));
    }
  }

  /** LOGOFF takes away the session and exactly its handles, in every share. */
  lemma LogoffMeans(sv: State, session: nat, order: seq<nat>)
    requires Invariant(sv) && Offered(sv, Logoff(session, order))
    ensures var (sv', reply) := Server.Step(sv, Logoff(session, order));
            && (reply.status == SUCCESS <==> Live(sv, session))
            && (reply.status != SUCCESS ==> reply.status == USER_SESSION_DELETED && sv' == sv)
            && (reply.status == SUCCESS ==>
                  && sv'.sessions == sv.sessions - {session} && sv'.shares.Keys == sv.shares.Keys
                  && forall n :: n in sv.shares ==> Without(sv.shares[n], sv'.shares[n], BySession(session)))
  {
    if Live(sv, session) {
      hide DropTrees, TableOk;
      DropTreesExactly(sv.shares, session, sv.sessions[session].trees, order);
      var sv' := Server.Step(sv, Logoff(session, order)).0;
      forall n | n in sv.shares
        ensures Without(sv.shares[n], sv'.shares[n], BySession(session))
      {
        assert LessExactly(sv.shares[n], sv'.shares[n], n, (n, o) => Reached(o, session, sv.sessions[session].trees, order, n));
        assert AllRooted(sv.sessions, n, sv.shares[n].share.table);
      }
    }
  }

  lemma DropSessionExactly(shares: map<string, Served>, session: nat)
    ensures Exactly(shares, DropSession(shares, session), (n, o: OpenFile) => o.session == session)
  {
    hide Dropped;
    var after := DropSession(shares, session);
    forall n | n in shares
      ensures LessExactly(shares[n], after[n], n, (n, o: OpenFile) => o.session == session)
    {
      DroppedMeans(shares[n].share.table, BySession(session));
    }
  }

  lemma {:induction false} DropSessionsExactly(shares: map<string, Served>, order: seq<nat>)
    ensures Exactly(shares, DropSessions(shares, order), (n, o: OpenFile) => o.session in order)
    decreases |order|
  {
    hide DropSession;
    if order != [] {
      DropSessionExactly(shares, order[0]);
      DropSessionsExactly(DropSession(shares, order[0]), order[1..]);
      assert order == [order[0]] + order[1..];
      hide Exactly;
      ExactlyTwice(shares, DropSession(shares, order[0]), DropSessions(DropSession(shares, order[0]), order[1..]),
                   (n, o: OpenFile) => o.session == order[0], (n, o: OpenFile) => o.session in order[1..],
                   (n, o: OpenFile) => o.session in order);
    }
  }

  /** Expiry takes away exactly the sessions last active before the cutoff, and exactly their handles. */
  lemma ExpireMeans(sv: State, cutoff: int, order: seq<nat>)
    requires Offered(sv, Expire(cutoff, order))
    ensures var sv' := Server.Step(sv, Expire(cutoff, order)).0;
            && (forall id :: id in sv'.sessions <==> id in sv.sessions && cutoff <= sv.sessions[id].lastActivity)
            && (forall id :: id in sv'.sessions ==> sv'.sessions[id] == sv.sessions[id])
            && Exactly(sv.shares, sv'.shares,
                       (n, o: OpenFile) => o.session in sv.sessions && sv.sessions[o.session].lastActivity < cutoff)
  {
    hide DropSessions;
    DropSessionsExactly(sv.shares, order);
    var sv' := Server.Step(sv, Expire(cutoff, order)).0;
    forall n | n in sv.shares
      ensures LessExactly(sv.shares[n], sv'.shares[n], n,
                          (n, o: OpenFile) => o.session in sv.sessions && sv.sessions[o.session].lastActivity < cutoff)
    {
      assert LessExactly(sv.shares[n], sv'.shares[n], n, (n, o: OpenFile) => o.session in order);
    }
  }

  /** A file command reaches the share of its tree, with the tree's read-only option, and nothing else. */
  lemma CommandMeans(sv: State, session: nat, tree: nat, m: Command)
    requires Invariant(sv)
    ensures var (sv', reply) := Server.Step(sv, FileCommand(session, tree, m));
            && sv'.sessions == sv.sessions && sv'.shares.Keys == sv.shares.Keys
            && (!Live(sv, session) ==> sv' == sv && reply == Failure(USER_SESSION_DELETED))
            && (Live(sv, session) && !LiveTree(sv, session, tree) ==> sv' == sv && reply == Failure(NETWORK_NAME_DELETED))
            && (LiveTree(sv, session, tree) ==>
                  var n := sv.sessions[session].trees[tree].share;
                  && n in sv.shares
                  && (sv'.shares[n].share, reply) == Apply(sv.shares[n].share, Caller(tree, session, sv.shares[n].readOnly), m)
                  && sv'.shares[n].readOnly == sv.shares[n].readOnly && sv'.shares - {n} == sv.shares - {n})
  {
    hide Apply, TableOk, NoOrphans;
  }
}
