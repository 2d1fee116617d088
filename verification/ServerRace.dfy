/**
 File commands that interleave with other requests: a handler validates session and tree first and works
 on the share later, and the tree may have gone in between.
 */
module ServerRace {
  import opened HandleMap
  import opened ShareFiles
  import opened Server
  import opened Wrappers

  /** A file command whose session and tree were valid when it was checked. */
  datatype InFlight = InFlight(session: nat, tree: nat, share: string, readOnly: bool, command: Command)

  datatype Serving = Serving(sv: State, inFlight: seq<InFlight>)

  datatype Event =
    | Begin(session: nat, tree: nat, command: Command)
    | Finish(index: nat)
    | Whole(request: Request)

  /** The validated command acts on its share, whatever has become of its tree. */
  function Act(sv: State, f: InFlight): (State, Reply) {
    if f.share !in sv.shares then (sv, Failure(BAD_NETWORK_NAME))
    else
      var served := sv.shares[f.share];
      var (share, reply) := Apply(served.share, Caller(f.tree, f.session, f.readOnly), f.command);
      (sv.(shares := sv.shares[f.share := served.(share := share)]), reply)
  }

  /** One step; an event that the state does not offer changes nothing. */
  function Step(s: Serving, e: Event): Serving {
    match e
    case Begin(session, tree, m) =>
      if LiveTree(s.sv, session, tree)
      then
        var t := s.sv.sessions[session].trees[tree];
        s.(inFlight := s.inFlight + [InFlight(session, tree, t.share, t.readOnly, m)])
      else s
    case Finish(k) =>
      if k < |s.inFlight|
      then Serving(Act(s.sv, s.inFlight[k]).0, s.inFlight[..k] + s.inFlight[k + 1..])
      else s
    case Whole(q) => s.(sv := Server.Step(s.sv, q).0)
  }

  function Run(s: Serving, es: seq<Event>): Serving
    decreases |es|
  {
    if es == [] then s else Run(Step(s, es[0]), es[1..])
  }

  /** The tree the command was validated for is live, on the same share. */
  predicate StillLive(sv: State, f: InFlight) {
    LiveTree(sv, f.session, f.tree) && sv.sessions[f.session].trees[f.tree].share == f.share
  }

  /** Does the command open a handle? */
  predicate OpensHandle(sv: State, f: InFlight) {
    f.command.Create? && Act(sv, f).1.status == SUCCESS
  }

  /** Every other command leaves only handles that were there, with their owners. */
  lemma AddsNothing(s: Share, c: Caller, m: Command)
    requires !(m.Create? && Apply(s, c, m).1.status == SUCCESS)
    ensures var t := Apply(s, c, m).0.table;
            forall id :: id in t.handles ==>
              && id in s.table.handles && t.handles[id].session == s.table.handles[id].session
              && t.handles[id].tree == s.table.handles[id].tree
  {
    hide Without;
    match m
    case Create(persistent, r, faults) => CreateFails(s, c, persistent, r, faults);
    case Close(_, _) =>
    case Write(_, _, _, _) =>
    case SetInfo(_, _) =>
  }

  /** A successful CREATE adds one handle, the caller's. */
  lemma AddsOne(s: Share, c: Caller, m: Command)
    requires Indexed(s.table) && m.Create? && Apply(s, c, m).1.status == SUCCESS
    ensures var t, id := Apply(s, c, m).0.table, NextId(s.table, m.persistent);
            && id in t.handles && BelongsTo(t.handles[id], c.tree, c.session) && id !in s.table.handles
            && t.handles - {id} == s.table.handles
  {
    CreateMeans(s, c, m.persistent, m.request, m.faults);
  }

  lemma OtherShares(sv: State, f: InFlight)
    requires NoOrphans(sv) && f.share in sv.shares
    ensures var sv' := Act(sv, f).0;
            && sv'.sessions == sv.sessions && sv'.shares.Keys == sv.shares.Keys
            && (NoOrphans(sv') <==> AllRooted(sv.sessions, f.share, sv'.shares[f.share].share.table))
  {
    hide Apply, AllRooted;
    var sv' := Act(sv, f).0;
    assert forall n :: n in sv.shares && n != f.share ==> sv'.shares[n] == sv.shares[n];
  }

  /** Finishing a command orphans a handle exactly when it is a CREATE that succeeds after its tree has gone. */
  lemma FinishKeepsIff(sv: State, f: InFlight)
    requires Invariant(sv) && f.share in sv.shares
    ensures NoOrphans(Act(sv, f).0) <==> (OpensHandle(sv, f) ==> StillLive(sv, f))
  {
    hide Apply, Indexed, SharingSafe;
    var s, c := sv.shares[f.share].share, Caller(f.tree, f.session, f.readOnly);
    var t' := Apply(s, c, f.command).0.table;
    assert TableOk(s.table) && AllRooted(sv.sessions, f.share, s.table);
    OtherShares(sv, f);
    if OpensHandle(sv, f) {
      AddsOne(s, c, f.command);
      var id := NextId(s.table, f.command.persistent);
      forall x | x in t'.handles && x != id
        ensures t'.handles[x] == s.table.handles[x] && Rooted(sv.sessions, f.share, t'.handles[x])
      {
        assert x in t'.handles - {id};
      }
    } else {
      AddsNothing(s, c, f.command);
    }
  }

  lemma FinishKeeps(sv: State, f: InFlight)
    requires Invariant(sv) && (f.share in sv.shares && OpensHandle(sv, f) ==> StillLive(sv, f))
    ensures Invariant(Act(sv, f).0)
  {
    if f.share in sv.shares {
      hide Apply, Indexed, SharingSafe, NoOrphans;
      FinishKeepsIff(sv, f);
      assert TableOk(sv.shares[f.share].share.table);
      ApplyKeeps(sv.shares[f.share].share, Caller(f.tree, f.session, f.readOnly), f.command);
    }
  }

  /** Whole requests are admissible, and no CREATE succeeds after its tree has gone. */
  ghost predicate InTime(s: Serving, es: seq<Event>)
    decreases |es|
  {
    es != [] ==>
      && (es[0].Whole? ==> Admissible(s.sv, es[0].request))
      && (es[0].Finish? && es[0].index < |s.inFlight| ==>
            var f := s.inFlight[es[0].index]; f.share in s.sv.shares && OpensHandle(s.sv, f) ==> StillLive(s.sv, f))
      && InTime(Step(s, es[0]), es[1..])
  }

  /** Interleaved runs leave no orphan as long as every CREATE finishes while its tree is live. */
  lemma {:induction false} InterleavedKeeps(s: Serving, es: seq<Event>)
    requires Invariant(s.sv) && InTime(s, es)
    ensures Invariant(Run(s, es).sv)
    decreases |es|
  {
    if es != [] {
      hide Invariant, Admissible, OpensHandle, StillLive, Act, Server.Step;
      var e := es[0];
      match e {
        case Begin(_, _, _) =>
        case Finish(k) => if k < |s.inFlight| { FinishKeeps(s.sv, s.inFlight[k]); }
        case Whole(q) => Server.StepKeeps(s.sv, q);
      }
      InterleavedKeeps(Step(s, e), es[1..]);
    }
  }
}
