/**
 Runs of the server from its start that show where its promises end: a busy session that expires, a
 tree counter that comes round, and a CREATE that outlives its tree.
 */
module ServerRuns {
  import opened HandleMap
  import opened ShareFiles
  import opened Server
  import opened Wrappers
  import R = ServerRace

  // ---- One session with one file open ----

  const NO_FAULTS := Faults(false, false, false, false, false)

  /** Opens an existing file for reading. */
  const OPEN_F := Create(0, CreateRequest("f", FILE_READ_DATA, 0, FILE_OPEN, 0), NO_FAULTS)

  const FILES_A: Share := Share(EMPTY_TABLE, map["f" := Regular([])])

  function Fresh(): State {
    State(map[], map["A" := Served(false, FILES_A), "B" := Served(false, Share(EMPTY_TABLE, map[]))])
  }

  const SET_UP := SessionSetup(0, 0, 7, Accepted, 0)
  const CONNECT_A := TreeConnect(7, "A", true)
  const CONNECT_B := TreeConnect(7, "B", true)

  function HandleF(): OpenFile {
    OpenFile(FileId(0, 1), 1, "f", false, FILE_READ_DATA, 0, 1, 7, false)
  }

  function OneTree(): State {
    Fresh().(sessions := map[7 := Session(true, map[1 := Tree("A", false)], 2, 0)])
  }

  /** Session 7 is set up at time 0, connected to A as tree 1, and has the file open. */
  function OneOpen(): State {
    OneTree().(shares := OneTree().shares["A" := Served(false, Share(Allocated(EMPTY_TABLE, HandleF()), FILES_A.files))])
  }

  lemma OpenF()
    ensures Apply(FILES_A, Caller(1, 7, false), OPEN_F)
            == (Share(Allocated(EMPTY_TABLE, HandleF()), FILES_A.files), Reply(SUCCESS, Some(Opened), Some(FileId(0, 1))))
  {
    assert FileName("f") == "f";
  }

  lemma ToOneTree()
    ensures Server.Step(Server.Step(Fresh(), SET_UP).0, CONNECT_A).0 == OneTree()
  {
    var sv := Server.Step(Fresh(), SET_UP).0;
    assert sv.sessions == map[7 := Session(true, map[], 1, 0)];
    var sv' := Server.Step(sv, CONNECT_A).0;
    assert sv'.sessions == map[7 := Session(true, map[1 := Tree("A", false)], 2, 0)];
  }

  lemma ToOneOpen()
    ensures Server.Step(OneTree(), FileCommand(7, 1, OPEN_F)).0 == OneOpen()
  {
    hide Apply;
    OpenF();
  }

  lemma RunStep(sv: State, q: Request, qs: seq<Request>)
    ensures Server.Run(sv, [q] + qs) == Server.Run(Server.Step(sv, q).0, qs)
    ensures AllOffered(sv, [q] + qs) <==> Offered(sv, q) && AllOffered(Server.Step(sv, q).0, qs)
  {
    hide Server.Step, Offered;
    assert ([q] + qs)[1..] == qs;
  }

  /** Set up, connect, create. */
  function Opening(rest: seq<Request>): seq<Request> {
    [SET_UP] + ([CONNECT_A] + ([FileCommand(7, 1, OPEN_F)] + rest))
  }

  lemma Reached(rest: seq<Request>)
    ensures Server.Run(Fresh(), Opening(rest)) == Server.Run(OneOpen(), rest)
    ensures AllOffered(Fresh(), Opening(rest)) <==> AllOffered(OneOpen(), rest)
  {
    ToOneTree();
    ToOneOpen();
    assert Offered(Fresh(), SET_UP);
    hide Server.Step, Server.Run, AllOffered;
    RunStep(Fresh(), SET_UP, [CONNECT_A] + ([FileCommand(7, 1, OPEN_F)] + rest));
    RunStep(Server.Step(Fresh(), SET_UP).0, CONNECT_A, [FileCommand(7, 1, OPEN_F)] + rest);
    RunStep(OneTree(), FileCommand(7, 1, OPEN_F), rest);
  }

  // ---- A busy session expires ----

  /** A session that goes on working after its set-up loses itself and its handle to the first expiry past the set-up. */
  lemma BusySessionRun()
    ensures var sv := Server.Run(Fresh(), Opening([]));
            && Live(sv, 7) && "A" in sv.shares && FileId(0, 1) in sv.shares["A"].share.table.handles
            && Offered(sv, Expire(1, [7]))
            && var sv' := Server.Step(sv, Expire(1, [7])).0;
               7 !in sv'.sessions && "A" in sv'.shares && sv'.shares["A"].share.table.handles == map[]
  {
    Reached([]);
    var sv := OneOpen();
    assert Server.Run(sv, []) == sv;
    var sv' := Server.Step(sv, Expire(1, [7])).0;
    assert sv'.shares == DropSessions(DropSession(sv.shares, 7), [7][1..]) && [7][1..] == [];
    assert sv.shares["A"].share.table.handles == map[FileId(0, 1) := HandleF()];
  }

  // ---- The tree counter comes round ----

  function Repeat(q: Request, n: nat): seq<Request> {
    if n == 0 then [] else [q] + Repeat(q, n - 1)
  }

  /** Tree 1 stands, and `k` is the next tree ID before it is cut to 32 bits. */
  ghost predicate Counting(sv: State, k: nat) {
    && Live(sv, 7) && "B" in sv.shares
    && 1 in sv.sessions[7].trees && sv.sessions[7].trees[1] == Tree("A", false)
    && sv.sessions[7].nextTree == k % 0x1_0000_0000
  }

  lemma ConnectCounts(sv: State, k: nat)
    requires Counting(sv, k) && 2 <= k <= 0x1_0000_0000
    ensures var sv' := Server.Step(sv, CONNECT_B).0; Counting(sv', k + 1) && sv'.shares == sv.shares
  {
  }

  lemma {:induction false} ConnectMany(sv: State, k: nat, n: nat)
    requires Counting(sv, k) && 2 <= k && k + n <= 0x1_0000_0001
    ensures var sv' := Server.Run(sv, Repeat(CONNECT_B, n)); Counting(sv', k + n) && sv'.shares == sv.shares
    ensures AllOffered(sv, Repeat(CONNECT_B, n))
    decreases n
  {
    if n > 0 {
      assert Offered(sv, CONNECT_B);
      hide Server.Step, Counting, Offered;
      ConnectCounts(sv, k);
      RunStep(sv, CONNECT_B, Repeat(CONNECT_B, n - 1));
      ConnectMany(Server.Step(sv, CONNECT_B).0, k + 1, n - 1);
    }
  }

  /**
   With a file open through tree 1 on A, 2^32 - 1 further connections to B bring the counter back to 1,
   and the next one takes the tree away from under the open file.
   */
  lemma TreeCounterRun()
    ensures var qs := Opening(Repeat(CONNECT_B, 0xFFFF_FFFF));
            var sv := Server.Run(Fresh(), qs);
            && AllOffered(Fresh(), qs)
            && Live(sv, 7) && sv.sessions[7].nextTree == 1 && 1 in sv.sessions[7].trees
            && sv.sessions[7].trees[1].share == "A" && Used(sv, 7, 1, "A")
            && !NoOrphans(Server.Step(sv, CONNECT_B).0)
  {
    var sv := Server.Run(OneOpen(), Repeat(CONNECT_B, 0xFFFF_FFFF));
    Reached(Repeat(CONNECT_B, 0xFFFF_FFFF));
    OneOpenCounts();
    ConnectMany(OneOpen(), 2, 0xFFFF_FFFF);
    Stands(sv);
    LastConnect(sv);
  }

  lemma OneOpenCounts()
    ensures Counting(OneOpen(), 2)
  {
  }

  lemma Stands(sv: State)
    requires sv.shares == OneOpen().shares
    ensures Used(sv, 7, 1, "A")
  {
    assert sv.shares["A"].share.table.handles[FileId(0, 1)] == HandleF();
  }

  lemma LastConnect(sv: State)
    requires Counting(sv, 0x1_0000_0001) && Used(sv, 7, 1, "A")
    ensures !NoOrphans(Server.Step(sv, CONNECT_B).0)
  {
    var sv' := Server.Step(sv, CONNECT_B).0;
    var id :| id in sv.shares["A"].share.table.handles && BelongsTo(sv.shares["A"].share.table.handles[id], 1, 7);
    assert !Rooted(sv'.sessions, "A", sv'.shares["A"].share.table.handles[id]);
    assert !AllRooted(sv'.sessions, "A", sv'.shares["A"].share.table);
  }

  // ---- A CREATE that outlives its tree ----

  /** The session logs off between the validation of a CREATE and its work on the share. */
  lemma LateCreateRun()
    ensures var s := R.Serving(OneTree(), []);
            var s1 := R.Step(s, R.Begin(7, 1, OPEN_F));
            var s2 := R.Step(s1, R.Whole(Logoff(7, [1])));
            && Server.Step(Server.Step(Fresh(), SET_UP).0, CONNECT_A).0 == s.sv
            && Invariant(s.sv) && Admissible(s1.sv, Logoff(7, [1])) && NoOrphans(s2.sv)
            && !NoOrphans(R.Step(s2, R.Finish(0)).sv)
  {
    hide Apply, NoOrphans, DropTrees, TreesOk, TableOk;
    ToOneTree();
    OneTreeHolds();
    var s := R.Serving(OneTree(), []);
    var f := R.InFlight(7, 1, "A", false, OPEN_F);
    var s1 := R.Step(s, R.Begin(7, 1, OPEN_F));
    assert s1 == R.Serving(OneTree(), [f]);
    var s2 := R.Step(s1, R.Whole(Logoff(7, [1])));
    LogoffKeeps(OneTree(), 7, [1]);
    LoggedOff(s2.sv);
    OpenF();
    R.FinishKeepsIff(s2.sv, f);
    assert R.Step(s2, R.Finish(0)).sv == R.Act(s2.sv, f).0;
  }

  lemma OneTreeHolds()
    ensures Invariant(OneTree())
  {
    assert TableOk(EMPTY_TABLE);
  }

  lemma LoggedOff(sv: State)
    requires sv == Server.Step(OneTree(), Logoff(7, [1])).0
    ensures 7 !in sv.sessions && "A" in sv.shares && sv.shares["A"] == Served(false, FILES_A)
  {
    assert [1][1..] == [];
    var shares := OneTree().shares;
    assert sv.shares == DropTrees(DropTree(shares, 7, 1, "A"), 7, OneTree().sessions[7].trees, []);
    assert Dropped(EMPTY_TABLE, ByTree(1, 7)) == EMPTY_TABLE;
  }
}
