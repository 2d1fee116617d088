/**
 The FileIndex and FileId values that QUERY_DIRECTORY gives to directory entries: what they are, that
 they can repeat, and exactly when they do not.
 */
module DirectoryIndex {
  import opened Bytes
  import opened DirectoryChain
  import opened Wrappers
  import opened Directory
  import Utf16

  /** In a page that starts at `pos`, the entry at position `pos + k` is numbered `pos + 2 * k`: its position only if it is the first. */
  lemma FileIndexIff(es: seq<Entry>, pos: nat, req: Request, n: nat, buffer: seq<byte>, k: nat)
    requires pos <= |es| && req.cls != Unsupported && PageOf(es, pos, req, n, buffer)
    requires k < n && pos + 2 * k < 0x1_0000_0000
    ensures |PageEntries(req.cls, buffer)| == n && pos + n <= |es|
    ensures var d := PageEntries(req.cls, buffer)[k];
            Tells(d, es[pos + k]) && d.record.index == pos + 2 * k && (d.record.index == pos + k <==> k == 0)
  {
    hide PageOf, PageEntries, Shows, Walk, LastLinkIsZero, Tells, AllTell, Low32;
    PageDelivers(es, pos, req, n, buffer);
    SmallModulo(pos + 2 * k);
    TellsAt(PageEntries(req.cls, buffer), es, pos, n, k);
  }

  lemma TellsAt(ds: seq<Seen>, es: seq<Entry>, pos: nat, n: nat, k: nat)
    requires pos + n <= |es| && AllTell(ds, es[pos..pos + n]) && k < n
    ensures |ds| == n && Tells(ds[k], es[pos + k])
  {
    hide Tells;
    assert es[pos..pos + n][k] == es[pos + k];
  }

  lemma SmallModulo(x: nat)
    requires x < 0x1_0000_0000
    ensures Low32(x) == x
  {
  }

  lemma RecordLength(e: Entry, index: nat)
    requires |Utf16.EncodeBytes(e.name)| < 0x1_0000
    ensures |Format(e, IdBoth, index)| == 104 + |Utf16.EncodeBytes(e.name)|
  {
    hide Format;
    FormatShaped(e, IdBoth, index);
  }

  /** Three entries whose names take `m` bytes each. */
  predicate ThreeAlike(es: seq<Entry>, m: nat) {
    m < 0x1_0000 && |es| == 3 && forall i :: 0 <= i < 3 ==> |Utf16.EncodeBytes(es[i].name)| == m
  }

  /** A client that has room for two of them. */
  function RoomForTwo(es: seq<Entry>, m: nat): Request
    requires ThreeAlike(es, m)
  {
    Request(IdBoth, 2 * AlignTo8(104 + m), false, Some(es))
  }

  lemma AllLength(es: seq<Entry>, m: nat, index: nat)
    requires m < 0x1_0000 && forall i :: 0 <= i < |es| ==> |Utf16.EncodeBytes(es[i].name)| == m
    ensures forall i :: 0 <= i < |es| ==> |Formatted(es, IdBoth, index)[i]| == 104 + m
  {
    hide Format, Formatted, Utf16.EncodeBytes;
    FormattedAt(es, IdBoth, index);
    forall i | 0 <= i < |es|
      ensures |Formatted(es, IdBoth, index)[i]| == 104 + m
    {
      RecordLength(es[i], index + 2 * i);
    }
  }

  lemma FirstTwo(es: seq<Entry>, m: nat)
    requires ThreeAlike(es, m)
    ensures PageOf(es, 0, RoomForTwo(es, m), 2, Chain(Formatted(es, IdBoth, 0)[..2]))
  {
    hide Format, Formatted, Chain, Fills, AlignTo8, Records, Utf16.EncodeBytes;
    AllLength(es, m, 0);
    FormattedRecords(es, IdBoth, 0);
    assert es[0..] == es;
    AlignFacts(104 + m);
    TwoOfThree(Formatted(es, IdBoth, 0), AlignTo8(104 + m));
  }

  lemma LastOne(es: seq<Entry>, m: nat)
    requires ThreeAlike(es, m)
    ensures PageOf(es, 2, RoomForTwo(es, m), 1, Chain(Formatted(es[2..], IdBoth, 2)))
  {
    hide Format, Formatted, Chain, AlignTo8, Records, Utf16.EncodeBytes;
    var rs := Formatted(es[2..], IdBoth, 2);
    FormattedRecords(es[2..], IdBoth, 2);
    AllLength(es[2..], m, 2);
    NoChain();
    assert rs[..0] == [] && rs[..1] == rs;
    PageGrows(rs, 0);
  }

  lemma TwoPagesRun(es: seq<Entry>, req: Request, b0: seq<byte>, b1: seq<byte>)
    requires |es| == 3 && req.cls == IdBoth && req.listing == Some(es)
    requires PageOf(es, 0, req, 2, b0) && PageOf(es, 2, req, 1, b1)
    ensures Run([INITIAL, DirState(Some(es), 2, false), DirState(Some(es), 3, true)], [req, req], [Page(2, b0), Page(1, b1)])
  {
    hide PageOf;
  }

  /**
   File indexes are not unique: whoever reads three like entries in a page of two and a page of one gets
   FileIndex 2, and FileId 2, for the second and for the third.
   */
  lemma FileIndexCollides(es: seq<Entry>, m: nat)
    requires ThreeAlike(es, m)
    ensures var req := RoomForTwo(es, m);
            var b0, b1 := Chain(Formatted(es, IdBoth, 0)[..2]), Chain(Formatted(es[2..], IdBoth, 2));
            && Run([INITIAL, DirState(Some(es), 2, false), DirState(Some(es), 3, true)], [req, req], [Page(2, b0), Page(1, b1)])
            && |PageEntries(IdBoth, b0)| == 2 && |PageEntries(IdBoth, b1)| == 1
            && Numbered(PageEntries(IdBoth, b0)[1], es[1], 2)
            && Numbered(PageEntries(IdBoth, b1)[0], es[2], 2)
  {
    hide PageOf, PageEntries, Chain, Walk, Format, Run, Numbered;
    var req := RoomForTwo(es, m);
    var b0, b1 := Chain(Formatted(es, IdBoth, 0)[..2]), Chain(Formatted(es[2..], IdBoth, 2));
    FirstTwo(es, m);
    LastOne(es, m);
    TwoPagesRun(es, req, b0, b1);
    NumberedAt(es, 0, req, 2, b0, 1);
    NumberedAt(es, 2, req, 1, b1, 0);
  }

  /** A record of the entry under a FileIndex and, for a class that has one, the same FileId. */
  predicate Numbered(d: Seen, e: Entry, index: nat) {
    && Tells(d, e) && d.record.index == index
    && (d.cls == IdBoth ==> d.record.DecodedEntry? && |d.record.extra| == 6 && d.record.extra[5] == index)
  }

  lemma NumberedAt(es: seq<Entry>, pos: nat, req: Request, n: nat, buffer: seq<byte>, k: nat)
    requires pos <= |es| && req.cls == IdBoth && PageOf(es, pos, req, n, buffer)
    requires k < n && pos + 2 * k < 0x1_0000_0000
    ensures |PageEntries(req.cls, buffer)| == n && pos + n <= |es|
    ensures Numbered(PageEntries(req.cls, buffer)[k], es[pos + k], pos + 2 * k)
  {
    hide PageOf, Walk;
    FileIndexIff(es, pos, req, n, buffer, k);
    SmallModulo(pos + 2 * k);
  }

  // ---- When file indexes are unique ----

  /** A page that was answered: where it starts and how many entries it holds. */
  datatype PageAt = PageAt(pos: nat, n: nat)

  /** The page gives the index to one of its entries. */
  predicate Gives(p: PageAt, x: nat) {
    p.pos <= x < p.pos + 2 * p.n && (x - p.pos) % 2 == 0
  }

  function PageIndexes(p: PageAt): (r: seq<nat>)
    ensures |r| == p.n && forall k :: 0 <= k < p.n ==> r[k] == p.pos + 2 * k
  {
    seq(p.n, k => p.pos + 2 * k)
  }

  /** Two pages clash when the later one starts at an even distance and before the indexes of the earlier end. */
  predicate Clash(p: PageAt, q: PageAt) {
    (q.pos - p.pos) % 2 == 0 && q.pos < p.pos + 2 * p.n
  }

  lemma GivesIff(p: PageAt, x: nat)
    ensures Gives(p, x) <==> x in PageIndexes(p)
  {
    if Gives(p, x) {
      assert PageIndexes(p)[(x - p.pos) / 2] == x;
    }
  }

  /** Two pages of one listing share an index exactly when they clash. */
  lemma SharedIndexIff(p: PageAt, q: PageAt)
    requires p.pos + p.n <= q.pos && q.n > 0
    ensures (exists x :: Gives(p, x) && Gives(q, x)) <==> Clash(p, q)
  {
    if Clash(p, q) {
      assert Gives(p, q.pos) && Gives(q, q.pos);
    }
  }

  /** One page after the other, none empty. */
  predicate InTurn(ps: seq<PageAt>) {
    && (forall i :: 0 <= i < |ps| ==> ps[i].n > 0)
    && (forall i, j :: 0 <= i < j < |ps| ==> ps[i].pos + ps[i].n <= ps[j].pos)
  }

  function AllIndexes(ps: seq<PageAt>): seq<nat> {
    if ps == [] then [] else AllIndexes(ps[..|ps| - 1]) + PageIndexes(ps[|ps| - 1])
  }

  predicate Distinct(s: seq<nat>) {
    forall i, j :: 0 <= i < j < |s| ==> s[i] != s[j]
  }

  predicate Disjoint(a: seq<nat>, b: seq<nat>) {
    forall x :: x in a ==> x !in b
  }

  lemma DistinctAppend(a: seq<nat>, b: seq<nat>)
    ensures Distinct(a + b) <==> Distinct(a) && Distinct(b) && Disjoint(a, b)
  {
    var s := a + b;
    assert forall i :: 0 <= i < |a| ==> a[i] == s[i];
    assert forall i :: 0 <= i < |b| ==> b[i] == s[|a| + i];
    if Distinct(a) && Distinct(b) && Disjoint(a, b) {
      forall i, j | 0 <= i < j < |s|
        ensures s[i] != s[j]
      {
        assert i < |a| <= j ==> s[i] in a && s[j] in b;
      }
    }
  }

  ghost predicate GivenBySome(ps: seq<PageAt>, x: nat) {
    exists i :: 0 <= i < |ps| && Gives(ps[i], x)
  }

  lemma {:induction false} GivenIff(ps: seq<PageAt>, x: nat)
    ensures x in AllIndexes(ps) <==> GivenBySome(ps, x)
  {
    hide Gives;
    if ps != [] {
      var k := |ps| - 1;
      GivenIff(ps[..k], x);
      GivesIff(ps[k], x);
      assert GivenBySome(ps, x) <==> GivenBySome(ps[..k], x) || Gives(ps[k], x) by {
        assert forall i :: 0 <= i < k ==> ps[..k][i] == ps[i];
      }
    }
  }

  ghost predicate NoClash(ps: seq<PageAt>) {
    forall i, j :: 0 <= i < j < |ps| ==> !Clash(ps[i], ps[j])
  }

  /** A page shares nothing with the earlier ones exactly when it clashes with none. */
  lemma LastPage(ps: seq<PageAt>)
    requires InTurn(ps) && ps != []
    ensures Disjoint(AllIndexes(ps[..|ps| - 1]), PageIndexes(ps[|ps| - 1])) <==>
            forall i :: 0 <= i < |ps| - 1 ==> !Clash(ps[i], ps[|ps| - 1])
  {
    hide Gives, Clash;
    var k := |ps| - 1;
    var last := ps[k];
    forall x
      ensures x in AllIndexes(ps[..k]) <==> GivenBySome(ps[..k], x)
      ensures x in PageIndexes(last) <==> Gives(last, x)
    {
      GivenIff(ps[..k], x);
      GivesIff(last, x);
    }
    forall i | 0 <= i < k
      ensures (exists x :: Gives(ps[i], x) && Gives(last, x)) <==> Clash(ps[i], last)
    {
      SharedIndexIff(ps[i], last);
    }
    assert forall i :: 0 <= i < k ==> ps[..k][i] == ps[i];
  }

  lemma {:induction false} DistinctIff(ps: seq<PageAt>)
    requires InTurn(ps)
    ensures Distinct(AllIndexes(ps)) <==> NoClash(ps)
  {
    if ps != [] {
      hide Distinct, Clash;
      var k := |ps| - 1;
      DistinctIff(ps[..k]);
      LastPage(ps);
      DistinctAppend(AllIndexes(ps[..k]), PageIndexes(ps[k]));
      PageDistinct(ps[k]);
      assert forall i :: 0 <= i < k ==> ps[..k][i] == ps[i];
    }
  }

  lemma PageDistinct(p: PageAt)
    ensures Distinct(PageIndexes(p))
  {
  }

  /** How many entries the pages so far held: what a client counts for itself. */
  function Counted(resps: seq<Response>): nat {
    if resps == [] then 0
    else
      var k := |resps| - 1;
      Counted(resps[..k]) + if resps[k].Page? then resps[k].count else 0
  }

  function PagesOf(resps: seq<Response>): seq<PageAt> {
    if resps == [] then []
    else
      var k := |resps| - 1;
      PagesOf(resps[..k]) + if resps[k].Page? then [PageAt(Counted(resps[..k]), resps[k].count)] else []
  }

  function Indexes(ds: seq<Seen>): (r: seq<nat>)
    ensures |r| == |ds| && forall k :: 0 <= k < |ds| ==> r[k] == ds[k].record.index
  {
    seq(|ds|, k requires 0 <= k < |ds| => ds[k].record.index)
  }

  lemma RunPrefix(sts: seq<DirState>, reqs: seq<Request>, resps: seq<Response>)
    requires Run(sts, reqs, resps) && reqs != []
    ensures var k := |reqs| - 1; Run(sts[..k + 1], reqs[..k], resps[..k])
  {
    hide Query, Sane;
  }

  /** The handle is where the client's own count says. */
  lemma {:induction false} PositionIsCount(sts: seq<DirState>, reqs: seq<Request>, resps: seq<Response>)
    requires Run(sts, reqs, resps)
    ensures Sane(sts[|reqs|]) && Start(sts[|reqs|]) == sts[|reqs|].position == Counted(resps)
    decreases |reqs|
  {
    if reqs != [] {
      hide PageOf;
      var k := |reqs| - 1;
      RunPrefix(sts, reqs, resps);
      PositionIsCount(sts[..k + 1], reqs[..k], resps[..k]);
      assert Query(sts[k], reqs[k], sts[k + 1], resps[k]);
      QueryKeepsSane(sts[k], reqs[k], sts[k + 1], resps[k]);
      if resps[k].Page? {
        PageIsAnswer(sts[k], reqs[k], sts[k + 1], resps[k]);
      } else {
        OthersStay(sts[k], reqs[k], sts[k + 1], resps[k]);
      }
    }
  }

  /** No index of the run wraps round. */
  predicate Small(resps: seq<Response>) {
    2 * Counted(resps) < 0x1_0000_0000
  }

  lemma PageIndexesAre(es: seq<Entry>, pos: nat, req: Request, n: nat, buffer: seq<byte>)
    requires pos <= |es| && req.cls != Unsupported && PageOf(es, pos, req, n, buffer) && pos + 2 * n < 0x1_0000_0000
    ensures Indexes(PageEntries(req.cls, buffer)) == PageIndexes(PageAt(pos, n))
  {
    hide PageOf, PageEntries, Shows, Walk, LastLinkIsZero, AllTell, Tells, Low32, Indexes, PageIndexes;
    PageDelivers(es, pos, req, n, buffer);
    PageLength(PageEntries(req.cls, buffer), es, pos, n);
    forall k | 0 <= k < n
      ensures Low32(pos + 2 * k) == pos + 2 * k
    {
      SmallModulo(pos + 2 * k);
    }
    SameIndexes(PageEntries(req.cls, buffer), PageAt(pos, n));
  }

  lemma PageLength(ds: seq<Seen>, es: seq<Entry>, pos: nat, n: nat)
    requires pos + n <= |es| && AllTell(ds, es[pos..pos + n])
    ensures |ds| == n
  {
  }

  lemma SameIndexes(ds: seq<Seen>, p: PageAt)
    requires |ds| == p.n && forall k :: 0 <= k < p.n ==> ds[k].record.index == p.pos + 2 * k
    ensures Indexes(ds) == PageIndexes(p)
  {
  }

  /** Two pages of one listing give an index twice exactly when they clash. */
  lemma PagesShareIff(
    es: seq<Entry>, pos: nat, req: Request, n: nat, buffer: seq<byte>, pos': nat, req': Request, n': nat, buffer': seq<byte>)
    requires pos + n <= pos' <= |es| && n' > 0 && req.cls != Unsupported && req'.cls != Unsupported
    requires PageOf(es, pos, req, n, buffer) && PageOf(es, pos', req', n', buffer')
    requires pos + 2 * n < 0x1_0000_0000 && pos' + 2 * n' < 0x1_0000_0000
    ensures !Disjoint(Indexes(PageEntries(req.cls, buffer)), Indexes(PageEntries(req'.cls, buffer'))) <==>
            Clash(PageAt(pos, n), PageAt(pos', n'))
  {
    hide PageOf, PageEntries, Indexes, Gives, Clash;
    PageIndexesAre(es, pos, req, n, buffer);
    PageIndexesAre(es, pos', req', n', buffer');
    SharedIndexIff(PageAt(pos, n), PageAt(pos', n'));
    forall x: nat
      ensures Gives(PageAt(pos, n), x) <==> x in PageIndexes(PageAt(pos, n))
      ensures Gives(PageAt(pos', n'), x) <==> x in PageIndexes(PageAt(pos', n'))
    {
      GivesIff(PageAt(pos, n), x);
      GivesIff(PageAt(pos', n'), x);
    }
  }

  lemma IndexesAppend(a: seq<Seen>, b: seq<Seen>)
    ensures Indexes(a + b) == Indexes(a) + Indexes(b)
  {
  }

  lemma PagesSnoc(ps: seq<PageAt>, p: PageAt)
    ensures AllIndexes(ps + [p]) == AllIndexes(ps) + PageIndexes(p)
  {
    assert (ps + [p])[..|ps|] == ps;
  }

  /** The indexes the client reads are those of its pages. */
  lemma {:induction false} DeliveredIndexes(sts: seq<DirState>, reqs: seq<Request>, resps: seq<Response>)
    requires Run(sts, reqs, resps) && Small(resps)
    ensures Indexes(Delivered(reqs, resps)) == AllIndexes(PagesOf(resps))
    decreases |reqs|
  {
    if reqs != [] {
      hide PageOf, PageEntries, Query;
      var k := |reqs| - 1;
      RunPrefix(sts, reqs, resps);
      DeliveredIndexes(sts[..k + 1], reqs[..k], resps[..k]);
      if resps[k].Page? {
        LastDelivers(sts, reqs, resps);
        IndexesAppend(Delivered(reqs[..k], resps[..k]), PageEntries(reqs[k].cls, resps[k].buffer));
        PagesSnoc(PagesOf(resps[..k]), PageAt(Counted(resps[..k]), resps[k].count));
      } else {
        assert Delivered(reqs, resps) == Delivered(reqs[..k], resps[..k]) && PagesOf(resps) == PagesOf(resps[..k]);
      }
    }
  }

  lemma LastDelivers(sts: seq<DirState>, reqs: seq<Request>, resps: seq<Response>)
    requires Run(sts, reqs, resps) && Small(resps) && reqs != [] && resps[|reqs| - 1].Page?
    ensures var k := |reqs| - 1;
            && resps[k].count > 0
            && Indexes(PageEntries(reqs[k].cls, resps[k].buffer)) == PageIndexes(PageAt(Counted(resps[..k]), resps[k].count))
  {
    hide PageOf, PageEntries;
    var k := |reqs| - 1;
    RunPrefix(sts, reqs, resps);
    PositionIsCount(sts[..k + 1], reqs[..k], resps[..k]);
    assert Query(sts[k], reqs[k], sts[k + 1], resps[k]);
    PageIsAnswer(sts[k], reqs[k], sts[k + 1], resps[k]);
    PageIndexesAre(Snapshot(sts[k], reqs[k]).value, Start(sts[k]), reqs[k], resps[k].count, resps[k].buffer);
  }

  lemma {:induction false} PagesInTurn(sts: seq<DirState>, reqs: seq<Request>, resps: seq<Response>)
    requires Run(sts, reqs, resps) && Small(resps)
    ensures InTurn(PagesOf(resps))
    ensures forall i :: 0 <= i < |PagesOf(resps)| ==> PagesOf(resps)[i].pos + PagesOf(resps)[i].n <= Counted(resps)
    decreases |reqs|
  {
    if reqs != [] {
      hide Query;
      RunPrefix(sts, reqs, resps);
      var k := |reqs| - 1;
      PagesInTurn(sts[..k + 1], reqs[..k], resps[..k]);
      if resps[k].Page? {
        LastDelivers(sts, reqs, resps);
      }
    }
  }

  /**
   The indexes that a client reads over a whole run are all different exactly when no two of its pages
   clash, which it can tell from the sizes of the pages alone.
   */
  lemma FileIndexesDistinctIff(sts: seq<DirState>, reqs: seq<Request>, resps: seq<Response>)
    requires Run(sts, reqs, resps) && Small(resps)
    ensures Distinct(Indexes(Delivered(reqs, resps))) <==> NoClash(PagesOf(resps))
  {
    hide Run, Distinct, Delivered, AllIndexes, Indexes, NoClash, InTurn, PagesOf;
    PagesInTurn(sts, reqs, resps);
    DeliveredIndexes(sts, reqs, resps);
    DistinctIff(PagesOf(resps));
  }
}
