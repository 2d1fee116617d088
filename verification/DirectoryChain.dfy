/**
 A page of directory records: records one after another, each but the last linked to its
 successor by a NextEntryOffset that is patched once the successor is known to fit.
 Nothing here depends on what a record contains beyond its link.
 */
module DirectoryChain {
  import opened Bytes
  import opened Wrappers

  /** A buffer slice that holds a record, except perhaps for its link. */
  ghost predicate Holds(s: seq<byte>, r: seq<byte>) {
    4 <= |r| <= |s| && s[4..|r|] == r[4..]
  }

  lemma HoldsSlice(s: seq<byte>, r: seq<byte>, i: nat, j: nat)
    requires Holds(s, r) && 4 <= i <= j <= |r|
    ensures s[i..j] == r[i..j]
  {
    forall k | i <= k < j
      ensures s[k] == r[k]
    {
      assert s[k] == s[4..|r|][k - 4] && r[k] == r[4..][k - 4];
    }
  }

  /** A record before it is linked. */
  predicate IsRecord(r: seq<byte>) {
    4 <= |r| && r[..4] == LE(0, 4)
  }

  predicate Records(rs: seq<seq<byte>>) {
    forall i :: 0 <= i < |rs| ==> IsRecord(rs[i])
  }

  function Padded(r: seq<byte>): (p: seq<byte>)
    ensures |p| == AlignTo8(|r|)
  {
    AlignFacts(|r|);
    r + Zeros(PadTo8(|r|))
  }

  /** A padded record that points to its successor. */
  function Linked(r: seq<byte>): (s: seq<byte>)
    ensures |r| >= 4 ==> |s| == AlignTo8(|r|)
  {
    LE(AlignTo8(|r|), 4) + if |r| < 4 then [] else Padded(r)[4..]
  }

  function AllLinked(rs: seq<seq<byte>>): seq<byte>
  {
    if rs == [] then [] else Linked(rs[0]) + AllLinked(rs[1..])
  }

  function Chain(rs: seq<seq<byte>>): seq<byte>
  {
    if rs == [] then [] else AllLinked(rs[..|rs| - 1]) + Padded(rs[|rs| - 1])
  }

  lemma NoChain()
    ensures Chain([]) == []
  {
  }

  /** Where the last record of a chain starts. */
  function LastStart(rs: seq<seq<byte>>): nat
    requires rs != []
  {
    |AllLinked(rs[..|rs| - 1])|
  }

  // ---- Reading: following the links ----

  /** What a client visits by following NextEntryOffset from the start of a buffer. */
  function Walk(s: seq<byte>): seq<seq<byte>> {
    if |s| < 4 then []
    else
      var next := FromLE(s[..4]);
      if next == 0 || next > |s| then [s] else [s[..next]] + Walk(s[next..])
  }

  /** Each visited slice holds its record, and slices start and end on multiples of eight. */
  ghost predicate Visits(slices: seq<seq<byte>>, rs: seq<seq<byte>>) {
    |slices| == |rs| &&
    forall i :: 0 <= i < |rs| ==> Holds(slices[i], rs[i]) && |slices[i]| == AlignTo8(|rs[i]|)
  }

  ghost predicate LastLinkIsZero(slices: seq<seq<byte>>) {
    slices != [] && |slices[|slices| - 1]| >= 4 && FromLE(slices[|slices| - 1][..4]) == 0
  }

  lemma LinkedStart(r: seq<byte>, tail: seq<byte>)
    requires IsRecord(r) && AlignTo8(|r|) < 0x1_0000_0000
    ensures FromLE((Linked(r) + tail)[..4]) == AlignTo8(|r|)
  {
    Pow256Widths();
    LERoundTrip(AlignTo8(|r|), 4);
    assert (Linked(r) + tail)[..4] == LE(AlignTo8(|r|), 4);
  }

  lemma WalkStep(r: seq<byte>, tail: seq<byte>)
    requires IsRecord(r) && AlignTo8(|r|) < 0x1_0000_0000
    ensures Walk(Linked(r) + tail) == [Linked(r)] + Walk(tail)
  {
    var s, next := Linked(r) + tail, AlignTo8(|r|);
    LinkedStart(r, tail);
    assert s[..next] == Linked(r) && s[next..] == tail;
  }

  lemma LinkedHolds(r: seq<byte>)
    requires IsRecord(r)
    ensures Holds(Linked(r), r)
  {
    assert Linked(r)[4..|r|] == Padded(r)[4..|r|] == r[4..];
  }

  lemma WalkLast(r: seq<byte>)
    requires IsRecord(r)
    ensures Walk(Padded(r)) == [Padded(r)] && Holds(Padded(r), r) && FromLE(Padded(r)[..4]) == 0
  {
    LERoundTrip(0, 4);
    assert Padded(r)[..4] == r[..4];
    assert Padded(r)[4..|r|] == r[4..];
  }

  /** Linked records lead on to whatever follows them. */
  lemma {:induction false} WalkLinked(rs: seq<seq<byte>>, tail: seq<byte>)
    requires Records(rs) && |AllLinked(rs)| < 0x1_0000_0000
    ensures Walk(AllLinked(rs) + tail) == LinkedSlices(rs) + Walk(tail)
    decreases |rs|
  {
    if rs == [] {
      assert AllLinked(rs) + tail == tail;
    } else {
      var more := AllLinked(rs[1..]) + tail;
      assert AllLinked(rs) + tail == Linked(rs[0]) + more;
      WalkStep(rs[0], more);
      WalkLinked(rs[1..], tail);
    }
  }

  function LinkedSlices(rs: seq<seq<byte>>): (ss: seq<seq<byte>>)
    ensures |ss| == |rs| && forall i :: 0 <= i < |rs| ==> ss[i] == Linked(rs[i])
  {
    if rs == [] then [] else [Linked(rs[0])] + LinkedSlices(rs[1..])
  }

  lemma WalkSlices(rs: seq<seq<byte>>)
    requires rs != [] && Records(rs) && |Chain(rs)| < 0x1_0000_0000
    ensures Walk(Chain(rs)) == LinkedSlices(rs[..|rs| - 1]) + [Padded(rs[|rs| - 1])]
  {
    WalkLinked(rs[..|rs| - 1], Padded(rs[|rs| - 1]));
    WalkLast(rs[|rs| - 1]);
  }

  lemma LinkedVisits(rs: seq<seq<byte>>)
    requires Records(rs)
    ensures Visits(LinkedSlices(rs), rs)
  {
    forall i | 0 <= i < |rs|
      ensures Holds(LinkedSlices(rs)[i], rs[i])
    {
      LinkedHolds(rs[i]);
    }
  }

  lemma VisitsSnoc(slices: seq<seq<byte>>, rs: seq<seq<byte>>, slice: seq<byte>, r: seq<byte>)
    requires Visits(slices, rs) && Holds(slice, r) && |slice| == AlignTo8(|r|)
    ensures Visits(slices + [slice], rs + [r])
  {
  }

  lemma EndsInZero(slices: seq<seq<byte>>, last: seq<byte>)
    requires |last| >= 4 && FromLE(last[..4]) == 0
    ensures LastLinkIsZero(slices + [last])
  {
  }

  lemma WalkNonEmpty(init: seq<seq<byte>>, last: seq<byte>)
    requires Records(init + [last]) && |Chain(init + [last])| < 0x1_0000_0000
    ensures Visits(Walk(Chain(init + [last])), init + [last])
    ensures LastLinkIsZero(Walk(Chain(init + [last])))
  {
    hide Walk, Chain, Visits, Holds, AllLinked, LastLinkIsZero, FromLE, Linked;
    var rs := init + [last];
    assert rs[..|rs| - 1] == init && rs[|rs| - 1] == last;
    assert forall i :: 0 <= i < |init| ==> init[i] == rs[i];
    WalkSlices(rs);
    WalkLast(last);
    LinkedVisits(init);
    VisitsSnoc(LinkedSlices(init), init, Padded(last), last);
    EndsInZero(LinkedSlices(init), Padded(last));
  }

  /** Following the links from the start visits every record once, in order, and ends at a zero link. */
  lemma WalkChain(rs: seq<seq<byte>>)
    requires Records(rs) && |Chain(rs)| < 0x1_0000_0000
    ensures Visits(Walk(Chain(rs)), rs)
    ensures rs != [] ==> LastLinkIsZero(Walk(Chain(rs)))
  {
    if rs != [] {
      assert rs == rs[..|rs| - 1] + [rs[|rs| - 1]];
      WalkNonEmpty(rs[..|rs| - 1], rs[|rs| - 1]);
    }
  }

  // ---- Writing: one backpatch per record ----

  lemma {:induction false} AllLinkedSnoc(rs: seq<seq<byte>>, r: seq<byte>)
    requires Records(rs) && IsRecord(r)
    ensures Records(rs + [r]) && AllLinked(rs + [r]) == AllLinked(rs) + Linked(r)
  {
    if rs == [] {
      assert rs + [r] == [r];
      assert AllLinked([r]) == Linked(r) + AllLinked([r][1..]);
    } else {
      AllLinkedSnoc(rs[1..], r);
      assert (rs + [r])[1..] == rs[1..] + [r];
      assert Linked(rs[0]) + (AllLinked(rs[1..]) + Linked(r)) == Linked(rs[0]) + AllLinked(rs[1..]) + Linked(r);
    }
  }

  lemma {:induction false} AllLinkedAligned(rs: seq<seq<byte>>)
    requires Records(rs)
    ensures |AllLinked(rs)| % 8 == 0
  {
    if rs != [] {
      AllLinkedAligned(rs[1..]);
      AlignFacts(|rs[0]|);
      AddAligned(AlignTo8(|rs[0]|), |AllLinked(rs[1..])|);
    }
  }

  lemma AddAligned(a: nat, b: nat)
    requires a % 8 == 0 && b % 8 == 0
    ensures (a + b) % 8 == 0
  {
  }

  lemma ChainAligned(rs: seq<seq<byte>>)
    requires Records(rs)
    ensures |Chain(rs)| % 8 == 0
  {
    if rs != [] {
      AllLinkedAligned(rs[..|rs| - 1]);
      AlignFacts(|rs[|rs| - 1]|);
      AddAligned(|AllLinked(rs[..|rs| - 1])|, AlignTo8(|rs[|rs| - 1]|));
    }
  }

  lemma PatchLast(head: seq<byte>, r: seq<byte>)
    requires IsRecord(r)
    ensures Splice(head + Padded(r), |head|, LE(AlignTo8(|r|), 4)) == head + Linked(r)
  {
  }

  lemma ChainUnsnoc(rs: seq<seq<byte>>, r: seq<byte>)
    requires Records(rs) && IsRecord(r)
    ensures Records(rs + [r]) && Chain(rs + [r]) == AllLinked(rs) + Padded(r)
    ensures LastStart(rs + [r]) == |AllLinked(rs)|
  {
  }

  /** Appending to a chain is one backpatch in the previous record and one padded write. */
  lemma ChainSnoc(init: seq<seq<byte>>, last: seq<byte>, r: seq<byte>)
    requires Records(init) && IsRecord(last) && IsRecord(r)
    ensures Records(init + [last]) && Records(init + [last] + [r])
    ensures var data, at := Chain(init + [last]), LastStart(init + [last]);
            at + 4 <= |data| && Chain(init + [last] + [r]) == Splice(data, at, LE(|data| - at, 4)) + Padded(r)
  {
    ChainUnsnoc(init, last);
    ChainUnsnoc(init + [last], r);
    AllLinkedSnoc(init, last);
    PatchLast(AllLinked(init), last);
  }

  lemma ChainFirst(r: seq<byte>)
    requires IsRecord(r)
    ensures Chain([r]) == Padded(r) && LastStart([r]) == 0
  {
    assert [r][..0] == [];
    assert [] + Padded(r) == Padded(r);
  }

  lemma ChainSnocStart(rs: seq<seq<byte>>, r: seq<byte>)
    requires Records(rs) && IsRecord(r)
    ensures Records(rs + [r]) && LastStart(rs + [r]) == |Chain(rs)|
    ensures |Chain(rs + [r])| == |Chain(rs)| + AlignTo8(|r|)
  {
    ChainUnsnoc(rs, r);
    if rs != [] {
      AllLinkedSnoc(rs[..|rs| - 1], rs[|rs| - 1]);
      assert rs[..|rs| - 1] + [rs[|rs| - 1]] == rs;
    }
  }

  lemma ChainPad(rs: seq<seq<byte>>, r: seq<byte>)
    requires Records(rs)
    ensures r + Zeros(PadTo8(|Chain(rs)| + |r|)) == Padded(r)
  {
    ChainAligned(rs);
    PadAfterAligned(|Chain(rs)|, |r|);
  }

  /** What one iteration leaves in the buffer. */
  function Appended(data: seq<byte>, prevStart: Option<nat>, r: seq<byte>): seq<byte>
    requires prevStart.Some? ==> prevStart.value + 4 <= |data|
  {
    var patched := if prevStart.None? then data
                   else Splice(data, prevStart.value, LE(|data| - prevStart.value, 4));
    patched + (r + Zeros(PadTo8(|data| + |r|)))
  }

  /** Where the last of the records written so far starts. */
  function PrevStart(rs: seq<seq<byte>>): Option<nat>
  {
    if rs == [] then None else Some(LastStart(rs))
  }

  lemma AppendedFirst(r: seq<byte>)
    requires IsRecord(r)
    ensures Appended([], None, r) == Chain([r])
  {
    ChainPad([], r);
    ChainFirst(r);
    assert [] + Padded(r) == Padded(r);
  }

  lemma AppendedNext(init: seq<seq<byte>>, last: seq<byte>, r: seq<byte>)
    requires Records(init) && IsRecord(last) && IsRecord(r)
    ensures Records(init + [last]) && Records(init + [last] + [r])
    ensures var rs := init + [last];
            LastStart(rs) + 4 <= |Chain(rs)| && Appended(Chain(rs), Some(LastStart(rs)), r) == Chain(rs + [r])
  {
    hide Chain, AllLinked, LastStart, Padded, Splice, LE;
    ChainSnoc(init, last, r);
    ChainPad(init + [last], r);
  }

  /** The writes of one iteration turn the page of `n` records into the page of `n + 1`. */
  lemma PageGrows(rs: seq<seq<byte>>, n: nat)
    requires Records(rs) && n < |rs|
    ensures PrevStart(rs[..n]).Some? ==> PrevStart(rs[..n]).value + 4 <= |Chain(rs[..n])|
    ensures Appended(Chain(rs[..n]), PrevStart(rs[..n]), rs[n]) == Chain(rs[..n + 1])
    ensures PrevStart(rs[..n + 1]) == Some(|Chain(rs[..n])|)
    ensures |Chain(rs[..n + 1])| == |Chain(rs[..n])| + AlignTo8(|rs[n]|)
  {
    assert rs[..n + 1] == rs[..n] + [rs[n]];
    ChainSnocStart(rs[..n], rs[n]);
    if n == 0 {
      AppendedFirst(rs[0]);
      assert rs[..1] == [rs[0]];
    } else {
      assert rs[..n] == rs[..n - 1] + [rs[n - 1]];
      AppendedNext(rs[..n - 1], rs[n - 1], rs[n]);
    }
  }

  /** Backpatches the previous record if there is one, appends this one, pads. */
  method WriteEntry(w: ByteWriter, prevStart: Option<nat>, r: seq<byte>)
    requires prevStart.Some? ==> prevStart.value + 4 <= |w.data|
    modifies w
    ensures w.data == Appended(old(w.data), prevStart, r)
  {
    var entryStart := |w.data|;
    if prevStart.Some? {
      w.SetUint32At(prevStart.value, entryStart - prevStart.value);
    }
    ghost var patched := w.data;
    w.WriteBytes(r);
    w.WritePadTo8();
    assert patched + r + Zeros(PadTo8(entryStart + |r|)) == patched + (r + Zeros(PadTo8(entryStart + |r|)));
  }

  // ---- Filling a page ----

  /** `n` is the longest prefix of the records that fits in `outLen` bytes, or one record if only one is wanted. */
  predicate Fills(rs: seq<seq<byte>>, outLen: nat, single: bool, n: nat)
  {
    && n <= |rs| && (single ==> n <= 1)
    && |Chain(rs[..n])| <= outLen
    && (n == |rs| || (single && n == 1) || |Chain(rs[..n])| + AlignTo8(|rs[n]|) > outLen)
  }

  lemma {:induction false} RecordFits(rs: seq<seq<byte>>, i: nat)
    requires Records(rs) && i < |rs|
    ensures |rs[i]| <= |Chain(rs)|
    decreases |rs|
  {
    var k := |rs| - 1;
    assert rs == rs[..k] + [rs[k]];
    ChainSnocStart(rs[..k], rs[k]);
    if i < k {
      RecordFits(rs[..k], i);
    }
  }

  /** A page is non-empty exactly when its first record fits. */
  lemma {:induction false} FirstFits(rs: seq<seq<byte>>, n: nat)
    requires Records(rs) && 0 < n <= |rs|
    ensures AlignTo8(|rs[0]|) <= |Chain(rs[..n])|
  {
    assert rs[..n] == rs[..n - 1] + [rs[n - 1]];
    ChainSnocStart(rs[..n - 1], rs[n - 1]);
    if n > 1 {
      FirstFits(rs, n - 1);
    }
  }

  /** Three records of one size, with room for two of them. */
  lemma TwoOfThree(rs: seq<seq<byte>>, size: nat)
    requires Records(rs) && |rs| == 3 && size > 0 && forall i :: 0 <= i < 3 ==> AlignTo8(|rs[i]|) == size
    ensures Fills(rs, 2 * size, false, 2)
  {
    hide AlignTo8, AllLinked, Padded, Appended, PrevStart, Records;
    assert rs[..0] == [] && Chain(rs[..0]) == [];
    hide Chain;
    PageGrows(rs, 0);
    PageGrows(rs, 1);
    assert AlignTo8(|rs[0]|) == AlignTo8(|rs[1]|) == AlignTo8(|rs[2]|) == size;
  }
}
