/**
 QUERY_DIRECTORY (section 3.3.5.18 of MS-SMB2): the entry records of section 2.4 of MS-FSCC,
 the chain of NextEntryOffset links that is backpatched while the buffer grows, and the
 paging of one listing over many calls.
 */
module Directory {
  import opened Bytes
  import opened DirectoryChain
  import opened Wrappers
  import Utf16

  type FileSize = x: nat | x < 0x8000_0000_0000_0000

  /** What a listing knows of one file; directories are reported with size zero. */
  datatype Entry = Entry(name: seq<Utf16.scalar>, attrs: u32, filetime: u64, size: FileSize, isDir: bool)

  datatype InfoClass = Names | Basic | Full | Both | IdBoth | Unsupported

  // ---- One record ----

  function EndOfFile(e: Entry): FileSize {
    if e.isDir then 0 else e.size
  }

  /** Rounded up to 4 KB. */
  function AllocationSize(e: Entry): u64 {
    if e.isDir then 0 else (e.size + 4095) / 4096 * 4096
  }

  /** What is left of a number in a 32-bit field. */
  function Low32(x: nat): u32 {
    x % 0x1_0000_0000
  }

  function LinkFields(index: nat): seq<Field> {
    [Field(4, 0), Field(4, Low32(index))]
  }

  function StatFields(e: Entry): seq<Field> {
    [Field(8, e.filetime), Field(8, e.filetime), Field(8, e.filetime), Field(8, e.filetime),
     Field(8, EndOfFile(e)), Field(8, AllocationSize(e))]
  }

  /** EaSize, the empty short name and the file id, as far as the class has them. */
  function ExtraFields(cls: InfoClass, index: nat): seq<Field> {
    match cls
    case Full => [Field(4, 0)]
    case Both => [Field(4, 0), Field(1, 0), Field(1, 0), Field(24, 0)]
    case IdBoth => [Field(4, 0), Field(1, 0), Field(1, 0), Field(24, 0), Field(2, 0), Field(8, Low32(index))]
    case _ => []
  }

  /** FileNameLength, preceded by FileAttributes where the class has them. */
  function LengthFields(e: Entry, cls: InfoClass): seq<Field> {
    var length := Field(4, |Utf16.EncodeBytes(e.name)| % 0x1_0000_0000);
    if cls == Names then [length] else [Field(4, e.attrs), length]
  }

  function Format(e: Entry, cls: InfoClass, index: nat): seq<byte> {
    if cls == Names then
      EncodeFields(LinkFields(index)) + EncodeFields(LengthFields(e, cls)) + Utf16.EncodeBytes(e.name)
    else
      EncodeFields(LinkFields(index)) + EncodeFields(StatFields(e)) + EncodeFields(LengthFields(e, cls))
      + EncodeFields(ExtraFields(cls, index)) + Utf16.EncodeBytes(e.name)
  }

  /** Offset of the file name in MS-FSCC sections 2.4.10, 2.4.14, 2.4.8, 2.4.28 and 2.4.17. */
  function NameOffset(cls: InfoClass): nat {
    match cls
    case Names => 12
    case Basic => 64
    case Full => 68
    case Both => 94
    case _ => 104
  }

  datatype Decoded =
    | DecodedName(index: nat, name: seq<Utf16.scalar>)
    | DecodedEntry(index: nat, name: seq<Utf16.scalar>, stat: seq<nat>, attrs: nat, extra: seq<nat>)

  const STAT_WIDTHS: seq<nat> := [8, 8, 8, 8, 8, 8]

  /** EaSize; ShortNameLength, a reserved byte and ShortName; a reserved word and FileId. */
  function ExtraWidths(cls: InfoClass): seq<nat> {
    match cls
    case Full => [4]
    case Both => [4, 1, 1, 24]
    case IdBoth => [4, 1, 1, 24, 2, 8]
    case _ => []
  }

  function NameLength(cls: InfoClass, s: seq<byte>): nat
    requires |s| >= NameOffset(cls)
  {
    if cls == Names then FromLE(s[8..12]) else FromLE(s[60..64])
  }

  function NameField(cls: InfoClass, s: seq<byte>): seq<Utf16.scalar>
    requires |s| >= NameOffset(cls)
  {
    var from, length := NameOffset(cls), NameLength(cls, s);
    Utf16.DecodeBytes(if from + length <= |s| then s[from..from + length] else s[from..])
  }

  /** A client's reader: fixed offsets, then the name. It does not look at NextEntryOffset. */
  function DecodeRecord(cls: InfoClass, s: seq<byte>): Decoded
    requires |s| >= NameOffset(cls)
  {
    StatWidths();
    ExtraSum(cls);
    if cls == Names then DecodedName(FromLE(s[4..8]), NameField(cls, s))
    else DecodedEntry(FromLE(s[4..8]), NameField(cls, s), DecodeFields(STAT_WIDTHS, s[8..56]), FromLE(s[56..60]),
                      DecodeFields(ExtraWidths(cls), s[64..NameOffset(cls)]))
  }

  /** No extended attributes, no short name, and the index for a FileId. */
  function ExtraView(cls: InfoClass, index: nat): seq<nat> {
    match cls
    case Full => [0]
    case Both => [0, 0, 0, 0]
    case IdBoth => [0, 0, 0, 0, 0, Low32(index)]
    case _ => []
  }

  /** What the client must see of an entry: four times, end of file, allocation size, attributes, name, and the extras of the class. */
  function View(e: Entry, cls: InfoClass, index: nat): Decoded {
    var i, name := Low32(index), Utf16.StripFinalZero(e.name, 0);
    if cls == Names then DecodedName(i, name)
    else DecodedEntry(i, name, [e.filetime, e.filetime, e.filetime, e.filetime, EndOfFile(e), AllocationSize(e)], e.attrs,
                      ExtraView(cls, index))
  }

  lemma StatWidths()
    ensures Sum(STAT_WIDTHS) == 48
  {
  }

  lemma EncodePair(a: Field, b: Field)
    ensures EncodeFields([a, b]) == LE(a.value, a.width) + LE(b.value, b.width)
  {
  }

  lemma StatValues(e: Entry)
    ensures Values(StatFields(e)) == [e.filetime, e.filetime, e.filetime, e.filetime, EndOfFile(e), AllocationSize(e)]
  {
    hide EndOfFile, AllocationSize;
    var vs := Values(StatFields(e));
    assert |vs| == 6;
    assert vs[0] == e.filetime && vs[1] == e.filetime && vs[2] == e.filetime && vs[3] == e.filetime;
    assert vs[4] == EndOfFile(e) && vs[5] == AllocationSize(e);
  }

  lemma EncodeStat(e: Entry)
    ensures |EncodeFields(StatFields(e))| == 48
    ensures DecodeFields(STAT_WIDTHS, EncodeFields(StatFields(e)))
            == [e.filetime, e.filetime, e.filetime, e.filetime, EndOfFile(e), AllocationSize(e)]
  {
    StatWidths();
    Pow256Widths();
    var fs := StatFields(e);
    assert Widths(fs) == STAT_WIDTHS;
    FieldsRoundTrip(fs, []);
    assert EncodeFields(fs) + [] == EncodeFields(fs);
    StatValues(e);
  }

  lemma ExtraSum(cls: InfoClass)
    ensures cls != Names ==> Sum(ExtraWidths(cls)) <= NameOffset(cls) - 64
    ensures cls != Names && cls != Unsupported ==> Sum(ExtraWidths(cls)) == NameOffset(cls) - 64
  {
    assert Sum([4]) == 4;
    assert Sum([1, 24]) == 25 && Sum([1, 1, 24]) == 26 && Sum([4, 1, 1, 24]) == 30;
    assert Sum([2, 8]) == 10 && Sum([24, 2, 8]) == 34 && Sum([1, 24, 2, 8]) == 35;
    assert Sum([1, 1, 24, 2, 8]) == 36 && Sum([4, 1, 1, 24, 2, 8]) == 40;
  }

  lemma EncodeExtra(cls: InfoClass, index: nat)
    requires cls != Names && cls != Unsupported
    ensures |EncodeFields(ExtraFields(cls, index))| == NameOffset(cls) - 64 == Sum(ExtraWidths(cls))
    ensures DecodeFields(ExtraWidths(cls), EncodeFields(ExtraFields(cls, index))) == ExtraView(cls, index)
  {
    ExtraSum(cls);
    Pow256Widths();
    var fs := ExtraFields(cls, index);
    assert Widths(fs) == ExtraWidths(cls) && Values(fs) == ExtraView(cls, index);
    FieldsRoundTrip(fs, []);
    assert EncodeFields(fs) + [] == EncodeFields(fs);
  }

  lemma SplitFive(a: seq<byte>, b: seq<byte>, c: seq<byte>, d: seq<byte>, n: seq<byte>)
    requires |a| == 8 && |b| == 48 && |c| == 8
    ensures var r := a + b + c + d + n;
            r[..4] == a[..4] && r[4..8] == a[4..] && r[8..56] == b && r[56..60] == c[..4] && r[60..64] == c[4..]
            && r[64..64 + |d|] == d && r[64 + |d|..] == n
  {
  }

  lemma SplitThree(a: seq<byte>, c: seq<byte>, n: seq<byte>)
    requires |a| == 8 && |c| == 4
    ensures var r := a + c + n;
            r[..4] == a[..4] && r[4..8] == a[4..] && r[8..12] == c && r[12..] == n
  {
  }

  /** The parts of a record, where the client's reader looks for them. */
  ghost predicate Shaped(
    r: seq<byte>, cls: InfoClass, index: nat, stat: seq<byte>, attrs: nat, extra: seq<byte>, name: seq<byte>)
  {
    && |r| == NameOffset(cls) + |name| && r[NameOffset(cls)..] == name
    && r[..4] == LE(0, 4) && r[4..8] == LE(index, 4)
    && (if cls == Names then r[8..12] == LE(|name|, 4)
        else r[8..56] == stat && r[56..60] == LE(attrs, 4) && r[60..64] == LE(|name|, 4)
             && r[64..NameOffset(cls)] == extra)
  }

  lemma LinkBytes(index: nat)
    ensures EncodeFields(LinkFields(index)) == LE(0, 4) + LE(Low32(index), 4)
  {
  }

  lemma LengthBytes(e: Entry, cls: InfoClass)
    requires |Utf16.EncodeBytes(e.name)| < 0x1_0000_0000
    ensures EncodeFields(LengthFields(e, cls))
            == (if cls == Names then [] else LE(e.attrs, 4)) + LE(|Utf16.EncodeBytes(e.name)|, 4)
  {
    hide LE, Utf16.EncodeBytes;
    var length := Field(4, |Utf16.EncodeBytes(e.name)|);
    EncodePair(Field(4, e.attrs), length);
    assert [length][1..] == [];
    assert EncodeFields([length]) == LE(length.value, 4) + EncodeFields([]);
  }

  lemma FormatShaped(e: Entry, cls: InfoClass, index: nat)
    requires cls != Unsupported && |Utf16.EncodeBytes(e.name)| < 0x1_0000_0000
    ensures Shaped(Format(e, cls, index), cls, Low32(index), EncodeFields(StatFields(e)), e.attrs,
                   EncodeFields(ExtraFields(cls, index)), Utf16.EncodeBytes(e.name))
  {
    LinkBytes(index);
    LengthBytes(e, cls);
    var link, mid, name := EncodeFields(LinkFields(index)), EncodeFields(LengthFields(e, cls)), Utf16.EncodeBytes(e.name);
    if cls == Names {
      SplitThree(link, mid, name);
    } else {
      EncodeStat(e);
      EncodeExtra(cls, index);
      SplitFive(link, EncodeFields(StatFields(e)), mid, EncodeFields(ExtraFields(cls, index)), name);
    }
  }

  lemma LengthRead(s: seq<byte>, r: seq<byte>, cls: InfoClass, index: nat, stat: seq<byte>, attrs: nat,
                   extra: seq<byte>, name: seq<byte>)
    requires Holds(s, r) && Shaped(r, cls, index, stat, attrs, extra, name) && |name| < 0x1_0000_0000
    ensures |s| >= NameOffset(cls) && NameLength(cls, s) == |name|
  {
    Pow256Widths();
    LERoundTrip(|name|, 4);
    if cls == Names {
      HoldsSlice(s, r, 8, 12);
    } else {
      HoldsSlice(s, r, 60, 64);
    }
  }

  lemma NameRead(s: seq<byte>, r: seq<byte>, cls: InfoClass, index: nat, stat: seq<byte>, attrs: nat,
                   extra: seq<byte>, name: seq<byte>)
    requires Holds(s, r) && Shaped(r, cls, index, stat, attrs, extra, name) && |name| < 0x1_0000_0000
    ensures |s| >= NameOffset(cls) && NameField(cls, s) == Utf16.DecodeBytes(name)
  {
    hide LE, FromLE, Utf16.DecodeBytes;
    LengthRead(s, r, cls, index, stat, attrs, extra, name);
    HoldsSlice(s, r, NameOffset(cls), |r|);
    assert r[NameOffset(cls)..|r|] == r[NameOffset(cls)..];
  }

  /** A record decodes to its source entry, whatever its link and whatever padding follows. */
  lemma RecordRoundTrip(e: Entry, cls: InfoClass, index: nat, s: seq<byte>)
    requires cls != Unsupported && |Utf16.EncodeBytes(e.name)| < 0x1_0000_0000 && Holds(s, Format(e, cls, index))
    ensures |s| >= NameOffset(cls) && DecodeRecord(cls, s) == View(e, cls, index)
  {
    var r := Format(e, cls, index);
    FormatShaped(e, cls, index);
    NameRead(s, r, cls, Low32(index), EncodeFields(StatFields(e)), e.attrs,
             EncodeFields(ExtraFields(cls, index)), Utf16.EncodeBytes(e.name));
    Utf16.RoundTrip(e.name);
    Pow256Widths();
    LERoundTrip(Low32(index), 4);
    HoldsSlice(s, r, 4, 8);
    if cls != Names {
      LERoundTrip(e.attrs, 4);
      EncodeStat(e);
      HoldsSlice(s, r, 8, 56);
      HoldsSlice(s, r, 56, 60);
      EncodeExtra(cls, index);
      HoldsSlice(s, r, 64, NameOffset(cls));
    }
  }

  // ---- One call ----

  /** One QUERY_DIRECTORY for pattern "*" without restart or index flags; `listing` is what reading the directory gives. */
  datatype Request = Request(cls: InfoClass, outLen: u32, single: bool, listing: Option<seq<Entry>>)

  datatype DirState = DirState(entries: Option<seq<Entry>>, position: nat, exhausted: bool)

  datatype Response = Page(count: nat, buffer: seq<byte>) | NoMoreFiles | BufferOverflow | NotSupported | AccessDenied

  const INITIAL: DirState := DirState(None, 0, false)

  /** The records of a page: the loop of FillPage makes the index grow by two per entry. */
  function Formatted(es: seq<Entry>, cls: InfoClass, index: nat): (rs: seq<seq<byte>>)
    ensures |rs| == |es|
  {
    seq(|es|, k requires 0 <= k < |es| => Format(es[k], cls, index + 2 * k))
  }

  lemma FormattedAt(es: seq<Entry>, cls: InfoClass, index: nat)
    ensures forall k :: 0 <= k < |es| ==> Formatted(es, cls, index)[k] == Format(es[k], cls, index + 2 * k)
  {
    hide Format;
  }

  lemma FormatIsRecord(e: Entry, cls: InfoClass, index: nat)
    ensures IsRecord(Format(e, cls, index))
  {
  }

  lemma FormattedRecords(es: seq<Entry>, cls: InfoClass, index: nat)
    ensures Records(Formatted(es, cls, index))
  {
    hide Format, IsRecord, Formatted;
    FormattedAt(es, cls, index);
    forall k | 0 <= k < |es|
      ensures IsRecord(Formatted(es, cls, index)[k])
    {
      FormatIsRecord(es[k], cls, index + 2 * k);
    }
  }

  function Snapshot(st: DirState, req: Request): Option<seq<Entry>> {
    if st.entries.Some? then st.entries else req.listing
  }

  function Start(st: DirState): nat {
    if st.entries.Some? then st.position else 0
  }

  predicate Sane(st: DirState) {
    && (st.entries.None? ==> !st.exhausted && st.position == 0)
    && (st.entries.Some? ==> st.position <= |st.entries.value| && (st.exhausted ==> st.position == |st.entries.value|))
  }

  /** `n` entries from `pos` on make the page that fits the client's buffer. */
  predicate PageOf(es: seq<Entry>, pos: nat, req: Request, n: nat, buffer: seq<byte>)
    requires pos <= |es|
  {
    var rs := Formatted(es[pos..], req.cls, pos);
    Fills(rs, req.outLen, req.single, n) && buffer == Chain(rs[..n])
  }

  /** One call: the answer, and the state it leaves. BUFFER_OVERFLOW means that not even one entry fits. */
  predicate Query(st: DirState, req: Request, st': DirState, resp: Response)
    requires Sane(st)
  {
    var snap, pos := Snapshot(st, req), Start(st);
    if st.exhausted then st' == st && resp == NoMoreFiles
    else if snap.None? then st' == st && resp == AccessDenied
    else if pos == |snap.value| then st' == DirState(snap, pos, true) && resp == NoMoreFiles
    else if req.cls == Unsupported then st' == DirState(snap, pos, false) && resp == NotSupported
    else Answers(snap.value, pos, req, resp) && st' == After(snap.value, pos, resp)
  }

  predicate Answers(es: seq<Entry>, pos: nat, req: Request, resp: Response)
    requires pos <= |es|
  {
    match resp
    case Page(n, buffer) => n > 0 && PageOf(es, pos, req, n, buffer)
    case BufferOverflow => PageOf(es, pos, req, 0, [])
    case _ => false
  }

  function After(es: seq<Entry>, pos: nat, resp: Response): DirState {
    if resp.Page? then DirState(Some(es), pos + resp.count, pos + resp.count >= |es|) else DirState(Some(es), pos, false)
  }

  // ---- What the client gets ----

  lemma NameShorter(e: Entry, cls: InfoClass, index: nat)
    ensures |Utf16.EncodeBytes(e.name)| <= |Format(e, cls, index)|
  {
  }

  /** The slices a client visits are the entries, in order and complete. */
  ghost predicate Shows(slices: seq<seq<byte>>, es: seq<Entry>, cls: InfoClass, index: nat) {
    |slices| == |es| &&
    forall k :: 0 <= k < |es| ==> ShowsEntry(slices[k], es[k], cls, index + 2 * k)
  }

  ghost predicate ShowsEntry(slice: seq<byte>, e: Entry, cls: InfoClass, index: nat) {
    |slice| % 8 == 0 && |slice| >= NameOffset(cls) && DecodeRecord(cls, slice) == View(e, cls, index)
  }

  lemma SliceShows(e: Entry, cls: InfoClass, index: nat, slice: seq<byte>)
    requires cls != Unsupported && |Format(e, cls, index)| < 0x1_0000_0000
    requires Holds(slice, Format(e, cls, index)) && |slice| == AlignTo8(|Format(e, cls, index)|)
    ensures ShowsEntry(slice, e, cls, index)
  {
    NameShorter(e, cls, index);
    AlignFacts(|Format(e, cls, index)|);
    RecordRoundTrip(e, cls, index, slice);
  }

  /**
   Following the links of a page from its start visits exactly its entries; every slice is a multiple
   of eight bytes long, so every record starts on an 8-byte boundary; the last link is zero; and each
   record decodes to the entry it came from.
   */
  lemma PageRoundTrip(es: seq<Entry>, cls: InfoClass, index: nat, rs: seq<seq<byte>>, buffer: seq<byte>)
    requires cls != Unsupported && rs == Formatted(es, cls, index) && Records(rs)
    requires buffer == Chain(rs) && |buffer| < 0x1_0000_0000
    ensures Shows(Walk(buffer), es, cls, index)
    ensures es != [] ==> LastLinkIsZero(Walk(buffer))
  {
    hide Format, Formatted, Chain, Walk, Holds, ShowsEntry, LastLinkIsZero, Records;
    WalkChain(rs);
    FormattedAt(es, cls, index);
    var slices := Walk(buffer);
    forall k | 0 <= k < |es|
      ensures ShowsEntry(slices[k], es[k], cls, index + 2 * k)
    {
      RecordFits(rs, k);
      assert Holds(slices[k], rs[k]);
      SliceShows(es[k], cls, index + 2 * k, slices[k]);
    }
  }

  /** What a client reads of one record, and under which class. */
  datatype Seen = Seen(cls: InfoClass, record: Decoded)

  function SeenIn(cls: InfoClass, slice: seq<byte>): Seen {
    Seen(cls, if |slice| >= NameOffset(cls) then DecodeRecord(cls, slice) else DecodedName(0, []))
  }

  /** The records a client reads from a page. */
  function PageEntries(cls: InfoClass, buffer: seq<byte>): (r: seq<Seen>)
    ensures |r| == |Walk(buffer)|
    ensures forall k :: 0 <= k < |r| ==> r[k] == SeenIn(cls, Walk(buffer)[k])
  {
    var slices := Walk(buffer);
    seq(|slices|, k requires 0 <= k < |slices| => SeenIn(cls, slices[k]))
  }

  /** A record tells all that its class holds of the entry: name, times, sizes, attributes and extras. */
  predicate Tells(d: Seen, e: Entry) {
    d.record == View(e, d.cls, d.record.index)
  }

  predicate AllTell(ds: seq<Seen>, es: seq<Entry>) {
    |ds| == |es| && forall k :: 0 <= k < |es| ==> Tells(ds[k], es[k])
  }

  lemma TellsShown(cls: InfoClass, slice: seq<byte>, e: Entry, index: nat)
    requires ShowsEntry(slice, e, cls, index)
    ensures Tells(SeenIn(cls, slice), e)
    ensures SeenIn(cls, slice).record.index == Low32(index)
  {
    hide DecodeRecord;
    assert Low32(Low32(index)) == Low32(index);
  }

  lemma TellsPage(cls: InfoClass, buffer: seq<byte>, es: seq<Entry>, index: nat)
    requires Shows(Walk(buffer), es, cls, index)
    ensures AllTell(PageEntries(cls, buffer), es)
    ensures forall k :: 0 <= k < |es| ==> PageEntries(cls, buffer)[k].record.index == Low32(index + 2 * k)
  {
    hide Walk, ShowsEntry, Tells;
    forall k | 0 <= k < |es|
      ensures Tells(PageEntries(cls, buffer)[k], es[k])
      ensures PageEntries(cls, buffer)[k].record.index == Low32(index + 2 * k)
    {
      TellsShown(cls, Walk(buffer)[k], es[k], index + 2 * k);
    }
  }

  // ---- Many calls on one handle ----

  /** The enumeration state kept per file handle, updated by every call. */
  class DirectoryHandle {
    var entries: Option<seq<Entry>>
    var position: nat
    var exhausted: bool

    ghost function State(): DirState
      reads this
    {
      DirState(entries, position, exhausted)
    }

    constructor ()
      ensures State() == INITIAL
    {
      entries, position, exhausted := None, 0, false;
    }

    method QueryDirectory(req: Request) returns (resp: Response)
      requires Sane(State())
      modifies this
      ensures Query(old(State()), req, State(), resp)
    {
      hide PageOf;
      if exhausted {
        return NoMoreFiles;
      }
      if entries.None? {
        if req.listing.None? {
          return AccessDenied;
        }
        entries, position := req.listing, 0;
      }
      var pos, snap := position, entries.value;
      if pos == |snap| {
        exhausted := true;
        return NoMoreFiles;
      }
      if req.cls == Unsupported {
        return NotSupported;
      }
      resp := NextPage(snap, pos, req);
      if resp.Page? {
        position := pos + resp.count;
        if position >= |snap| {
          exhausted := true;
        }
      }
    }
  }

  /** A page, or BUFFER_OVERFLOW if not even one entry fits. */
  method NextPage(es: seq<Entry>, pos: nat, req: Request) returns (resp: Response)
    requires pos <= |es|
    ensures Answers(es, pos, req, resp)
  {
    var n, buffer := FillPage(es, pos, req);
    if n == 0 {
      assert Formatted(es[pos..], req.cls, pos)[..0] == [];
      resp := BufferOverflow;
    } else {
      resp := Page(n, buffer);
    }
  }

  /**
   The entry loop. It numbers a record by the sum of the handle's position and its own count, and advances
   both; it stops at the first record that does not fit, or after one if only one is wanted.
   */
  method FillPage(es: seq<Entry>, pos: nat, req: Request) returns (entryCount: nat, buffer: seq<byte>)
    requires pos <= |es|
    ensures PageOf(es, pos, req, entryCount, buffer)
  {
    hide Format, Formatted, LastStart, AllLinked, Padded;
    var w := new ByteWriter();
    var matched, position := es[pos..], pos;
    ghost var rs := Formatted(matched, req.cls, pos);
    FormattedAt(matched, req.cls, pos);
    FormattedRecords(matched, req.cls, pos);
    var prevStart: Option<nat> := None;
    entryCount := 0;
    assert rs[..0] == [];
    while entryCount < |matched|
      invariant entryCount <= |matched| && position == pos + entryCount && (req.single ==> entryCount == 0)
      invariant w.data == Chain(rs[..entryCount]) && |Chain(rs[..entryCount])| <= req.outLen
      invariant prevStart == PrevStart(rs[..entryCount])
    {
      var entryData := Format(matched[entryCount], req.cls, position + entryCount);
      assert entryData == rs[entryCount];
      if |w.data| + AlignTo8(|entryData|) > req.outLen {
        break;
      }
      PageGrows(rs, entryCount);
      var entryStart := |w.data|;
      WriteEntry(w, prevStart, entryData);
      prevStart := Some(entryStart);
      entryCount, position := entryCount + 1, position + 1;
      if req.single {
        break;
      }
    }
    buffer := w.data;
  }

  /** A run of calls on a fresh handle: `sts` holds the state before each call and after the last. */
  ghost predicate Run(sts: seq<DirState>, reqs: seq<Request>, resps: seq<Response>) {
    && |reqs| == |resps| && |sts| == |reqs| + 1 && sts[0] == INITIAL
    && forall i :: 0 <= i < |reqs| ==> Sane(sts[i]) && Query(sts[i], reqs[i], sts[i + 1], resps[i])
  }

  /** All records delivered to the client, page after page. */
  function Delivered(reqs: seq<Request>, resps: seq<Response>): seq<Seen>
    requires |reqs| == |resps|
  {
    if resps == [] then []
    else
      var k := |resps| - 1;
      Delivered(reqs[..k], resps[..k]) + if resps[k].Page? then PageEntries(reqs[k].cls, resps[k].buffer) else []
  }

  lemma QueryKeepsSane(st: DirState, req: Request, st': DirState, resp: Response)
    requires Sane(st) && Query(st, req, st', resp)
    ensures Sane(st') && (st.entries.Some? ==> st'.entries == st.entries)
  {
  }

  lemma FormattedPrefix(es: seq<Entry>, pos: nat, n: nat, cls: InfoClass)
    requires pos + n <= |es|
    ensures Formatted(es[pos..], cls, pos)[..n] == Formatted(es[pos..pos + n], cls, pos)
  {
  }

  /** The entries of a page, as the client decodes them. */
  lemma PageDelivers(es: seq<Entry>, pos: nat, req: Request, n: nat, buffer: seq<byte>)
    requires pos <= |es| && req.cls != Unsupported && PageOf(es, pos, req, n, buffer)
    ensures |buffer| <= req.outLen && pos + n <= |es|
    ensures Shows(Walk(buffer), es[pos..pos + n], req.cls, pos)
    ensures n > 0 ==> LastLinkIsZero(Walk(buffer))
    ensures AllTell(PageEntries(req.cls, buffer), es[pos..pos + n])
    ensures forall k :: 0 <= k < n ==> PageEntries(req.cls, buffer)[k].record.index == Low32(pos + 2 * k)
  {
    FormattedPrefix(es, pos, n, req.cls);
    FormattedRecords(es[pos..pos + n], req.cls, pos);
    PageRoundTrip(es[pos..pos + n], req.cls, pos, Formatted(es[pos..pos + n], req.cls, pos), buffer);
    TellsPage(req.cls, buffer, es[pos..pos + n], pos);
  }

  /** A successful call moves on by the entries of its page. */
  lemma PageIsAnswer(st: DirState, req: Request, st': DirState, resp: Response)
    requires Sane(st) && Query(st, req, st', resp) && resp.Page?
    ensures var snap := Snapshot(st, req);
            && snap.Some? && Start(st) < |snap.value| && req.cls != Unsupported && resp.count > 0
            && PageOf(snap.value, Start(st), req, resp.count, resp.buffer)
            && st' == After(snap.value, Start(st), resp)
  {
    hide PageOf;
  }

  lemma OthersStay(st: DirState, req: Request, st': DirState, resp: Response)
    requires Sane(st) && Query(st, req, st', resp) && !resp.Page?
    ensures st'.position == Start(st)
    ensures resp.NoMoreFiles? ==> st'.entries.Some? && st'.position == |st'.entries.value|
  {
  }

  lemma AllTellAppend(ds: seq<Seen>, es: seq<Entry>, i: nat, j: nat, more: seq<Seen>)
    requires i <= j <= |es| && AllTell(ds, es[..i]) && AllTell(more, es[i..j])
    ensures AllTell(ds + more, es[..j])
  {
    hide Tells;
  }

  /**
   Over any sequence of calls with any buffer sizes, classes and single-entry flags, the pages the
   client decodes concatenate to exactly the first `position` entries of one listing, in all their fields.
   */
  lemma {:induction false} PagingIsComplete(sts: seq<DirState>, reqs: seq<Request>, resps: seq<Response>)
    requires Run(sts, reqs, resps)
    ensures var st := sts[|reqs|];
            Sane(st) && AllTell(Delivered(reqs, resps), if st.entries.Some? then st.entries.value[..st.position] else [])
    decreases |reqs|
  {
    hide PageOf, PageEntries, Walk, Shows, LastLinkIsZero, Tells;
    if reqs != [] {
      var k := |reqs| - 1;
      PagingIsComplete(sts[..k + 1], reqs[..k], resps[..k]);
      var st, st' := sts[k], sts[k + 1];
      assert Query(st, reqs[k], st', resps[k]);
      QueryKeepsSane(st, reqs[k], st', resps[k]);
      if resps[k].Page? {
        PageIsAnswer(st, reqs[k], st', resps[k]);
        PageDelivers(st'.entries.value, Start(st), reqs[k], resps[k].count, resps[k].buffer);
        AllTellAppend(Delivered(reqs[..k], resps[..k]), st'.entries.value, Start(st), st'.position,
                      PageEntries(reqs[k].cls, resps[k].buffer));
      } else {
        OthersStay(st, reqs[k], st', resps[k]);
      }
    }
  }

  /** NO_MORE_FILES is answered only when the whole listing has been delivered, once and in order. */
  lemma NoMoreFilesMeansAll(sts: seq<DirState>, reqs: seq<Request>, resps: seq<Response>)
    requires Run(sts, reqs, resps) && reqs != [] && resps[|resps| - 1] == NoMoreFiles
    ensures var st := sts[|reqs|]; st.entries.Some? && AllTell(Delivered(reqs, resps), st.entries.value)
  {
    var k := |reqs| - 1;
    PagingIsComplete(sts, reqs, resps);
    var st, st' := sts[k], sts[k + 1];
    assert Query(st, reqs[k], st', resps[k]);
    OthersStay(st, reqs[k], st', resps[k]);
    assert st'.entries.value[..st'.position] == st'.entries.value;
  }

  /** A page is answered exactly when the next entry fits the client's buffer. */
  lemma AnswersIff(es: seq<Entry>, pos: nat, req: Request, resp: Response)
    requires pos < |es| && Answers(es, pos, req, resp)
    ensures resp.Page? <==> AlignTo8(|Format(es[pos], req.cls, pos)|) <= req.outLen
  {
    hide Format, Formatted, Chain, Records;
    var rs := Formatted(es[pos..], req.cls, pos);
    FormattedRecords(es[pos..], req.cls, pos);
    FormattedAt(es[pos..], req.cls, pos);
    assert rs[0] == Format(es[pos], req.cls, pos);
    assert rs[..0] == [];
    NoChain();
    if resp.Page? {
      FirstFits(rs, resp.count);
    }
  }

  /** A call makes progress unless the listing is done, unreadable, of an unknown class, or its next entry is too big. */
  lemma CallAdvancesIff(st: DirState, req: Request, st': DirState, resp: Response)
    requires Sane(st) && Query(st, req, st', resp)
    ensures resp.Page? <==>
      && Snapshot(st, req).Some? && Start(st) < |Snapshot(st, req).value|
      && req.cls != Unsupported
      && AlignTo8(|Format(Snapshot(st, req).value[Start(st)], req.cls, Start(st))|) <= req.outLen
  {
    var snap, pos := Snapshot(st, req), Start(st);
    if !st.exhausted && snap.Some? && pos < |snap.value| && req.cls != Unsupported {
      AnswersIff(snap.value, pos, req, resp);
    }
  }

  // ---- Sizes, statuses and full pages ----

  /** A file is reported with its size, and allocated in whole pages of 4096 bytes, as few as hold it; a directory with nothing. */
  lemma SizesMean(e: Entry, index: nat)
    ensures var stat := View(e, Full, index).stat;
            && |stat| == 6 && (forall i :: 0 <= i < 4 ==> stat[i] == e.filetime)
            && stat[4] == (if e.isDir then 0 else e.size)
            && stat[5] % 4096 == 0 && stat[4] <= stat[5] < stat[4] + 4096
  {
  }

  /** The answer of every call that delivers no page. */
  lemma AnswerIff(st: DirState, req: Request, st': DirState, resp: Response)
    requires Sane(st) && Query(st, req, st', resp)
    ensures resp.NoMoreFiles? <==>
            st.exhausted || (Snapshot(st, req).Some? && Start(st) == |Snapshot(st, req).value|)
    ensures resp.AccessDenied? <==> st.entries.None? && req.listing.None?
    ensures resp.NotSupported? <==>
            !st.exhausted && Snapshot(st, req).Some? && Start(st) < |Snapshot(st, req).value| && req.cls == Unsupported
    ensures !resp.Page? ==> st'.position == Start(st)
    ensures resp.NoMoreFiles? ==> st'.exhausted
  {
    hide PageOf;
  }

  /** A page stops only at the end of the listing, after one entry if only one is wanted, or before an entry that does not fit. */
  lemma PageIsFull(es: seq<Entry>, pos: nat, req: Request, n: nat, buffer: seq<byte>)
    requires pos <= |es| && PageOf(es, pos, req, n, buffer)
    ensures pos + n <= |es| && |buffer| <= req.outLen && (req.single ==> n <= 1)
    ensures pos + n == |es| || (req.single && n == 1)
            || |buffer| + AlignTo8(|Format(es[pos + n], req.cls, pos + 2 * n)|) > req.outLen
  {
    hide Format, Formatted, Chain, AlignTo8;
    FormattedAt(es[pos..], req.cls, pos);
  }
}
