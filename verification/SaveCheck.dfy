/**
 The world check of internal/backup/worldcheck.go over a 1.0 world directory: what it gathers from
 the files, what it reports of the newest save, and the encoding it takes a save to follow.
*/
module SaveCheck {
  import opened Optional
  import opened Bytes
  import opened ChunkName

  datatype Ext = Db2 | Fwl2 | Chunks | Ok

  /** A world directory: the `_main.<generation>` files and the chunk files, by content. */
  datatype WorldFiles = WorldFiles(mains: map<nat, map<Ext, seq<byte>>>, chunks: map<string, seq<byte>>)

  // ----- what the check keeps while the archive streams past -----

  const MAX_MANIFEST: nat := 10 + 11 * 100000

  /** manifest is None for an index too large to hold. */
  datatype Generation = Generation(
    seen: set<Ext>, ok: seq<byte>, fwl2: seq<byte>, manifest: Option<seq<byte>>,
    db2Header: seq<byte>, db2Damaged: bool)

  datatype ChunkFile = ChunkFile(size: nat, head: seq<byte>)

  function Head(content: seq<byte>, n: nat): seq<byte> {
    if |content| < n then content else content[..n]
  }

  function ContentOf(files: map<Ext, seq<byte>>, ext: Ext): seq<byte> {
    if ext in files then files[ext] else []
  }

  /** checkDB2: the header, and whether the body it announces fails to decompress. */
  predicate Db2Damaged(content: seq<byte>, inflates: seq<byte> -> bool) {
    |content| < 16 || !inflates(Head(content[16..], Le32(content, 12)))
  }

  function Gathered(files: map<Ext, seq<byte>>, inflates: seq<byte> -> bool): Generation {
    Generation(
      files.Keys,
      Head(ContentOf(files, Ok), 8),
      Head(ContentOf(files, Fwl2), 8),
      if Chunks in files && |files[Chunks]| <= MAX_MANIFEST then Some(files[Chunks]) else None,
      Head(ContentOf(files, Db2), 16),
      Db2 in files && Db2Damaged(files[Db2], inflates))
  }

  function GatheredChunk(content: seq<byte>): ChunkFile { ChunkFile(|content|, Head(content, 6)) }

  // ----- what it reports -----

  datatype ChunkFault = Missing | Empty | Mismatch

  datatype IndexProblem =
    | TooLarge
    | ShortHeader
    | WrongLength
    | BadChunks(chunks: seq<(string, ChunkFault)>)
    | WrongTotal

  datatype Finding = SaveIncomplete | VersionMismatch | ChunkMissing(problem: IndexProblem) | Db2Broken

  datatype Verdict = Unchecked(version: uint32) | Found(findings: seq<Finding>)

  predicate Measured(version: uint32) { version == 41 || version == 42 }

  function Version(g: Generation): Option<uint32> {
    if |g.ok| != 4 then None else Some(Le32(g.ok, 0))
  }

  predicate VersionsAgree(g: Generation, want: uint32) {
    && |g.db2Header| >= 4 && Le32(g.db2Header, 0) == want
    && |g.fwl2| >= 8 && Le32(g.fwl2, 4) == want
    && g.manifest.Some? && |g.manifest.value| >= 2 && Le16(g.manifest.value, 0) == want
  }

  /** An index entry: the chunk it names and the count it repeats. */
  datatype IndexEntry = IndexEntry(id: ChunkId, count: uint32)

  function EntryAt(m: seq<byte>, i: nat): IndexEntry
    requires 21 + 11 * i <= |m|
  {
    var e := m[10 + 11 * i..21 + 11 * i];
    IndexEntry(ChunkId(e[0], e[1], e[2], Le32(e, 3)), Le32(e, 7))
  }

  function FaultOf(chunks: map<string, seq<byte>>, e: IndexEntry): Option<ChunkFault> {
    var file := Name(e.id);
    if file !in chunks then Some(Missing)
    else
      var chunk := GatheredChunk(chunks[file]);
      if chunk.size == 0 then Some(Empty)
      else if |chunk.head| < 6 || Le32(chunk.head, 2) != e.count then Some(Mismatch)
      else None
  }

  // ----- the index and its encoder -----

  /** What an index says: the world version, the total of the counts, and the entries. */
  datatype Index = Index(version: uint16, total: uint32, entries: seq<IndexEntry>)

  function EncodedEntry(e: IndexEntry): (b: seq<byte>)
    ensures |b| == 11
  {
    [e.id.e0, e.id.e1, e.id.e2] + PutLe32(e.id.word) + PutLe32(e.count)
  }

  function EncodedEntries(entries: seq<IndexEntry>): (b: seq<byte>)
    ensures |b| == 11 * |entries|
  {
    if entries == [] then []
    else EncodedEntries(entries[..|entries| - 1]) + EncodedEntry(entries[|entries| - 1])
  }

  function EncodedIndex(idx: Index): (b: seq<byte>)
    requires |idx.entries| < 0x1_0000_0000
    ensures |b| == 10 + 11 * |idx.entries|
  {
    PutLe16(idx.version) + PutLe32(idx.total) + PutLe32(|idx.entries|) + EncodedEntries(idx.entries)
  }

  /** The first n entries of an index body. */
  function EntriesOf(m: seq<byte>, n: nat): (entries: seq<IndexEntry>)
    requires 10 + 11 * n <= |m|
    ensures |entries| == n
  {
    if n == 0 then [] else EntriesOf(m, n - 1) + [EntryAt(m, n - 1)]
  }

  /** An index is readable when its length is what its count says. */
  predicate WellSized(m: seq<byte>) {
    |m| >= 10 && |m| == 10 + 11 * Le32(m, 6)
  }

  function DecodedIndex(m: seq<byte>): Index
    requires WellSized(m)
  {
    Index(Le16(m, 0), Le32(m, 2), EntriesOf(m, Le32(m, 6)))
  }

  function CountSum(entries: seq<IndexEntry>): nat {
    if entries == [] then 0 else CountSum(entries[..|entries| - 1]) + entries[|entries| - 1].count
  }

  lemma {:induction false} EntryReadBack(e: IndexEntry, m: seq<byte>, i: nat)
    requires 21 + 11 * i <= |m| && m[10 + 11 * i..21 + 11 * i] == EncodedEntry(e)
    ensures EntryAt(m, i) == e
  {
    hide PutLe32, Le32;
    var ids, word, count := [e.id.e0, e.id.e1, e.id.e2], PutLe32(e.id.word), PutLe32(e.count);
    WordIn(ids, e.id.word, count, 3);
    assert EncodedEntry(e) == ids + word + count + [];
    WordIn(ids + word, e.count, [], 7);
  }

  lemma {:induction false} EntryWrittenBack(m: seq<byte>, i: nat)
    requires 21 + 11 * i <= |m|
    ensures EncodedEntry(EntryAt(m, i)) == m[10 + 11 * i..21 + 11 * i]
  {
    hide PutLe32, Le32;
    var e := m[10 + 11 * i..21 + 11 * i];
    Le32At(e, 3);
    Le32At(e, 7);
    assert e == [e[0], e[1], e[2]] + e[3..7] + e[7..11];
  }

  lemma {:induction false} EncodedAppend(entries: seq<IndexEntry>, e: IndexEntry)
    ensures EncodedEntries(entries + [e]) == EncodedEntries(entries) + EncodedEntry(e)
  {
    hide EncodedEntry;
    assert (entries + [e])[..|entries|] == entries;
  }

  lemma {:induction false} Slices(m: seq<byte>, a: nat, b: nat, c: nat)
    requires a <= b <= c <= |m|
    ensures m[a..c] == m[a..b] + m[b..c]
  {
  }

  lemma {:induction false} EntriesStep(m: seq<byte>, n: nat)
    requires 10 + 11 * n <= |m|
    ensures n == 0 ==> EncodedEntries(EntriesOf(m, n)) == m[10..10]
    ensures n > 0 ==> EntriesOf(m, n) == EntriesOf(m, n - 1) + [EntryAt(m, n - 1)]
  {
    hide EntryAt;
  }

  lemma {:induction false} EntriesWrittenBack(m: seq<byte>, n: nat)
    requires 10 + 11 * n <= |m|
    ensures EncodedEntries(EntriesOf(m, n)) == m[10..10 + 11 * n]
  {
    hide EncodedEntry, EntryAt, EncodedEntries, EntriesOf;
    EntriesStep(m, n);
    if n > 0 {
      EntriesWrittenBack(m, n - 1);
      EntryWrittenBack(m, n - 1);
      EncodedAppend(EntriesOf(m, n - 1), EntryAt(m, n - 1));
      Slices(m, 10, 10 + 11 * (n - 1), 10 + 11 * n);
    }
  }

  lemma {:induction false} EntriesReadBack(entries: seq<IndexEntry>, m: seq<byte>)
    requires 10 + 11 * |entries| <= |m| && m[10..10 + 11 * |entries|] == EncodedEntries(entries)
    ensures EntriesOf(m, |entries|) == entries
  {
    if entries != [] {
      var n := |entries| - 1;
      var whole := m[10..10 + 11 * |entries|];
      assert whole[..11 * n] == m[10..10 + 11 * n] && whole[11 * n..] == m[10 + 11 * n..21 + 11 * n];
      assert EncodedEntries(entries) == EncodedEntries(entries[..n]) + EncodedEntry(entries[n]);
      EntriesReadBack(entries[..n], m);
      EntryReadBack(entries[n], m, n);
      hide EncodedEntry, EntryAt, EncodedEntries;
      assert entries == entries[..n] + [entries[n]];
    }
  }

  /** Reading an encoded index gives it back. */
  lemma {:induction false} IndexReadBack(idx: Index)
    requires |idx.entries| < 0x1_0000_0000
    ensures WellSized(EncodedIndex(idx)) && DecodedIndex(EncodedIndex(idx)) == idx
  {
    var m := EncodedIndex(idx);
    var v, t, c, body := PutLe16(idx.version), PutLe32(idx.total), PutLe32(|idx.entries|), EncodedEntries(idx.entries);
    assert Le16(m, 0) == idx.version by { Le16RoundTrip(idx.version, []); }
    hide PutLe32, PutLe16, Le32, Le16, EncodedEntry, EncodedEntries;
    assert m == v + t + (c + body);
    WordIn(v, idx.total, c + body, 2);
    assert m == (v + t) + c + body;
    WordIn(v + t, |idx.entries|, body, 6);
    assert m[10..10 + 11 * |idx.entries|] == body;
    EntriesReadBack(idx.entries, m);
  }

  /** Writing what was read of a well-sized index gives its bytes back. */
  lemma {:induction false} IndexWrittenBack(m: seq<byte>)
    requires WellSized(m)
    ensures EncodedIndex(DecodedIndex(m)) == m
  {
    var n := Le32(m, 6);
    HeaderWrittenBack(m);
    EntriesWrittenBack(m, n);
    BodyFollowsHeader(m, n);
    hide PutLe32, PutLe16, Le32, Le16, EncodedEntries, EntriesOf;
  }

  lemma {:induction false} BodyFollowsHeader(m: seq<byte>, n: nat)
    requires |m| == 10 + 11 * n
    ensures m[0..10] + m[10..10 + 11 * n] == m
  {
  }

  lemma {:induction false} HeaderWrittenBack(m: seq<byte>)
    requires |m| >= 10
    ensures PutLe16(Le16(m, 0)) + PutLe32(Le32(m, 2)) + PutLe32(Le32(m, 6)) == m[0..10]
  {
    Le16RoundTrip(0, m[0..2]);
    assert Le16(m, 0) == Le16(m[0..2], 0);
    hide PutLe32, PutLe16, Le32, Le16;
    Le32At(m, 2);
    Le32At(m, 6);
    Slices(m, 0, 2, 6);
    Slices(m, 0, 6, 10);
  }

  // ----- the check itself -----

  const U64: nat := 0x1_0000_0000_0000_0000

  function BadEntries(chunks: map<string, seq<byte>>, entries: seq<IndexEntry>): seq<(string, ChunkFault)> {
    if entries == [] then []
    else
      var e := entries[|entries| - 1];
      BadEntries(chunks, entries[..|entries| - 1])
      + match FaultOf(chunks, e) case None => [] case Some(fault) => [(Name(e.id), fault)]
  }

  /** What is wrong with the index, None when nothing is: sizes first, then chunks, then the total. */
  function ChunkProblem(chunks: map<string, seq<byte>>, manifest: Option<seq<byte>>): Option<IndexProblem> {
    match manifest
    case None => Some(TooLarge)
    case Some(m) =>
      if |m| < 10 then Some(ShortHeader)
      else if !WellSized(m) then Some(WrongLength)
      else
        var idx := DecodedIndex(m);
        if BadEntries(chunks, idx.entries) != [] then Some(BadChunks(BadEntries(chunks, idx.entries)))
        else if CountSum(idx.entries) != idx.total then Some(WrongTotal)
        else None
  }

  lemma {:induction false} CountSumBound(entries: seq<IndexEntry>)
    ensures CountSum(entries) <= |entries| * 0xFFFF_FFFF
  {
    if entries != [] { CountSumBound(entries[..|entries| - 1]); }
  }

  lemma {:induction false} NextEntry(chunks: map<string, seq<byte>>, m: seq<byte>, i: nat)
    requires 21 + 11 * i <= |m| && i < 100000
    ensures
      var e, before, after := EntryAt(m, i), EntriesOf(m, i), EntriesOf(m, i + 1);
      && CountSum(after) == CountSum(before) + e.count < U64
      && BadEntries(chunks, after) == BadEntries(chunks, before)
                                      + match FaultOf(chunks, e) case None => [] case Some(fault) => [(Name(e.id),
                                            fault)]
  {
    hide EntryAt, FaultOf, Name;
    assert EntriesOf(m, i + 1)[..i] == EntriesOf(m, i);
    CountSumBound(EntriesOf(m, i + 1));
  }

  lemma {:induction false} NoEntries(chunks: map<string, seq<byte>>, m: seq<byte>)
    requires |m| >= 10
    ensures EntriesOf(m, 0) == [] && CountSum(EntriesOf(m, 0)) == 0 && BadEntries(chunks, EntriesOf(m, 0)) == []
  {
  }

  /**
   chunkProblems: one pass over the entries, with a 64-bit total the size cap keeps from wrapping.
   */
  method CheckChunks(chunks: map<string, seq<byte>>, manifest: Option<seq<byte>>)
    returns (problem: Option<IndexProblem>)
    requires manifest.Some? ==> |manifest.value| <= MAX_MANIFEST
    ensures problem == ChunkProblem(chunks, manifest)
  {
    if manifest.None? { return Some(TooLarge); }
    var m := manifest.value;
    if |m| < 10 { return Some(ShortHeader); }
    var count: nat := Le32(m, 6);
    if |m| != 10 + 11 * count { return Some(WrongLength); }
    var total, bad := ReadEntries(chunks, m, count);
    hide Le32, EntriesOf, BadEntries, CountSum;
    if |bad| > 0 { return Some(BadChunks(bad)); }
    if total != Le32(m, 2) { return Some(WrongTotal); }
    return None;
  }

  method ReadEntries(chunks: map<string, seq<byte>>, m: seq<byte>, count: nat)
    returns (total: nat, bad: seq<(string, ChunkFault)>)
    requires |m| == 10 + 11 * count && count <= 100000
    ensures total == CountSum(EntriesOf(m, count)) && bad == BadEntries(chunks, EntriesOf(m, count))
  {
    hide FaultOf, EntryAt, EntriesOf, BadEntries, CountSum, Name;
    NoEntries(chunks, m);
    total, bad := 0, [];
    for i := 0 to count
      invariant total == CountSum(EntriesOf(m, i)) && bad == BadEntries(chunks, EntriesOf(m, i))
    {
      NextEntry(chunks, m, i);
      var e := EntryAt(m, i);
      var fault := FaultOf(chunks, e);
      total := (total + e.count) % U64;
      if fault.Some? {
        bad := bad + [(Name(e.id), fault.value)];
      }
    }
  }

  ghost predicate IsNewest(gens: set<nat>, n: nat) {
    n in gens && forall g :: g in gens ==> g <= n
  }

  /** slices.Max over the generations. */
  method Newest(gens: set<nat>) returns (n: nat)
    requires gens != {}
    ensures IsNewest(gens, n)
  {
    n :| n in gens;
    var left := gens - {n};
    while left != {}
      invariant n in gens && left <= gens
      invariant forall g :: g in gens && g !in left ==> g <= n
      decreases left
    {
      var g :| g in left;
      left := left - {g};
      if g > n { n := g; }
    }
  }

  predicate Complete(seen: set<Ext>) {
    Db2 in seen && Fwl2 in seen && Chunks in seen && Ok in seen
  }

  /** worldDir.attention for the newest generation's files. */
  function Judged(files: map<Ext, seq<byte>>, chunks: map<string, seq<byte>>, inflates: seq<byte> -> bool): Verdict {
    var g := Gathered(files, inflates);
    match Version(g)
    case Some(v) =>
      if !Measured(v) then Unchecked(v)
      else if !Complete(g.seen) then Found([SaveIncomplete])
      else
        Found((if VersionsAgree(g, v) then [] else [VersionMismatch])
              + (match ChunkProblem(chunks, g.manifest) case None => [] case Some(p) => [ChunkMissing(p)])
              + (if g.db2Damaged then [Db2Broken] else []))
    case None => Found([SaveIncomplete])
  }

  method Attention(world: WorldFiles, inflates: seq<byte> -> bool) returns (verdict: Verdict)
    ensures world.mains == map[] ==> verdict == Found([])
    ensures forall n :: IsNewest(world.mains.Keys, n) ==> verdict == Judged(world.mains[n], world.chunks, inflates)
  {
    hide Gathered, Le32, Le16, ChunkProblem, VersionsAgree, Measured, Complete;
    if world.mains == map[] { return Found([]); }
    var n := Newest(world.mains.Keys);
    var files := world.mains[n];
    var g := Gathered(files, inflates);
    var version := Version(g);
    if version.Some? && !Measured(version.value) { return Unchecked(version.value); }
    if !Complete(g.seen) { return Found([SaveIncomplete]); }
    if |g.ok| != 4 { return Found([SaveIncomplete]); }
    var found := [];
    if !VersionsAgree(g, version.value) { found := found + [VersionMismatch]; }
    ManifestIsSmall(files, inflates);
    var problem := CheckChunks(world.chunks, g.manifest);
    if problem.Some? { found := found + [ChunkMissing(problem.value)]; }
    if g.db2Damaged { found := found + [Db2Broken]; }
    verdict := Found(found);
  }

  lemma {:induction false} ManifestIsSmall(files: map<Ext, seq<byte>>, inflates: seq<byte> -> bool)
    ensures var m := Gathered(files, inflates).manifest; m.Some? ==> |m.value| <= MAX_MANIFEST
  {
  }

  // ----- exactly which saves pass -----

  /** The chunk file of an index entry: two bytes, the count, and anything after. */
  ghost predicate IsChunk(content: seq<byte>, count: uint32) {
    exists version, rest :: |version| == 2 && content == version + PutLe32(count) + rest
  }

  ghost predicate HoldsChunk(chunks: map<string, seq<byte>>, e: IndexEntry) {
    Name(e.id) in chunks && IsChunk(chunks[Name(e.id)], e.count)
  }

  /**
   A `.db2`: the version, the world time, a length, and a body whose first that many bytes, or all it has
   when they are fewer, inflate.
  */
  ghost predicate IsDb2(content: seq<byte>, v: uint32, inflates: seq<byte> -> bool) {
    exists time, length: uint32, body ::
      |time| == 8 && content == PutLe32(v) + time + PutLe32(length) + body && inflates(Head(body, length))
  }

  ghost predicate IsFwl2(content: seq<byte>, v: uint32) {
    exists head, rest :: |head| == 4 && content == head + PutLe32(v) + rest
  }

  /** An index in its encoding: small enough, its total its entries' sum, and every chunk there. */
  ghost predicate IsIndex(content: seq<byte>, v: uint32, chunks: map<string, seq<byte>>, idx: Index) {
    && idx.version == v && |idx.entries| <= 100000 && content == EncodedIndex(idx)
    && idx.total == CountSum(idx.entries)
    && forall i :: 0 <= i < |idx.entries| ==> HoldsChunk(chunks, idx.entries[i])
  }

  /** A save in that encoding: four files that agree on a measured version. */
  ghost predicate Intact(files: map<Ext, seq<byte>>, chunks: map<string, seq<byte>>, inflates: seq<byte> -> bool,
        v: uint32) {
    && Measured(v) && Complete(files.Keys)
    && files[Ok] == PutLe32(v)
    && IsDb2(files[Db2], v, inflates)
    && IsFwl2(files[Fwl2], v)
    && exists idx :: IsIndex(files[Chunks], v, chunks, idx)
  }

  lemma {:induction false} OkIsVersion(ok: seq<byte>, v: uint32)
    ensures |Head(ok, 8)| == 4 && Le32(Head(ok, 8), 0) == v <==> ok == PutLe32(v)
  {
    Le32OfPut(v);
    if |ok| == 4 { PutOfLe32(ok); }
    hide Le32, PutLe32;
  }

  lemma {:induction false} Db2IsRead(content: seq<byte>, v: uint32, inflates: seq<byte> -> bool)
    ensures |Head(content, 16)| >= 4 && Le32(Head(content, 16), 0) == v && !Db2Damaged(content, inflates)
            <==> IsDb2(content, v, inflates)
  {
    hide Le32, PutLe32;
    if time, length: uint32, body :|
        |time| == 8 && content == PutLe32(v) + time + PutLe32(length) + body && inflates(Head(body, length)) {
      Db2Fields(content, v, time, length, body);
    }
    if |content| >= 16 {
      Le32At(content, 0);
      Le32At(content, 12);
      Le32At(Head(content, 16), 0);
      assert content == content[0..4] + content[4..12] + content[12..16] + content[16..];
    }
  }

  lemma {:induction false} Db2Fields(content: seq<byte>, v: uint32, time: seq<byte>, length: uint32, body: seq<byte>)
    requires |time| == 8 && content == PutLe32(v) + time + PutLe32(length) + body
    ensures |content| >= 16 && content[16..] == body && Le32(content, 12) == length && Le32(Head(content, 16), 0) == v
  {
    hide Le32, PutLe32;
    WordIn(PutLe32(v) + time, length, body, 12);
    assert content[..16] == [] + PutLe32(v) + (time + PutLe32(length));
    WordIn([], v, time + PutLe32(length), 0);
  }

  lemma {:induction false} Fwl2IsRead(content: seq<byte>, v: uint32)
    ensures |Head(content, 8)| >= 8 && Le32(Head(content, 8), 4) == v <==> IsFwl2(content, v)
  {
    hide Le32, PutLe32;
    if head, rest :| |head| == 4 && content == head + PutLe32(v) + rest {
      assert content[..8] == head + PutLe32(v) + [];
      WordIn(head, v, [], 4);
      assert |content| >= 8 && (|content| == 8 ==> content[..8] == content);
    }
    if |content| >= 8 {
      Le32At(Head(content, 8), 4);
      assert Head(content, 8)[4..8] == content[4..8];
      assert content == content[0..4] + content[4..8] + content[8..];
    }
  }

  lemma {:induction false} ChunkIsRead(chunks: map<string, seq<byte>>, e: IndexEntry)
    ensures FaultOf(chunks, e).None? <==> HoldsChunk(chunks, e)
  {
    hide Le32, PutLe32, Name;
    if Name(e.id) in chunks {
      var content := chunks[Name(e.id)];
      if version, rest :| |version| == 2 && content == version + PutLe32(e.count) + rest {
        assert content[..6] == version + PutLe32(e.count) + [];
        WordIn(version, e.count, [], 2);
        assert |content| >= 6 && (|content| == 6 ==> content[..6] == content);
      }
      if |content| >= 6 {
        Le32At(Head(content, 6), 2);
        assert Head(content, 6)[2..6] == content[2..6];
        assert content == content[0..2] + content[2..6] + content[6..];
      }
    }
  }

  lemma {:induction false} NoBadEntries(chunks: map<string, seq<byte>>, entries: seq<IndexEntry>)
    ensures BadEntries(chunks, entries) == [] <==> forall i :: 0 <= i < |entries| ==> HoldsChunk(chunks, entries[i])
  {
    hide Name, HoldsChunk, FaultOf;
    if entries != [] {
      var n := |entries| - 1;
      NoBadEntries(chunks, entries[..n]);
      ChunkIsRead(chunks, entries[n]);
      assert forall i :: 0 <= i < n ==> entries[..n][i] == entries[i];
      if FaultOf(chunks, entries[n]).Some? { assert |BadEntries(chunks, entries)| > 0; }
    }
  }

  lemma {:induction false} IndexIsRead(content: seq<byte>, v: uint32, chunks: map<string, seq<byte>>)
    requires v < 0x1_0000
    ensures
      |content| <= MAX_MANIFEST && |content| >= 2 && Le16(content, 0) == v && ChunkProblem(chunks, Some(content)).None?
      <==> exists idx :: IsIndex(content, v, chunks, idx)
  {
    hide Le32, Le16, EntriesOf, BadEntries, CountSum, HoldsChunk;
    if idx :| IsIndex(content, v, chunks, idx) {
      IndexReadBack(idx);
      NoBadEntries(chunks, idx.entries);
      assert Le16(content, 0) == DecodedIndex(content).version;
    }
    if WellSized(content) {
      IndexWrittenBack(content);
      NoBadEntries(chunks, DecodedIndex(content).entries);
      hide EncodedIndex;
      var idx := DecodedIndex(content);
      if |content| <= MAX_MANIFEST && Le16(content, 0) == v && ChunkProblem(chunks, Some(content)).None? {
        assert IsIndex(content, v, chunks, idx);
      }
    }
  }

  /**
   The check is sound and complete: over a save of a measured version it reports nothing exactly
   when the save is in the encoding above: chunks, index and total in full, the body as far as it is there.
   */
  lemma {:induction false} CheckIsExact(files: map<Ext, seq<byte>>, chunks: map<string, seq<byte>>,
        inflates: seq<byte> -> bool)
    ensures Judged(files, chunks, inflates) == Found([]) <==> exists v :: Intact(files, chunks, inflates, v)
  {
    if Complete(files.Keys) {
      forall v: uint32 | Measured(v)
        ensures Intact(files, chunks, inflates, v) <==>
                  Version(Gathered(files, inflates)) == Some(v) && Judged(files, chunks, inflates) == Found([])
      {
        CheckAt(files, chunks, inflates, v);
      }
    }
  }

  lemma {:induction false} CheckAt(files: map<Ext, seq<byte>>, chunks: map<string, seq<byte>>,
        inflates: seq<byte> -> bool, v: uint32)
    requires Complete(files.Keys) && Measured(v)
    ensures Intact(files, chunks, inflates, v) <==>
              Version(Gathered(files, inflates)) == Some(v) && Judged(files, chunks, inflates) == Found([])
  {
    OkIsVersion(files[Ok], v);
    Db2IsRead(files[Db2], v, inflates);
    Fwl2IsRead(files[Fwl2], v);
    IndexIsRead(files[Chunks], v, chunks);
    hide Le32, Le16, PutLe32, Head, IsDb2, IsFwl2, IsIndex, ChunkProblem, Db2Damaged;
    var g := Gathered(files, inflates);
    if Version(g) == Some(v) {
      FindingsOf(files, chunks, inflates, v);
    }
  }

  lemma {:induction false} FindingsOf(files: map<Ext, seq<byte>>, chunks: map<string, seq<byte>>,
        inflates: seq<byte> -> bool, v: uint32)
    requires Complete(files.Keys) && Measured(v) && Version(Gathered(files, inflates)) == Some(v)
    ensures
      var g := Gathered(files, inflates);
      Judged(files, chunks, inflates) == Found([])
      <==> VersionsAgree(g, v) && ChunkProblem(chunks, g.manifest).None? && !g.db2Damaged
  {
    var g := Gathered(files, inflates);
    assert g.seen == files.Keys;
    hide ChunkProblem, VersionsAgree, Gathered, Version;
    FindingsJoined(
      if VersionsAgree(g, v) then [] else [VersionMismatch],
      match ChunkProblem(chunks, g.manifest) case None => [] case Some(p) => [ChunkMissing(p)],
      if g.db2Damaged then [Db2Broken] else []);
  }

  lemma {:induction false} FindingsJoined(a: seq<Finding>, b: seq<Finding>, c: seq<Finding>)
    ensures a + b + c == [] <==> a == [] && b == [] && c == []
  {
    assert |a + b + c| == |a| + |b| + |c|;
  }
}
