/**
 The other side of the save check: a save as the game writes it, file by file. What it writes passes
 internal/backup/worldcheck.go, and a chunk file lost from it is named.
*/
module SaveWriter {
  import opened Optional
  import opened Bytes
  import opened ChunkName
  import opened SaveCheck

  /** A chunk: what names it, the count its file and the index repeat, and the rest of its file. */
  datatype Chunk = Chunk(id: ChunkId, count: uint32, v0: byte, v1: byte, rest: seq<byte>)

  datatype Save = Save(version: uint16, time: seq<byte>, body: seq<byte>, head: seq<byte>, fwl2Rest: seq<byte>,
        chunks: seq<Chunk>)

  function ChunkBytes(c: Chunk): seq<byte> { [c.v0, c.v1] + PutLe32(c.count) + c.rest }

  function EntryFor(c: Chunk): IndexEntry { IndexEntry(c.id, c.count) }

  function EntriesFor(cs: seq<Chunk>): (entries: seq<IndexEntry>)
    ensures |entries| == |cs| && forall i :: 0 <= i < |cs| ==> entries[i] == EntryFor(cs[i])
  {
    seq(|cs|, i requires 0 <= i < |cs| => EntryFor(cs[i]))
  }

  /** The chunk directory, one file after another; a repeated name overwrites. */
  function ChunkFiles(cs: seq<Chunk>): map<string, seq<byte>> {
    if cs == [] then map[]
    else ChunkFiles(cs[..|cs| - 1])[Name(cs[|cs| - 1].id) := ChunkBytes(cs[|cs| - 1])]
  }

  ghost predicate Writable(s: Save) {
    && Measured(s.version) && |s.time| == 8 && |s.head| == 4 && |s.body| < 0x1_0000_0000
    && |s.chunks| <= 100000 && CountSum(EntriesFor(s.chunks)) < 0x1_0000_0000
    && DistinctIds(s.chunks)
  }

  ghost predicate DistinctIds(cs: seq<Chunk>) {
    forall i, j :: 0 <= i < j < |cs| ==> cs[i].id != cs[j].id
  }

  function IndexOf(s: Save): Index
    requires CountSum(EntriesFor(s.chunks)) < 0x1_0000_0000
  {
    Index(s.version, CountSum(EntriesFor(s.chunks)), EntriesFor(s.chunks))
  }

  /** The four files of a generation. */
  function SaveFiles(s: Save): map<Ext, seq<byte>>
    requires CountSum(EntriesFor(s.chunks)) < 0x1_0000_0000 && |s.chunks| <= 100000 && |s.body| < 0x1_0000_0000
  {
    map[
      Db2 := PutLe32(s.version) + s.time + PutLe32(|s.body|) + s.body,
      Fwl2 := s.head + PutLe32(s.version) + s.fwl2Rest,
      Chunks := EncodedIndex(IndexOf(s)),
      Ok := PutLe32(s.version)
    ]
  }

  /** No later chunk overwrites an earlier one's file, since no two ids print one name. */
  lemma {:induction false} ChunkFileStays(cs: seq<Chunk>, i: nat)
    requires i < |cs| && DistinctIds(cs)
    ensures Name(cs[i].id) in ChunkFiles(cs) && ChunkFiles(cs)[Name(cs[i].id)] == ChunkBytes(cs[i])
  {
    hide Name, ChunkBytes;
    var n := |cs| - 1;
    if i < n {
      ChunkFileStays(cs[..n], i);
      if Name(cs[i].id) == Name(cs[n].id) { NameIsInjective(cs[i].id, cs[n].id); }
    }
  }

  lemma {:induction false} EveryChunkHeld(c: Chunk, chunks: map<string, seq<byte>>)
    requires Name(c.id) in chunks && chunks[Name(c.id)] == ChunkBytes(c)
    ensures HoldsChunk(chunks, EntryFor(c))
  {
    hide Name, PutLe32;
    assert ChunkBytes(c) == [c.v0, c.v1] + PutLe32(c.count) + c.rest;
  }

  lemma {:induction false} WrittenIsIntact(s: Save, inflates: seq<byte> -> bool)
    requires Writable(s) && inflates(s.body)
    ensures Intact(SaveFiles(s), ChunkFiles(s.chunks), inflates, s.version)
  {
    hide PutLe32, ChunkFiles, EncodedIndex, CountSum, HoldsChunk, Name;
    var files, chunks := SaveFiles(s), ChunkFiles(s.chunks);
    forall i | 0 <= i < |s.chunks| ensures HoldsChunk(chunks, EntriesFor(s.chunks)[i]) {
      ChunkFileStays(s.chunks, i);
      EveryChunkHeld(s.chunks[i], chunks);
    }
    assert IsIndex(files[Chunks], s.version, chunks, IndexOf(s));
    assert Head(s.body, |s.body|) == s.body;
    assert IsDb2(files[Db2], s.version, inflates);
    assert IsFwl2(files[Fwl2], s.version);
  }

  /** What the game writes passes the check. */
  lemma {:induction false} WrittenSavePasses(s: Save, inflates: seq<byte> -> bool)
    requires Writable(s) && inflates(s.body)
    ensures Judged(SaveFiles(s), ChunkFiles(s.chunks), inflates) == Found([])
  {
    WrittenIsIntact(s, inflates);
    hide Writable, Intact, SaveFiles, ChunkFiles, Judged;
    CheckIsExact(SaveFiles(s), ChunkFiles(s.chunks), inflates);
  }

  // ----- a lost chunk -----

  lemma {:induction false} FaultWithout(s: Save, lost: nat, i: nat)
    requires DistinctIds(s.chunks) && lost < |s.chunks| && i < |s.chunks|
    ensures FaultOf(ChunkFiles(s.chunks) - {Name(s.chunks[lost].id)},
          EntryFor(s.chunks[i])) == if i == lost then Some(Missing) else None
  {
    hide Name, ChunkFiles, HoldsChunk;
    var chunks := ChunkFiles(s.chunks) - {Name(s.chunks[lost].id)};
    if i != lost {
      if Name(s.chunks[i].id) == Name(s.chunks[lost].id) { NameIsInjective(s.chunks[i].id, s.chunks[lost].id); }
      ChunkFileStays(s.chunks, i);
      EveryChunkHeld(s.chunks[i], chunks);
      ChunkIsRead(chunks, EntryFor(s.chunks[i]));
    }
  }

  lemma {:induction false} BadWithout(s: Save, lost: nat, n: nat)
    requires DistinctIds(s.chunks) && lost < |s.chunks| && n <= |s.chunks|
    ensures
      var name := Name(s.chunks[lost].id);
      BadEntries(ChunkFiles(s.chunks) - {name}, EntriesFor(s.chunks)[..n]) == if lost < n then [(name, Missing)] else []
  {
    hide Name, ChunkFiles, FaultOf;
    if n > 0 {
      BadWithout(s, lost, n - 1);
      FaultWithout(s, lost, n - 1);
      var entries := EntriesFor(s.chunks);
      assert entries[..n][..n - 1] == entries[..n - 1];
    }
  }

  lemma {:induction false} ProblemWithout(s: Save, lost: nat)
    requires Writable(s) && lost < |s.chunks|
    ensures
      var name := Name(s.chunks[lost].id);
      ChunkProblem(ChunkFiles(s.chunks) - {name}, Some(EncodedIndex(IndexOf(s)))) == Some(BadChunks([(name, Missing)]))
  {
    hide Name, ChunkFiles, EncodedIndex, DecodedIndex, BadEntries, CountSum, ChunkProblem, WellSized, EntriesFor;
    IndexReadBack(IndexOf(s));
    BadWithout(s, lost, |s.chunks|);
    assert EntriesFor(s.chunks)[..|s.chunks|] == EntriesFor(s.chunks);
    BadChunksAreReported(ChunkFiles(s.chunks) - {Name(s.chunks[lost].id)}, EncodedIndex(IndexOf(s)));
  }

  lemma {:induction false} BadChunksAreReported(chunks: map<string, seq<byte>>, m: seq<byte>)
    requires WellSized(m) && BadEntries(chunks, DecodedIndex(m).entries) != []
    ensures ChunkProblem(chunks, Some(m)) == Some(BadChunks(BadEntries(chunks, DecodedIndex(m).entries)))
  {
    hide BadEntries, DecodedIndex, Le32;
  }

  lemma {:induction false} SaveIsGathered(s: Save, inflates: seq<byte> -> bool)
    requires Writable(s) && inflates(s.body)
    ensures
      var g := Gathered(SaveFiles(s), inflates);
      && Version(g) == Some(s.version) && VersionsAgree(g, s.version) && !g.db2Damaged
      && g.manifest == Some(EncodedIndex(IndexOf(s)))
  {
    WrittenIsIntact(s, inflates);
    var files, chunks := SaveFiles(s), ChunkFiles(s.chunks);
    CheckAt(files, chunks, inflates, s.version);
    FindingsOf(files, chunks, inflates, s.version);
    hide Judged, Intact, ChunkProblem, VersionsAgree, Version, ChunkFiles, CountSum, Db2Damaged, EncodedEntries;
    hide PutLe32, PutLe16;
  }

  /** A chunk file gone from a written save is the one thing the check names, whichever it is. */
  lemma {:induction false} LostChunkIsNamed(s: Save, inflates: seq<byte> -> bool, lost: nat)
    requires Writable(s) && inflates(s.body) && lost < |s.chunks|
    ensures
      var name := Name(s.chunks[lost].id);
      Judged(SaveFiles(s), ChunkFiles(s.chunks) - {name}, inflates) == Found([ChunkMissing(BadChunks([(name,
            Missing)]))])
  {
    hide ChunkProblem, VersionsAgree, Version, ChunkFiles, EncodedIndex, Name, CountSum, Gathered, Judged, SaveFiles;
    var name, files := Name(s.chunks[lost].id), SaveFiles(s);
    SaveIsGathered(s, inflates);
    ProblemWithout(s, lost);
    assert Complete(files.Keys) by { FourFiles(s); }
    OneFinding(files, ChunkFiles(s.chunks) - {name}, inflates, s.version, BadChunks([(name, Missing)]));
  }

  lemma {:induction false} FourFiles(s: Save)
    requires Writable(s)
    ensures Complete(SaveFiles(s).Keys)
  {
    hide PutLe32, EncodedIndex, CountSum;
  }

  lemma {:induction false} OneFinding(files: map<Ext, seq<byte>>, chunks: map<string, seq<byte>>,
        inflates: seq<byte> -> bool, v: uint32, p: IndexProblem)
    requires Complete(files.Keys) && Measured(v)
    requires
      var g := Gathered(files, inflates);
      && Version(g) == Some(v) && VersionsAgree(g, v) && !g.db2Damaged && ChunkProblem(chunks, g.manifest) == Some(p)
    ensures Judged(files, chunks, inflates) == Found([ChunkMissing(p)])
  {
    hide ChunkProblem, VersionsAgree, Version;
    assert Gathered(files, inflates).seen == files.Keys;
    hide Gathered;
  }
}
