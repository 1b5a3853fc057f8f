/**
 What each finding of internal/backup/worldcheck.go says of the bytes on disk: which versions are
 checked at all, and when each problem is reported.
*/
module SaveFindings {
  import opened Optional
  import opened Bytes
  import opened ChunkName
  import opened SaveCheck

  /** An index spelled out: version, total, number of entries, and one entry with its seven naming bytes and count. */
  lemma {:induction false} OneIndex()
    ensures EncodedIndex(Index(41, 300, [IndexEntry(ChunkId(10, 1, 5, 7), 300)]))
            == [41, 0, 44, 1, 0, 0, 1, 0, 0, 0, 10, 1, 5, 7, 0, 0, 0, 44, 1, 0, 0]
  {
    var e := IndexEntry(ChunkId(10, 1, 5, 7), 300);
    assert [e][..0] == [] && EncodedEntries([]) == [];
    assert EncodedEntry(e) == [10, 1, 5, 7, 0, 0, 0, 44, 1, 0, 0];
    assert EncodedEntries([e]) == [] + EncodedEntry(e);
  }

  /** Four bytes of `.ok` that spell a version other than 41 and 42 end the check, whatever else is there. */
  lemma {:induction false} OtherVersionsAreUnchecked(files: map<Ext, seq<byte>>, chunks: map<string, seq<byte>>,
        inflates: seq<byte> -> bool, v: uint32)
    ensures Judged(files, chunks, inflates) == Unchecked(v)
            <==> Ok in files && files[Ok] == PutLe32(v) && v !in {41, 42}
  {
    OkIsVersion(ContentOf(files, Ok), v);
    assert Version(Gathered(files, inflates)) == Some(v) <==> ContentOf(files, Ok) == PutLe32(v);
    hide PutLe32, ChunkProblem, VersionsAgree;
  }

  predicate AllThere(files: map<Ext, seq<byte>>) {
    Db2 in files && Fwl2 in files && Chunks in files && Ok in files
  }

  /** A save that lacks a file, or whose `.ok` is no word, is incomplete; nothing else is said of it. */
  lemma {:induction false} IncompleteIff(files: map<Ext, seq<byte>>, chunks: map<string, seq<byte>>,
        inflates: seq<byte> -> bool)
    ensures
      var f := Judged(files, chunks, inflates);
      f.Found? ==>
        (SaveIncomplete in f.findings <==> !AllThere(files) || |files[Ok]| != 4) &&
        (SaveIncomplete in f.findings ==> f.findings == [SaveIncomplete])
  {
    hide PutLe32, Le32, ChunkProblem, VersionsAgree, Db2Damaged;
  }

  /** The save whose `.ok` says v, of which the rest is judged. */
  ghost predicate Says(files: map<Ext, seq<byte>>, v: uint32) {
    AllThere(files) && files[Ok] == PutLe32(v) && (v == 41 || v == 42)
  }

  /** The version in the other three files: first in the `.db2`, second word of the `.fwl2`, first two of the index. */
  predicate VersionBytes(files: map<Ext, seq<byte>>, v: uint32)
    requires AllThere(files) && v < 0x1_0000
  {
    && PutLe32(v) <= files[Db2]
    && |files[Fwl2]| >= 8 && files[Fwl2][4..8] == PutLe32(v)
    && |files[Chunks]| <= 1_100_010 && PutLe16(v) <= files[Chunks]
  }

  lemma {:induction false} WordAt(b: seq<byte>, off: nat, v: uint32)
    requires off + 4 <= |b|
    ensures Le32(b, off) == v <==> b[off..off + 4] == PutLe32(v)
  {
    Le32At(b, off);
    Le32OfPut(v);
  }

  lemma {:induction false} FirstWord(content: seq<byte>, v: uint32)
    ensures |Head(content, 16)| >= 4 && Le32(Head(content, 16), 0) == v <==> PutLe32(v) <= content
  {
    var head := Head(content, 16);
    if |head| >= 4 {
      WordAt(head, 0, v);
      assert head[0..4] == content[..4];
    }
    hide PutLe32;
    assert PutLe32(v) <= content <==> |content| >= 4 && content[..4] == PutLe32(v);
  }

  lemma {:induction false} SecondWord(content: seq<byte>, v: uint32)
    ensures |Head(content, 8)| >= 8 && Le32(Head(content, 8), 4) == v <==> |content| >= 8 && content[4..8] == PutLe32(v)
  {
    var head := Head(content, 8);
    if |head| >= 8 {
      WordAt(head, 4, v);
      assert head[4..8] == content[4..8];
    }
  }

  lemma {:induction false} FirstTwo(content: seq<byte>, v: uint16)
    ensures |content| >= 2 && Le16(content, 0) == v <==> PutLe16(v) <= content
  {
    Le16RoundTrip(v, []);
    if |content| >= 2 {
      Le16RoundTrip(0, content[..2]);
      assert Le16(content[..2], 0) == Le16(content, 0);
    }
    hide PutLe16, Le16;
    assert PutLe16(v) <= content <==> |content| >= 2 && content[..2] == PutLe16(v);
  }

  lemma {:induction false} AgreeIff(files: map<Ext, seq<byte>>, inflates: seq<byte> -> bool, v: uint32)
    requires Says(files, v)
    ensures VersionsAgree(Gathered(files, inflates), v) <==> VersionBytes(files, v)
  {
    FirstWord(files[Db2], v);
    SecondWord(files[Fwl2], v);
    FirstTwo(files[Chunks], v);
    hide PutLe32, PutLe16, Le32, Le16, Head, Db2Damaged;
  }

  /** What is said of the rest: each finding exactly when its bytes are wrong. */
  lemma {:induction false} FindingsIff(files: map<Ext, seq<byte>>, chunks: map<string, seq<byte>>,
        inflates: seq<byte> -> bool, v: uint32)
    requires Says(files, v)
    ensures
      var f := Judged(files, chunks, inflates);
      && f.Found?
      && (VersionMismatch in f.findings <==> !VersionBytes(files, v))
      && (Db2Broken in f.findings <==>
            |files[Db2]| < 16 || !inflates(Head(files[Db2][16..], Le32(files[Db2], 12))))
      && (forall p :: ChunkMissing(p) in f.findings <==>
            ChunkProblem(chunks, if |files[Chunks]| <= 1_100_010 then Some(files[Chunks]) else None) == Some(p))
  {
    OkIsVersion(files[Ok], v);
    AgreeIff(files, inflates, v);
    hide PutLe32, Le32, Le16, PutLe16, ChunkProblem, VersionsAgree, VersionBytes;
  }

  // ----- what is wrong with an index -----

  /** A chunk file is missing, empty, or without the count its entry repeats in its bytes 2 to 5. */
  lemma {:induction false} FaultIff(chunks: map<string, seq<byte>>, e: IndexEntry)
    ensures FaultOf(chunks, e) == Some(Missing) <==> Name(e.id) !in chunks
    ensures FaultOf(chunks, e) == Some(Empty) <==> Name(e.id) in chunks && chunks[Name(e.id)] == []
    ensures FaultOf(chunks, e) == Some(Mismatch) <==>
              Name(e.id) in chunks && chunks[Name(e.id)] != [] &&
              (|chunks[Name(e.id)]| < 6 || chunks[Name(e.id)][2..6] != PutLe32(e.count))
  {
    if Name(e.id) in chunks && |chunks[Name(e.id)]| >= 6 {
      var content := chunks[Name(e.id)];
      WordAt(Head(content, 6), 2, e.count);
      assert Head(content, 6)[2..6] == content[2..6];
    }
    hide Name, Le32, PutLe32;
  }

  predicate HasFault(chunks: map<string, seq<byte>>, e: IndexEntry, name: string, fault: ChunkFault) {
    Name(e.id) == name && FaultOf(chunks, e) == Some(fault)
  }

  /** The bad chunks are those of the entries with a fault, each with its own. */
  lemma {:induction false} BadEntriesIff(chunks: map<string, seq<byte>>, entries: seq<IndexEntry>, name: string,
        fault: ChunkFault)
    ensures (name, fault) in BadEntries(chunks, entries)
            <==> exists i :: 0 <= i < |entries| && HasFault(chunks, entries[i], name, fault)
  {
    hide Name, FaultOf;
    if entries != [] {
      var n := |entries| - 1;
      BadEntriesIff(chunks, entries[..n], name, fault);
      assert forall i :: 0 <= i < n ==> entries[..n][i] == entries[i];
    }
  }

  /** Which problem of an index is reported: its size, its header, its length, its chunks, its total, in that order. */
  lemma {:induction false} ProblemIff(chunks: map<string, seq<byte>>, m: seq<byte>)
    ensures ChunkProblem(chunks, None) == Some(TooLarge)
    ensures
      var p := ChunkProblem(chunks, Some(m));
      && (p == Some(ShortHeader) <==> |m| < 10)
      && (p == Some(WrongLength) <==> |m| >= 10 && |m| != 10 + 11 * Le32(m, 6))
      && (WellSized(m) ==>
            var entries, bad := DecodedIndex(m).entries, BadEntries(chunks, DecodedIndex(m).entries);
            && (bad != [] ==> p == Some(BadChunks(bad)))
            && (p == Some(WrongTotal) <==> bad == [] && CountSum(entries) != Le32(m, 2)))
      && p != Some(TooLarge)
  {
    hide Le32, BadEntries, CountSum, EntriesOf;
  }
}
