/**
 What a world upload leaves in its staging directory, told by its parts, and the methods that stage it:
 stageUploadWithLimits and stagePart of internal/api/worlds.go.
*/
module UploadContents {
  import opened Optional
  import opened Bytes
  import opened UploadBudget

  /** The contents of a zip's members that are world files. */
  function MembersLaid(members: seq<Member>): seq<seq<byte>> {
    if members == [] then []
    else (if members[0].Wanted? then [members[0].src.data] else []) + MembersLaid(members[1..])
  }

  /** The files an upload puts down, in order: each plain part, and each zip followed by its wanted members. */
  function Laid(parts: seq<Part>): seq<seq<byte>> {
    if parts == [] then [] else PartLaid(parts[0]) + Laid(parts[1..])
  }

  function PartLaid(part: Part): seq<seq<byte>> {
    match part
    case Plain(src) => [src.data]
    case Zip(src, _, members) => [src.data] + MembersLaid(members)
    case _ => []
  }

  /** How many of them are the upload's own, zips aside. */
  function OwnFiles(parts: seq<Part>): nat {
    if parts == [] then 0 else PartOwn(parts[0]) + OwnFiles(parts[1..])
  }

  function PartOwn(part: Part): nat {
    match part
    case Plain(_) => 1
    case Zip(_, _, members) => |MembersLaid(members)|
    case _ => 0
  }

  function Total(files: seq<seq<byte>>): nat {
    if files == [] then 0 else |files[0]| + Total(files[1..])
  }

  predicate MemberReads(m: Member) {
    m.Unwanted? || (m.Wanted? && !Faulty(m.src))
  }

  /** Nothing in a part is unreadable, in it or in what it holds. */
  ghost predicate PartReads(part: Part) {
    match part
    case Unnamed => true
    case Unreadable => false
    case Plain(src) => !Faulty(src)
    case Zip(src, readable, members) => !Faulty(src) && readable && MembersRead(members)
  }

  ghost predicate MembersRead(members: seq<Member>) {
    forall m :: m in members ==> MemberReads(m)
  }

  ghost predicate Reads(parts: seq<Part>) {
    forall p :: p in parts ==> PartReads(p)
  }

  // ----- the script of an upload -----

  lemma {:induction false} FirstEvent(script: seq<Event>)
    requires script != []
    ensures Contents(script) == (if script[0].Put? then [script[0].src.data] else []) + Contents(script[1..])
    ensures FileCount(script) == (if script[0].Put? && script[0].file then 1 else 0) + FileCount(script[1..])
  {
  }

  lemma {:induction false} SoundJoin(a: seq<Event>, b: seq<Event>)
    ensures Sound(a + b) <==> Sound(a) && Sound(b)
  {
    hide Faulty;
    assert forall e :: e in a + b <==> e in a || e in b;
  }

  lemma {:induction false} ScriptsJoin(a: seq<Event>, b: seq<Event>)
    ensures Contents(a + b) == Contents(a) + Contents(b) && FileCount(a + b) == FileCount(a) + FileCount(b)
    ensures Sound(a + b) <==> Sound(a) && Sound(b)
  {
    hide Contents, FileCount, Sound;
    SoundJoin(a, b);
    if a == [] {
      NoEvents();
      assert a + b == b && [] + Contents(b) == Contents(b);
    } else {
      ScriptsJoin(a[1..], b);
      FirstEvent(a);
      FirstEvent(a + b);
      assert (a + b)[0] == a[0] && (a + b)[1..] == a[1..] + b;
      FilesAssociate(if a[0].Put? then [a[0].src.data] else [], Contents(a[1..]), Contents(b));
    }
  }

  lemma {:induction false} FilesAssociate(a: seq<seq<byte>>, b: seq<seq<byte>>, c: seq<seq<byte>>)
    ensures a + (b + c) == a + b + c
  {
  }

  lemma {:induction false} SizesAreTotal(script: seq<Event>)
    ensures Sizes(script) == Total(Contents(script))
  {
    if script != [] {
      SizesAreTotal(script[1..]);
      var rest := Contents(script[1..]);
      if script[0].Put? {
        assert Contents(script) == [script[0].src.data] + rest && Contents(script)[1..] == rest;
      } else {
        assert [] + rest == rest;
      }
    }
  }

  lemma {:induction false} EventSays(e: Event)
    ensures Sound([e]) <==> e.Put? && !Faulty(e.src)
    ensures Contents([e]) == (if e.Put? then [e.src.data] else [])
    ensures FileCount([e]) == if e.Put? && e.file then 1 else 0
  {
    var one := [e];
    assert one[1..] == [];
    assert one[0] in one && forall x :: x in one ==> x == e;
    assert Contents([]) == [];
  }

  /** A script of writes of these contents, so many of them files. */
  ghost predicate Writes(script: seq<Event>, files: seq<seq<byte>>, own: nat) {
    Contents(script) == files && |script| == |files| && FileCount(script) == own
  }

  lemma {:induction false} WritesJoin(a: seq<Event>, b: seq<Event>, f: seq<seq<byte>>, g: seq<seq<byte>>, n: nat,
        m: nat)
    requires Writes(a, f, n) && Writes(b, g, m)
    ensures Writes(a + b, f + g, n + m)
  {
    ScriptsJoin(a, b);
  }

  lemma {:induction false} NoEvents()
    ensures Writes([], [], 0) && Sound([]) && Contents([]) == [] && FileCount([]) == 0
  {
  }

  lemma {:induction false} MembersScript(members: seq<Member>)
    ensures Sound(MemberEvents(members)) <==> MembersRead(members)
    ensures Sound(MemberEvents(members)) ==>
              Writes(MemberEvents(members), MembersLaid(members), |MembersLaid(members)|)
  {
    hide Contents, FileCount, Sound;
    NoEvents();
    if members != [] {
      var m, rest := members[0], members[1..];
      MembersScript(rest);
      assert MembersRead(members) <==> MemberReads(m) && MembersRead(rest) by {
        assert forall x :: x in members <==> x == m || x in rest;
      }
      hide MembersRead;
      var head := match m case Unwanted => [] case Unopenable => [Fail(Internal)] case Wanted(src) => [Put(src, true)];
      if head != [] { EventSays(head[0]); }
      ScriptsJoin(head, MemberEvents(rest));
      if Sound(MemberEvents(members)) && Sound(MemberEvents(rest)) {
        var laid := if m.Wanted? then [m.src.data] else [];
        WritesJoin(head, MemberEvents(rest), laid, MembersLaid(rest), |laid|, |MembersLaid(rest)|);
      }
    }
  }

  lemma {:induction false} PartScript(part: Part)
    ensures Sound(PartEvents(part)) <==> PartReads(part)
    ensures Sound(PartEvents(part)) ==> Writes(PartEvents(part), PartLaid(part), PartOwn(part))
  {
    hide Contents, FileCount, Sound, MemberEvents, MembersLaid, MembersRead;
    NoEvents();
    match part
    case Unnamed =>
    case Unreadable => EventSays(Fail(TooLarge));
    case Plain(src) => EventSays(Put(src, true));
    case Zip(src, readable, members) =>
      EventSays(Put(src, false));
      EventSays(Fail(BadZip));
      MembersScript(members);
      var inner := if readable then MemberEvents(members) else [Fail(BadZip)];
      ScriptsJoin([Put(src, false)], inner);
      if readable && Sound(inner) {
        WritesJoin([Put(src, false)], inner, [src.data], MembersLaid(members), 0, |MembersLaid(members)|);
      }
  }

  lemma {:induction false} UploadScript(parts: seq<Part>)
    ensures Sound(Script(parts)) <==> Reads(parts)
    ensures Sound(Script(parts)) ==> Writes(Script(parts), Laid(parts), OwnFiles(parts))
  {
    hide Contents, FileCount, Sound, PartEvents, PartReads, PartLaid;
    NoEvents();
    if parts != [] {
      var part, rest := parts[0], parts[1..];
      PartScript(part);
      UploadScript(rest);
      assert forall x :: x in parts <==> x == part || x in rest;
      ScriptsJoin(PartEvents(part), Script(rest));
      if Sound(Script(parts)) {
        WritesJoin(PartEvents(part), Script(rest), PartLaid(part), Laid(rest), PartOwn(part), OwnFiles(rest));
      }
    }
  }

  // ----- the theorem -----

  /**
   Every upload, by its parts. It succeeds exactly when all of it reads, its files fit both limits, and at least
   one is its own; then they are all there, in order, whatever the parts before them were.
  */
  lemma {:induction false} UploadLandsWhole(parts: seq<Part>, limit: nat, maxEntries: nat)
    ensures
      var (t, err) := Staged(parts, limit, maxEntries);
      && (err.None? <==>
            Reads(parts) && Total(Laid(parts)) <= limit && |Laid(parts)| <= maxEntries && OwnFiles(parts) > 0)
      && (err.None? ==>
            t.stored == Laid(parts) && t.files == OwnFiles(parts) && t.written == Total(Laid(parts)))
  {
    UploadStaysInBudget(parts, limit, maxEntries);
    UploadScript(parts);
    SizesAreTotal(Script(parts));
    PlayCountsFiles(Fresh(limit, maxEntries), Script(parts));
    hide Play, Script, Contents, FileCount, Sizes, Sound, Reads, Laid, OwnFiles, Total;
  }

  lemma {:induction false} MemberIsLaid(members: seq<Member>, j: nat)
    requires j < |members| && members[j].Wanted?
    ensures members[j].src.data in MembersLaid(members)
  {
    if j > 0 { MemberIsLaid(members[1..], j - 1); }
  }

  lemma {:induction false} PartIsLaid(parts: seq<Part>, i: nat, data: seq<byte>)
    requires i < |parts| && data in PartLaid(parts[i])
    ensures data in Laid(parts)
  {
    if i > 0 { PartIsLaid(parts[1..], i - 1, data); }
  }

  /** Each world file of each zip, and each plain file, is among what a successful upload stored. */
  lemma {:induction false} EveryFileLands(parts: seq<Part>, limit: nat, maxEntries: nat, i: nat, j: nat)
    requires Staged(parts, limit, maxEntries).1.None? && i < |parts|
    ensures
      var stored := Staged(parts, limit, maxEntries).0.stored;
      match parts[i]
      case Plain(src) => src.data in stored
      case Zip(src, readable, members) =>
        readable && src.data in stored && (j < |members| && members[j].Wanted? ==> members[j].src.data in stored)
      case Unnamed => true
      case Unreadable => false
  {
    UploadLandsWhole(parts, limit, maxEntries);
    assert PartReads(parts[i]);
    hide Staged, Laid;
    match parts[i]
    case Plain(src) => PartIsLaid(parts, i, src.data);
    case Zip(src, readable, members) =>
      PartIsLaid(parts, i, src.data);
      if j < |members| && members[j].Wanted? {
        MemberIsLaid(members, j);
        PartIsLaid(parts, i, members[j].src.data);
      }
    case _ =>
  }

  // ----- which error -----

  /**
   One write: an error of the source or the disk counts where it comes before the budget is used up; a
   source that is longer than what is left, or one entry too many, is too large.
  */
  lemma {:induction false} WriteErrorIff(t: Tally, src: Source, file: bool)
    ensures
      var (t', err) := Written(t, src, file);
      var room, early := t.entries < t.maxEntries, src.fault.Some? && src.fault.value <= Min(|src.data|, t.remaining);
      && (err == Some(Internal) <==> room && early)
      && (err == Some(TooLarge) <==> !room || (!early && |src.data| > t.remaining))
      && (err.Some? && room ==>
            && |t'.stored| == |t.stored| + 1 && t'.stored[|t.stored|] <= src.data
            && |t'.stored[|t.stored|]| == if early then src.fault.value else t.remaining + 1)
      && err != Some(BadZip) && err != Some(PairIncomplete)
  {
  }

  /** After parts that read and fit, the next part decides. */
  lemma {:induction false} FirstBadPartDecides(before: seq<Part>, part: Part, after: seq<Part>, limit: nat,
        maxEntries: nat)
    requires Reads(before) && Total(Laid(before)) <= limit && |Laid(before)| <= maxEntries
    ensures part.Unreadable? ==> Staged(before + [part] + after, limit, maxEntries).1 == Some(TooLarge)
    ensures part.Zip? && !part.readable && !Faulty(part.src) && |Laid(before)| < maxEntries &&
            Total(Laid(before)) + |part.src.data| <= limit ==>
              Staged(before + [part] + after, limit, maxEntries).1 == Some(BadZip)
  {
    hide Script, Reads, Laid, Contents, Sizes, Sound, Play, PartEvents, Total;
    var t := AfterParts(before, [part] + after, limit, maxEntries);
    assert before + [part] + after == before + ([part] + after);
    ScriptStep([part] + after);
    assert ([part] + after)[0] == part && ([part] + after)[1..] == after;
    PartFails(t, part, Script(after));
  }

  /** The tally after parts that read and fit, and what is left to play. */
  lemma {:induction false} AfterParts(before: seq<Part>, rest: seq<Part>, limit: nat, maxEntries: nat)
    returns (t: Tally)
    requires Reads(before) && Total(Laid(before)) <= limit && |Laid(before)| <= maxEntries
    ensures InBudget(t) && t.written == Total(Laid(before)) && t.entries == |Laid(before)|
    ensures t.limit == limit && t.maxEntries == maxEntries
    ensures Play(Fresh(limit, maxEntries), Script(before + rest)) == Play(t, Script(rest))
  {
    hide Script, Reads, Laid, Contents, Sizes, Sound, Play, Total;
    var begun := Fresh(limit, maxEntries);
    UploadScript(before);
    SizesAreTotal(Script(before));
    PlaySucceedsIff(begun, Script(before));
    PlayBounds(begun, Script(before));
    ScriptConcat(before, rest);
    PlayConcat(begun, Script(before), Script(rest));
    t := Play(begun, Script(before)).0;
    assert [] + Contents(Script(before)) == Contents(Script(before));
  }

  lemma {:induction false} PartFails(t: Tally, part: Part, tail: seq<Event>)
    requires InBudget(t)
    ensures part.Unreadable? ==> Play(t, PartEvents(part) + tail).1 == Some(TooLarge)
    ensures part.Zip? && !part.readable && t.entries < t.maxEntries && !Faulty(part.src) ==>
              t.written + |part.src.data| <= t.limit ==> Play(t, PartEvents(part) + tail).1 == Some(BadZip)
  {
    var script := PartEvents(part) + tail;
    if part.Unreadable? { assert script[0] == Fail(TooLarge); }
    if part.Zip? && !part.readable {
      WriteBounds(t, part.src, false);
      hide Written;
      assert script[0] == Put(part.src, false) && script[1..][0] == Fail(BadZip);
    }
  }

  lemma {:induction false} EventsAssociate(a: seq<Event>, b: seq<Event>, c: seq<Event>)
    ensures a + (b + c) == a + b + c
  {
  }

  lemma {:induction false} ScriptStep(parts: seq<Part>)
    requires parts != []
    ensures Script(parts) == PartEvents(parts[0]) + Script(parts[1..])
  {
  }

  lemma {:induction false} NoParts()
    ensures Script([]) == []
  {
  }

  lemma {:induction false} ScriptConcat(a: seq<Part>, b: seq<Part>)
    ensures Script(a + b) == Script(a) + Script(b)
  {
    hide Script, PartEvents;
    if a == [] {
      NoParts();
      assert a + b == b && [] + Script(b) == Script(b);
    } else {
      ScriptConcat(a[1..], b);
      ScriptStep(a);
      ScriptStep(a + b);
      assert (a + b)[0] == a[0] && (a + b)[1..] == a[1..] + b;
      EventsAssociate(PartEvents(a[0]), Script(a[1..]), Script(b));
    }
  }

  // ----- the code -----

  /** A script that succeeds was sound, and stored what it holds. */
  lemma {:induction false} PlayStores(t: Tally, script: seq<Event>)
    ensures
      var (t', err) := Play(t, script);
      err.None? ==> Sound(script) && t'.stored == t.stored + Contents(script) && t'.files == t.files + FileCount(script)
    decreases |script|
  {
    if script == [] {
      assert t.stored + [] == t.stored;
    } else if script[0].Put? {
      var (t', err) := Written(t, script[0].src, script[0].file);
      if err.None? {
        PlayStores(t', script[1..]);
        WholeIsStored(t, script[0].src, script[0].file);
        StoredJoin(t.stored, script[0].src.data, Contents(script[1..]));
        assert forall e :: e in script <==> e == script[0] || e in script[1..];
      }
    }
  }

  lemma {:induction false} WholeIsStored(t: Tally, src: Source, file: bool)
    requires Written(t, src, file).1.None?
    ensures !Faulty(src) && Written(t, src, file).0.stored == t.stored + [src.data]
  {
    assert src.data[..|src.data|] == src.data;
  }

  /** stagePart: one file, or a zip and then its members; how many files landed. */
  method StagePart(part: Part, b: Budget) returns (wrote: nat, err: Option<Error>)
    requires !b.stopped
    modifies b
    ensures (b.Now(), err) == Play(old(b.Now()), PartEvents(part))
    ensures err.None? ==> !b.stopped && b.files == old(b.files) + wrote
    ensures err.None? ==> PartReads(part) && wrote == PartOwn(part) && b.stored == old(b.stored) + PartLaid(part)
  {
    PartScript(part);
    PlayStores(b.Now(), PartEvents(part));
    hide MemberEvents, Written, Sound, Contents, FileCount;
    wrote, err := 0, None;
    match part
    case Unnamed =>
    case Unreadable => err := Some(TooLarge);
    case Plain(src) =>
      err := b.Write(src, true);
      wrote := if err.None? then 1 else 0;
      assert PartEvents(part)[1..] == [];
    case Zip(src, readable, members) =>
      assert PartEvents(part)[1..] == if readable then MemberEvents(members) else [Fail(BadZip)];
      err := b.Write(src, false);
      if err.Some? { return; }
      if !readable {
        err := Some(BadZip);
        return;
      }
      wrote, err := StageMembers(members, b);
  }

  method StageMembers(members: seq<Member>, b: Budget) returns (wrote: nat, err: Option<Error>)
    requires !b.stopped
    modifies b
    ensures (b.Now(), err) == Play(old(b.Now()), MemberEvents(members))
    ensures err.None? ==> !b.stopped && b.files == old(b.files) + wrote
    ensures err.None? ==>
              && MembersRead(members) && wrote == |MembersLaid(members)|
              && b.stored == old(b.stored) + MembersLaid(members)
  {
    MembersScript(members);
    PlayStores(b.Now(), MemberEvents(members));
    wrote, err := 0, None;
    for i := 0 to |members|
      invariant !b.stopped && b.files == old(b.files) + wrote
      invariant Play(b.Now(), MemberEvents(members[i..])) == Play(old(b.Now()), MemberEvents(members))
    {
      assert members[i..][1..] == members[i + 1..];
      match members[i]
      case Unwanted =>
        assert [] + MemberEvents(members[i + 1..]) == MemberEvents(members[i + 1..]);
      case Unopenable =>
        assert MemberEvents(members[i..])[0] == Fail(Internal);
        return wrote, Some(Internal);
      case Wanted(src) =>
        assert MemberEvents(members[i..])[1..] == MemberEvents(members[i + 1..]);
        err := b.Write(src, true);
        if err.Some? { return; }
        wrote := wrote + 1;
    }
    assert members[|members|..] == [];
    err := None;
  }

  method StageUpload(parts: seq<Part>, limit: nat, maxEntries: nat) returns (err: Option<Error>, b: Budget)
    ensures fresh(b) && (b.Now(), err) == Staged(parts, limit, maxEntries)
    ensures b.written <= limit + 1 && (err.None? ==> b.written <= limit && b.entries <= maxEntries)
    ensures err.None? <==>
              Reads(parts) && Total(Laid(parts)) <= limit && |Laid(parts)| <= maxEntries && OwnFiles(parts) > 0
    ensures err.None? ==> b.stored == Laid(parts) && b.files == OwnFiles(parts)
  {
    UploadStaysInBudget(parts, limit, maxEntries);
    UploadLandsWhole(parts, limit, maxEntries);
    hide Reads, Laid, Total, OwnFiles, PartEvents;
    b := new Budget(limit, maxEntries);
    var wrote := 0;
    for i := 0 to |parts|
      invariant !b.stopped && b.files == wrote
      invariant Play(b.Now(), Script(parts[i..])) == Play(Fresh(limit, maxEntries), Script(parts))
    {
      assert parts[i..][1..] == parts[i + 1..];
      PlayConcat(b.Now(), PartEvents(parts[i]), Script(parts[i + 1..]));
      var n;
      n, err := StagePart(parts[i], b);
      if err.Some? { return; }
      wrote := wrote + n;
    }
    err := if wrote == 0 then Some(PairIncomplete) else None;
  }
}
