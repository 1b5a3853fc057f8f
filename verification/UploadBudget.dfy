/**
 What one world upload may write: uploadBudget and copyStaged of internal/api/worlds.go, and the script of
 writes that staging an upload's parts comes to. A source is the bytes it would deliver and, perhaps, the
 point at which reading or writing it fails.
*/
module UploadBudget {
  import opened Optional
  import opened Bytes

  /** fault is how many bytes land before an I/O error; past the end it never happens. */
  datatype Source = Source(data: seq<byte>, fault: Option<nat>)

  datatype Error = TooLarge | Internal | BadZip | PairIncomplete

  datatype Member = Unwanted | Unopenable | Wanted(src: Source)

  /** One part of the multipart body. */
  datatype Part =
    | Unnamed                                                   // no file name, or none that can be placed
    | Plain(src: Source)
    | Zip(src: Source, readable: bool, members: seq<Member>)
    | Unreadable                                                // NextPart failed

  /** What staging comes to: writes in order, and the points at which it gives up. */
  datatype Event = Put(src: Source, file: bool) | Fail(error: Error)

  function MemberEvents(members: seq<Member>): seq<Event> {
    if members == [] then []
    else
      (match members[0]
       case Unwanted => []
       case Unopenable => [Fail(Internal)]
       case Wanted(src) => [Put(src, true)])
      + MemberEvents(members[1..])
  }

  function PartEvents(part: Part): seq<Event> {
    match part
    case Unnamed => []
    case Plain(src) => [Put(src, true)]
    case Zip(src, readable, members) =>
      [Put(src, false)] + if readable then MemberEvents(members) else [Fail(BadZip)]
    case Unreadable => [Fail(TooLarge)]
  }

  function Script(parts: seq<Part>): seq<Event> {
    if parts == [] then [] else PartEvents(parts[0]) + Script(parts[1..])
  }

  // ----- the budget -----

  /** The budget's fields, and what has reached the disk under it. */
  datatype Tally = Tally(
    limit: nat, remaining: nat, entries: nat, maxEntries: nat,
    written: nat, stored: seq<seq<byte>>, files: nat)

  function Min(a: nat, b: nat): nat { if a < b then a else b }

  /** copyStaged: how many bytes land, and the error if any. It reads one byte past the limit. */
  function Copied(src: Source, limit: nat): (nat, Option<Error>) {
    var full := Min(|src.data|, limit + 1);
    if src.fault.Some? && (src.fault.value < full || (src.fault.value == full && full <= limit)) then
      (src.fault.value, Some(Internal))
    else if full > limit then (full, Some(TooLarge))
    else (full, None)
  }

  /** uploadBudget.write. */
  function Written(t: Tally, src: Source, file: bool): (Tally, Option<Error>) {
    if t.entries >= t.maxEntries then (t, Some(TooLarge))
    else
      var (n, err) := Copied(src, t.remaining);
      (t.(entries := t.entries + 1, remaining := t.remaining - Min(n, t.remaining),
          written := t.written + n,
          stored := t.stored + [src.data[..Min(n, |src.data|)]],
          files := t.files + if file && err.None? then 1 else 0),
       err)
  }

  /** The events one after another, up to the first failure. */
  function Play(t: Tally, script: seq<Event>): (Tally, Option<Error>)
    decreases |script|
  {
    if script == [] then (t, None)
    else
      match script[0]
      case Fail(error) => (t, Some(error))
      case Put(src, file) =>
        var (t', err) := Written(t, src, file);
        if err.Some? then (t', err) else Play(t', script[1..])
  }

  function Fresh(limit: nat, maxEntries: nat): Tally {
    Tally(limit, limit, 0, maxEntries, 0, [], 0)
  }

  /** stageUploadWithLimits. */
  function Staged(parts: seq<Part>, limit: nat, maxEntries: nat): (Tally, Option<Error>) {
    var (t, err) := Play(Fresh(limit, maxEntries), Script(parts));
    (t, if err.None? && t.files == 0 then Some(PairIncomplete) else err)
  }

  lemma {:induction false} PlayConcat(t: Tally, a: seq<Event>, b: seq<Event>)
    ensures Play(t, a + b) == var (t', err) := Play(t, a); if err.Some? then (t', err) else Play(t', b)
    decreases |a|
  {
    if a == [] {
      assert a + b == b;
    } else {
      assert (a + b)[1..] == a[1..] + b && (a + b)[0] == a[0];
      if a[0].Put? {
        var (t', err) := Written(t, a[0].src, a[0].file);
        if err.None? { PlayConcat(t', a[1..], b); }
      }
    }
  }

  // ----- what a budget guarantees -----

  ghost predicate InBudget(t: Tally) {
    t.written + t.remaining == t.limit && t.entries <= t.maxEntries && |t.stored| == t.entries
  }

  ghost function Sizes(script: seq<Event>): nat {
    if script == [] then 0
    else (match script[0] case Put(src, _) => |src.data| case Fail(_) => 0) + Sizes(script[1..])
  }

  ghost function Contents(script: seq<Event>): seq<seq<byte>> {
    if script == [] then []
    else (match script[0] case Put(src, _) => [src.data] case Fail(_) => []) + Contents(script[1..])
  }

  /** No event fails by itself: every source is readable to its end and every zip opens. */
  ghost predicate Sound(script: seq<Event>) {
    forall e :: e in script ==> e.Put? && !Faulty(e.src)
  }

  predicate Faulty(src: Source) { src.fault.Some? && src.fault.value <= |src.data| }

  /** One write: whole and inside the budget, or the upload's last, at most one byte over. */
  lemma {:induction false} WriteBounds(t: Tally, src: Source, file: bool)
    requires InBudget(t)
    ensures
      var (t', err) := Written(t, src, file);
      && (err.None? <==> t.entries < t.maxEntries && t.written + |src.data| <= t.limit && !Faulty(src))
      && (err.None? ==> InBudget(t') && t'.stored == t.stored + [src.data] && t'.written == t.written + |src.data|)
      && t'.written <= t.limit + 1 && t'.entries <= t.maxEntries && t'.limit == t.limit && t'.maxEntries == t.maxEntries
  {
    if t.entries < t.maxEntries {
      var (n, err) := Copied(src, t.remaining);
      if err.None? { assert src.data[..|src.data|] == src.data; }
    }
  }

  lemma {:induction false} StoredJoin(stored: seq<seq<byte>>, data: seq<byte>, rest: seq<seq<byte>>)
    ensures stored + [data] + rest == stored + ([data] + rest)
  {
  }

  /** Any script: inside the limits while it succeeds, at most one byte over when it stops. */
  lemma {:induction false} PlayBounds(t: Tally, script: seq<Event>)
    requires InBudget(t)
    ensures
      var (t', err) := Play(t, script);
      && (err.None? ==> InBudget(t') && t'.limit == t.limit && t'.maxEntries == t.maxEntries)
      && (err.None? ==> t'.stored == t.stored + Contents(script) && t'.written == t.written + Sizes(script))
      && t'.written <= t.limit + 1 && t'.entries <= t.maxEntries
    decreases |script|
  {
    if script == [] {
      assert t.stored + [] == t.stored;
    } else if script[0].Put? {
      hide Written;
      WriteBounds(t, script[0].src, script[0].file);
      var (t', err) := Written(t, script[0].src, script[0].file);
      if err.None? {
        PlayBounds(t', script[1..]);
        StoredJoin(t.stored, script[0].src.data, Contents(script[1..]));
      }
    }
  }

  lemma {:induction false} PlaySucceedsIff(t: Tally, script: seq<Event>)
    requires InBudget(t)
    ensures Play(t, script).1.None? <==>
              Sound(script) && t.written + Sizes(script) <= t.limit && t.entries + |script| <= t.maxEntries
    decreases |script|
  {
    if script != [] {
      assert script[0] in script;
      assert Sound(script) ==> Sound(script[1..]);
      if script[0].Put? {
        WriteBounds(t, script[0].src, script[0].file);
        var (t', err) := Written(t, script[0].src, script[0].file);
        if err.None? {
          PlaySucceedsIff(t', script[1..]);
          assert Sound(script) <==> Sound(script[1..]) by {
            assert forall e :: e in script <==> e == script[0] || e in script[1..];
          }
        }
      }
    }
  }

  ghost function FileCount(script: seq<Event>): nat {
    if script == [] then 0
    else (if script[0].Put? && script[0].file then 1 else 0) + FileCount(script[1..])
  }

  lemma {:induction false} PlayCountsFiles(t: Tally, script: seq<Event>)
    ensures Play(t, script).1.None? ==> Play(t, script).0.files == t.files + FileCount(script)
    decreases |script|
  {
    if script != [] && script[0].Put? {
      PlayCountsFiles(Written(t, script[0].src, script[0].file).0, script[1..]);
    }
  }

  /**
   Every upload. A successful one stored each source whole, in at most limit bytes and maxEntries
   writes; a failing one wrote at most limit + 1 bytes. It succeeds exactly when nothing in it is
   unreadable, it all fits, and some file lands.
   */
  lemma {:induction false} UploadStaysInBudget(parts: seq<Part>, limit: nat, maxEntries: nat)
    ensures
      var (t, err) := Staged(parts, limit, maxEntries);
      && t.written <= limit + 1 && t.entries <= maxEntries
      && (err.None? ==> t.written == Sizes(Script(parts)) <= limit && t.stored == Contents(Script(parts)))
      && (err.None? <==>
            Sound(Script(parts)) && Sizes(Script(parts)) <= limit && |Script(parts)| <= maxEntries
            && FileCount(Script(parts)) > 0)
  {
    hide Play, Script, Sizes, Contents, FileCount, Sound;
    PlayBounds(Fresh(limit, maxEntries), Script(parts));
    PlaySucceedsIff(Fresh(limit, maxEntries), Script(parts));
    PlayCountsFiles(Fresh(limit, maxEntries), Script(parts));
    assert [] + Contents(Script(parts)) == Contents(Script(parts));
  }

  // ----- the code -----

  class Budget {
    const limit: nat
    const maxEntries: nat
    var remaining: nat
    var entries: nat
    ghost var written: nat
    ghost var stored: seq<seq<byte>>
    ghost var files: nat
    ghost var stopped: bool   // a write has failed

    constructor (limit: nat, maxEntries: nat)
      ensures Now() == Fresh(limit, maxEntries) && !stopped
    {
      this.limit, remaining, entries, this.maxEntries := limit, limit, 0, maxEntries;
      written, stored, files, stopped := 0, [], 0, false;
    }

    ghost function Now(): Tally
      reads this
    {
      Tally(limit, remaining, entries, maxEntries, written, stored, files)
    }

    /** Never called again once it has failed. */
    method Write(src: Source, ghost file: bool) returns (err: Option<Error>)
      requires !stopped
      modifies this
      ensures (Now(), err) == Written(old(Now()), src, file)
      ensures stopped <==> err.Some?
    {
      if entries >= maxEntries {
        stopped := true;
        return Some(TooLarge);
      }
      entries := entries + 1;
      var n;
      n, err := CopyStaged(src, remaining);
      remaining := remaining - (if n < remaining then n else remaining);
      written := written + n;
      stored := stored + [src.data[..Min(n, |src.data|)]];
      files := files + if file && err.None? then 1 else 0;
      stopped := err.Some?;
    }
  }

  /** io.CopyN of limit + 1 bytes, one by one, and the verdict on how many arrived. */
  method CopyStaged(src: Source, limit: nat) returns (n: nat, err: Option<Error>)
    ensures (n, err) == Copied(src, limit)
  {
    n := 0;
    while n < |src.data| && n < limit + 1 && src.fault != Some(n)
      invariant n <= |src.data| && n <= limit + 1
      invariant src.fault.Some? ==> src.fault.value >= n
      decreases |src.data| - n
    {
      n := n + 1;
    }
    if src.fault == Some(n) && n <= limit {
      return n, Some(Internal);
    }
    if n > limit {
      return n, Some(TooLarge);
    }
    return n, None;
  }
}
