/**
 Which archives retention removes: Prune of internal/backup/prune.go. Archives come newest first.
*/
module Retention {

  datatype Entry = Entry(id: string, consistent: bool, snapshot: bool, pinned: bool, flagged: bool)

  datatype Policy = Policy(keepCold: int, keepHot: int)

  datatype Class = Cold | Hot | Snapshot

  function ClassOf(a: Entry): Class {
    if a.snapshot then Snapshot else if a.consistent then Cold else Hot
  }

  function LimitOf(policy: Policy, c: Class): int {
    if c == Hot then policy.keepHot else policy.keepCold
  }

  // ----- the rule, by counting -----

  predicate Counts(a: Entry, c: Class) { !a.pinned && ClassOf(a) == c }

  /** An archive that may be a class's last good one. */
  predicate Good(a: Entry, c: Class) { c != Snapshot && Counts(a, c) && !a.flagged }

  ghost function Count(archives: seq<Entry>, c: Class): nat {
    if archives == [] then 0
    else Count(archives[..|archives| - 1], c) + if Counts(archives[|archives| - 1], c) then 1 else 0
  }

  ghost predicate HasGood(archives: seq<Entry>, c: Class) {
    exists i :: 0 <= i < |archives| && Good(archives[i], c)
  }

  /**
   Whether a goes, given the archives newer than it: it is unpinned, its class has a limit and that
   many newer archives, and it is not the class's newest unflagged one.
   */
  ghost predicate Condemned(newer: seq<Entry>, a: Entry, policy: Policy) {
    var c := ClassOf(a);
    && !a.pinned
    && 0 < LimitOf(policy, c) <= Count(newer, c)
    && !(Good(a, c) && !HasGood(newer, c))
  }

  ghost function Doomed(archives: seq<Entry>, policy: Policy): seq<Entry> {
    if archives == [] then []
    else
      var newer, a := archives[..|archives| - 1], archives[|archives| - 1];
      Doomed(newer, policy) + if Condemned(newer, a, policy) then [a] else []
  }

  ghost function Survivors(archives: seq<Entry>, policy: Policy): seq<Entry> {
    if archives == [] then []
    else
      var newer, a := archives[..|archives| - 1], archives[|archives| - 1];
      Survivors(newer, policy) + if Condemned(newer, a, policy) then [] else [a]
  }

  // ----- the code -----

  class ClassCount {
    var kept: nat
    var sawUnflagged: bool

    constructor ()
      ensures kept == 0 && !sawUnflagged
    {
      kept, sawUnflagged := 0, false;
    }

    /** What the tally of class c knows of the archives read so far. */
    ghost predicate Knows(read: seq<Entry>, c: Class, limit: int)
      reads this
    {
      && (limit > 0 ==> kept == if Count(read, c) < limit then Count(read, c) else limit)
      && (c != Snapshot ==> (sawUnflagged <==> HasGood(read, c)))
    }

    /** One unpinned archive of the class: counted, kept as the last good one, or doomed. */
    method Judge(a: Entry, policy: Policy, limit: int, ghost read: seq<Entry>) returns (dooms: bool)
      requires !a.pinned && limit == LimitOf(policy, ClassOf(a)) && Knows(read, ClassOf(a), limit)
      modifies this
      ensures Knows(read + [a], ClassOf(a), limit)
      ensures dooms <==> Condemned(read, a, policy)
    {
      ReadOne(read, a, ClassOf(a));
      var lastGood := !a.snapshot && !a.flagged && !sawUnflagged;
      if lastGood {
        sawUnflagged := true;
      }
      if limit <= 0 {
        return false;
      }
      if kept < limit {
        kept := kept + 1;
        return false;
      }
      return !lastGood;
    }
  }

  lemma {:induction false} NothingRead(policy: Policy)
    ensures Doomed([], policy) == [] && forall c :: Count([], c) == 0 && !HasGood([], c)
  {
  }

  lemma {:induction false} ReadNext(archives: seq<Entry>, i: nat, policy: Policy)
    requires i < |archives|
    ensures archives[..i + 1] == archives[..i] + [archives[i]]
    ensures Doomed(archives[..i + 1], policy)
            == Doomed(archives[..i], policy) + if Condemned(archives[..i], archives[i],
                  policy) then [archives[i]] else []
    ensures archives[i].pinned ==> !Condemned(archives[..i], archives[i], policy)
    ensures forall c :: !Counts(archives[i], c) ==>
              && Count(archives[..i + 1], c) == Count(archives[..i], c)
              && (HasGood(archives[..i + 1], c) <==> HasGood(archives[..i], c))
  {
    assert archives[..i + 1] == archives[..i] + [archives[i]];
    assert archives[..i + 1][..i] == archives[..i];
    forall c { ReadOne(archives[..i], archives[i], c); }
  }

  /** The walk: one tally per class, and the archives none of them keeps. */
  method Prune(archives: seq<Entry>, policy: Policy) returns (doomed: seq<Entry>)
    ensures doomed == Doomed(archives, policy)
  {
    hide Condemned, Doomed, HasGood, Count;
    doomed := [];
    var cold := new ClassCount();
    var hot := new ClassCount();
    var snapshots := new ClassCount();
    NothingRead(policy);
    assert archives[..0] == [];
    for i := 0 to |archives|
      invariant doomed == Doomed(archives[..i], policy)
      invariant cold.Knows(archives[..i], Cold, policy.keepCold)
      invariant hot.Knows(archives[..i], Hot, policy.keepHot)
      invariant snapshots.Knows(archives[..i], Snapshot, policy.keepCold)
    {
      var a := archives[i];
      ReadNext(archives, i, policy);
      if a.pinned { continue; }
      var tally, limit := cold, policy.keepCold;
      if a.snapshot {
        tally := snapshots;
      } else if !a.consistent {
        tally, limit := hot, policy.keepHot;
      }
      var dooms := tally.Judge(a, policy, limit, archives[..i]);
      if dooms {
        doomed := doomed + [a];
      }
    }
    assert archives[..|archives|] == archives;
  }

  lemma {:induction false} ReadOne(read: seq<Entry>, a: Entry, c: Class)
    ensures Count(read + [a], c) == Count(read, c) + if Counts(a, c) then 1 else 0
    ensures HasGood(read + [a], c) <==> HasGood(read, c) || Good(a, c)
  {
    var all := read + [a];
    assert all[..|all| - 1] == read;
    if i :| 0 <= i < |read| && Good(read[i], c) { assert Good(all[i], c); }
    if Good(a, c) { assert Good(all[|read|], c); }
  }

  // ----- what the rule guarantees -----

  /**
   What pruning leaves of a class: all of it under its limit, else the limit or one more, and its
   last good archive whenever it had a good one. A class without a limit keeps everything.
   */
  lemma {:induction false} SurvivorsKeepTheTally(archives: seq<Entry>, policy: Policy, c: Class)
    ensures
      var left, limit := Survivors(archives, policy), LimitOf(policy, c);
      && (HasGood(left, c) <==> HasGood(archives, c))
      && if limit <= 0 || Count(archives, c) < limit then Count(left, c) == Count(archives, c)
         else limit <= Count(left, c) <= limit + if HasGood(archives, c) then 1 else 0
  {
    if archives != [] {
      var newer, a := archives[..|archives| - 1], archives[|archives| - 1];
      SurvivorsKeepTheTally(newer, policy, c);
      assert archives == newer + [a];
      ReadOne(newer, a, c);
      ReadOne(Survivors(newer, policy), a, c);
      assert Survivors(newer, policy) + [] == Survivors(newer, policy);
    }
  }

  /** Pruning the survivors again removes nothing. */
  lemma {:induction false} PruneIsIdempotent(archives: seq<Entry>, policy: Policy)
    ensures Doomed(Survivors(archives, policy), policy) == []
    ensures Survivors(Survivors(archives, policy), policy) == Survivors(archives, policy)
  {
    if archives != [] {
      var newer, a := archives[..|archives| - 1], archives[|archives| - 1];
      var left := Survivors(newer, policy);
      PruneIsIdempotent(newer, policy);
      if Condemned(newer, a, policy) {
        assert left + [] == left;
      } else {
        SurvivorsKeepTheTally(newer, policy, ClassOf(a));
        assert !Condemned(left, a, policy);
        assert (left + [a])[..|left + [a]| - 1] == left;
      }
    }
  }

  /** Every archive is either removed or left, in its place. */
  lemma {:induction false} PruneSplits(archives: seq<Entry>, policy: Policy)
    ensures multiset(Doomed(archives, policy)) + multiset(Survivors(archives, policy)) == multiset(archives)
    ensures forall a :: a in Doomed(archives, policy) ==> !a.pinned
  {
    if archives != [] {
      var newer, a := archives[..|archives| - 1], archives[|archives| - 1];
      PruneSplits(newer, policy);
      assert archives == newer + [a];
    }
  }

  ghost function OfClass(archives: seq<Entry>, c: Class): seq<Entry> {
    if archives == [] then []
    else
      var newer, a := archives[..|archives| - 1], archives[|archives| - 1];
      OfClass(newer, c) + if Counts(a, c) then [a] else []
  }

  lemma {:induction false} ClassAlone(archives: seq<Entry>, c: Class)
    ensures Count(OfClass(archives, c), c) == Count(archives, c)
    ensures HasGood(OfClass(archives, c), c) <==> HasGood(archives, c)
  {
    if archives != [] {
      var newer, a := archives[..|archives| - 1], archives[|archives| - 1];
      ClassAlone(newer, c);
      assert archives == newer + [a];
      ReadOne(newer, a, c);
      ReadOne(OfClass(newer, c), a, c);
      assert OfClass(newer, c) + [] == OfClass(newer, c);
    }
  }

  lemma {:induction false} OfClassAppend(archives: seq<Entry>, a: Entry, c: Class)
    ensures OfClass(archives + [a], c) == OfClass(archives, c) + if Counts(a, c) then [a] else []
    ensures OfClass(archives + [], c) == OfClass(archives, c)
  {
    assert (archives + [a])[..|archives + [a]| - 1] == archives;
    assert archives + [] == archives;
  }

  /** The classes do not interfere: what goes of one is what would go were it alone. */
  lemma {:induction false} ClassesDoNotInterfere(archives: seq<Entry>, policy: Policy, c: Class)
    ensures OfClass(Doomed(archives, policy), c) == Doomed(OfClass(archives, c), policy)
  {
    if archives != [] {
      var newer, a := archives[..|archives| - 1], archives[|archives| - 1];
      var alone := OfClass(newer, c);
      ClassesDoNotInterfere(newer, policy, c);
      OfClassAppend(Doomed(newer, policy), a, c);
      if Counts(a, c) {
        ClassAlone(newer, c);
        assert Condemned(newer, a, policy) <==> Condemned(alone, a, policy);
        assert (alone + [a])[..|alone + [a]| - 1] == alone;
      } else {
        assert alone + [] == alone;
      }
    }
  }

  lemma {:induction false} CountConcat(a: seq<Entry>, b: seq<Entry>, c: Class)
    ensures Count(a + b, c) == Count(a, c) + Count(b, c)
    ensures HasGood(b, c) ==> HasGood(a + b, c)
  {
    if b == [] {
      assert a + b == a;
    } else {
      var older, x := b[..|b| - 1], b[|b| - 1];
      CountConcat(a, older, c);
      assert a + b == (a + older) + [x] && b == older + [x];
      ReadOne(a + older, x, c);
      ReadOne(older, x, c);
    }
  }

  lemma {:induction false} CondemnedStays(newer: seq<Entry>, older: seq<Entry>, a: Entry, policy: Policy)
    ensures Condemned(older, a, policy) ==> Condemned(newer + older, a, policy)
  {
    CountConcat(newer, older, ClassOf(a));
  }

  /** Which of archives go once newer ones stand in front of them. */
  ghost function Still(newer: seq<Entry>, archives: seq<Entry>, policy: Policy): seq<Entry> {
    if archives == [] then []
    else
      var older, a := archives[..|archives| - 1], archives[|archives| - 1];
      Still(newer, older, policy) + if Condemned(newer + older, a, policy) then [a] else []
  }

  lemma {:induction false} DoomedBehind(newer: seq<Entry>, archives: seq<Entry>, policy: Policy)
    ensures Doomed(newer + archives, policy) == Doomed(newer, policy) + Still(newer, archives, policy)
  {
    if archives == [] {
      assert newer + archives == newer;
      assert Doomed(newer, policy) + [] == Doomed(newer, policy);
    } else {
      var older, a := archives[..|archives| - 1], archives[|archives| - 1];
      DoomedBehind(newer, older, policy);
      hide Condemned;
      assert (newer + archives)[..|newer + archives| - 1] == newer + older;
      var last := if Condemned(newer + older, a, policy) then [a] else [];
      assert Doomed(newer, policy) + (Still(newer, older, policy) + last)
          == Doomed(newer, policy) + Still(newer, older, policy) + last;
    }
  }

  /** Newer archives never rescue a doomed one: what goes now still goes with them in front. */
  lemma {:induction false} NewerNeverRescue(newer: seq<Entry>, archives: seq<Entry>, policy: Policy)
    ensures Doomed(newer + archives, policy) == Doomed(newer, policy) + Still(newer, archives, policy)
    ensures Within(Doomed(archives, policy), Still(newer, archives, policy))
  {
    DoomedBehind(newer, archives, policy);
    if archives != [] {
      var older, a := archives[..|archives| - 1], archives[|archives| - 1];
      NewerNeverRescue(newer, older, policy);
      CondemnedStays(newer, older, a, policy);
      hide Condemned;
      WithinAppend(Doomed(older, policy), Still(newer, older, policy), a,
                   Condemned(older, a, policy), Condemned(newer + older, a, policy));
    }
  }

  /** part is what is left of whole after some of it is taken out. */
  ghost predicate Within(part: seq<Entry>, whole: seq<Entry>) {
    if part == [] then true
    else if whole == [] then false
    else
      var p, w := |part| - 1, |whole| - 1;
      (part[p] == whole[w] && Within(part[..p], whole[..w])) || Within(part, whole[..w])
  }

  lemma {:induction false} WithinAppend(part: seq<Entry>, whole: seq<Entry>, a: Entry, now: bool, later: bool)
    requires Within(part, whole) && (now ==> later)
    ensures Within(part + (if now then [a] else []), whole + (if later then [a] else []))
  {
    assert part + [] == part && whole + [] == whole;
    assert (part + [a])[..|part + [a]| - 1] == part && (whole + [a])[..|whole + [a]| - 1] == whole;
  }

  // ----- the rule, by the archives' own fields -----

  predicate SameClass(a: Entry, b: Entry) {
    a.snapshot == b.snapshot && (!a.snapshot ==> a.consistent == b.consistent)
  }

  /** The unpinned archives of its class that are newer than the i-th. */
  ghost function NewerLike(archives: seq<Entry>, i: nat): set<nat>
    requires i < |archives|
  {
    set j: nat | j < i && !archives[j].pinned && SameClass(archives[j], archives[i])
  }

  ghost function CountedAt(archives: seq<Entry>, c: Class): set<nat> {
    set j: nat | j < |archives| && Counts(archives[j], c)
  }

  lemma {:induction false} OneMoreCounted(read: seq<Entry>, a: Entry, c: Class)
    ensures |CountedAt(read + [a], c)| == |CountedAt(read, c)| + if Counts(a, c) then 1 else 0
  {
    hide Counts;
    var n, before := |read|, CountedAt(read, c);
    assert CountedAt(read + [a], c) == if Counts(a, c) then before + {n} else before;
  }

  lemma {:induction false} CountIsSize(archives: seq<Entry>, c: Class)
    ensures Count(archives, c) == |CountedAt(archives, c)|
  {
    if archives == [] {
      assert CountedAt(archives, c) == {};
    } else {
      var n := |archives| - 1;
      CountIsSize(archives[..n], c);
      hide CountedAt, Counts;
      OneMoreCounted(archives[..n], archives[n], c);
      assert archives == archives[..n] + [archives[n]];
    }
  }

  /** An archive that is not a snapshot nor flagged, and of which every newer one of its class is flagged. */
  ghost predicate NewestGood(archives: seq<Entry>, i: nat)
    requires i < |archives|
  {
    !archives[i].snapshot && !archives[i].flagged && forall j :: j in NewerLike(archives, i) ==> archives[j].flagged
  }

  ghost predicate Goes(archives: seq<Entry>, i: nat, policy: Policy)
    requires i < |archives|
  {
    var a := archives[i];
    var limit := if a.snapshot || a.consistent then policy.keepCold else policy.keepHot;
    !a.pinned && 0 < limit <= |NewerLike(archives, i)| && !NewestGood(archives, i)
  }

  lemma {:induction false} CondemnedGoes(archives: seq<Entry>, i: nat, policy: Policy)
    requires i < |archives|
    ensures Condemned(archives[..i], archives[i], policy) <==> Goes(archives, i, policy)
  {
    var a, newer := archives[i], archives[..i];
    var c := ClassOf(a);
    if !a.pinned {
      CountIsSize(newer, c);
      forall j | 0 <= j < i ensures Counts(newer[j], c) <==> !archives[j].pinned && SameClass(archives[j], a) {
      }
      assert CountedAt(newer, c) == NewerLike(archives, i);
      hide Count;
      if !a.snapshot && !a.flagged {
        assert HasGood(newer, c) <==> !NewestGood(archives, i) by { GoodAmongNewer(archives, i); }
      }
    }
  }

  lemma {:induction false} GoodAmongNewer(archives: seq<Entry>, i: nat)
    requires i < |archives| && !archives[i].snapshot
    ensures HasGood(archives[..i], ClassOf(archives[i])) <==>
              exists j :: j in NewerLike(archives, i) && !archives[j].flagged
  {
    var newer, c := archives[..i], ClassOf(archives[i]);
    if j :| 0 <= j < |newer| && Good(newer[j], c) { assert j in NewerLike(archives, i); }
    if j :| j in NewerLike(archives, i) && !archives[j].flagged { assert Good(newer[j], c); }
  }

  /**
   One archive at a time, newest first, in its own fields: what goes are the unpinned ones past the limit of their
   class, hot copies by their own limit and all else by the cold one, but for the newest unflagged of a class.
  */
  lemma {:induction false} PruneIsExact(archives: seq<Entry>, i: nat, policy: Policy)
    requires i < |archives|
    ensures Doomed([], policy) == []
    ensures Doomed(archives[..i + 1], policy)
            == Doomed(archives[..i], policy) + if Goes(archives, i, policy) then [archives[i]] else []
  {
    ReadNext(archives, i, policy);
    CondemnedGoes(archives, i, policy);
    hide Condemned, Goes;
  }
}
