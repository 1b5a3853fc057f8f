/**
 How concurrent uploads share the disk: reserveUpload and its release in internal/api/worlds.go.
 The first half is the code over the map of reservations, with the machine's 64-bit arithmetic; the
 second is every interleaving of uploads reserving, writing, removing and releasing.
*/
module UploadAdmission {
  import opened Optional
  import opened Text

  const U64: nat := 0x1_0000_0000_0000_0000
  const UPLOAD_LIMIT: nat := 0x1_0000_0000

  function Add64(a: nat, b: nat): nat { (a + b) % U64 }

  function Sub64(a: nat, b: nat): nat { (a - b) % U64 }

  // ----- sums over a map -----

  ghost function Sum<V>(m: map<string, V>, f: V -> int): int
    decreases |m|
  {
    if m == map[] then 0
    else
      var k :| k in m;
      f(m[k]) + Sum(m - {k}, f)
  }

  lemma {:induction false} SumWithout<V>(m: map<string, V>, f: V -> int, k: string)
    requires k in m
    ensures Sum(m, f) == f(m[k]) + Sum(m - {k}, f)
    decreases |m|
  {
    var j :| j in m && Sum(m, f) == f(m[j]) + Sum(m - {j}, f);
    if j != k {
      SumWithout(m - {j}, f, k);
      SumWithout(m - {k}, f, j);
      assert m - {j} - {k} == m - {k} - {j};
    }
  }

  lemma {:induction false} SumWith<V>(m: map<string, V>, f: V -> int, k: string, v: V)
    requires k !in m
    ensures Sum(m[k := v], f) == f(v) + Sum(m, f)
  {
    SumWithout(m[k := v], f, k);
    assert m[k := v] - {k} == m;
  }

  lemma {:induction false} SumUpdated<V>(m: map<string, V>, f: V -> int, k: string, v: V)
    requires k in m
    ensures Sum(m[k := v], f) == Sum(m, f) - f(m[k]) + f(v)
  {
    SumWithout(m, f, k);
    SumWithout(m[k := v], f, k);
    assert m[k := v] - {k} == m - {k};
  }

  lemma {:induction false} SumBelow<V>(m: map<string, V>, f: V -> int, g: V -> int)
    requires forall k :: k in m ==> f(m[k]) <= g(m[k])
    ensures Sum(m, f) <= Sum(m, g)
    decreases |m|
  {
    if m != map[] {
      var k :| k in m;
      SumWithout(m, f, k);
      SumWithout(m, g, k);
      SumBelow(m - {k}, f, g);
    }
  }

  // ----- reserveUpload -----

  function Id(n: nat): int { n }

  /** What may be reserved: free space above the floor less what others reserved. */
  function Headroom(free: nat, floor: nat, reserved: nat): nat {
    if floor + reserved < free then free - floor - reserved else 0
  }

  /** The budget an admitted upload gets. */
  function Allowance(free: nat, floor: nat, reserved: nat): nat {
    var headroom := Headroom(free, floor, reserved);
    if headroom < UPLOAD_LIMIT then headroom else UPLOAD_LIMIT
  }

  /** It is the most that the limit of 4 GiB and the space above the floor and what others reserved both allow. */
  lemma {:induction false} AllowanceIsGreatest(free: nat, floor: nat, reserved: nat, b: nat)
    ensures
      var most := Allowance(free, floor, reserved);
      && most <= 4 * 1024 * 1024 * 1024 && (most > 0 ==> floor + reserved + most <= free)
      && (b <= 4 * 1024 * 1024 * 1024 && floor + reserved + b <= free ==> b <= most)
  {
  }

  /** Exactly when an upload is admitted. */
  predicate Admits(taken: bool, free: nat, floor: nat, reserved: nat, contentLength: int) {
    !taken && Allowance(free, floor, reserved) > 0 && contentLength <= Allowance(free, floor, reserved)
  }

  /** n bytes are within the limit and leave what is taken of the free space alone. */
  predicate Fits(free: nat, taken: nat, n: nat) { n <= 4 * 1024 * 1024 * 1024 && taken + n <= free }

  /** A body of no or of unknown length needs one byte. */
  function AtLeastOne(contentLength: int): nat { if contentLength > 0 then contentLength else 1 }

  class Reservations {
    var uploads: map<string, nat>

    /** Every sum the handler forms fits its 64-bit word. */
    ghost predicate Valid()
      reads this
    {
      0 <= Sum(uploads, Id) < U64
    }

    constructor ()
      ensures Valid() && uploads == map[]
    {
      uploads := map[];
    }

    /**
     reserveUpload under uploadMu: free is the reading taken under the lock. The machine arithmetic
     never wraps, so the answer is the one over the integers.
     */
    method ReserveUpload(id: string, free: nat, floor: nat, contentLength: int) returns (budget: nat, ok: bool)
      requires Valid() && free < U64 && floor < U64
      modifies this
      ensures Valid()
      ensures ok <==> Admits(id in old(uploads), free, floor, Sum(old(uploads), Id), contentLength)
      ensures ok ==> budget == Allowance(free, floor, Sum(old(uploads), Id))
      ensures ok ==> budget > 0 && budget <= UPLOAD_LIMIT && contentLength <= budget
      ensures ok ==> floor + Sum(old(uploads), Id) + budget <= free
      ensures ok ==> uploads == old(uploads)[id := budget]
      ensures !ok ==> uploads == old(uploads)
      ensures ok <==>
            id !in old(uploads) && Fits(free, floor + Sum(old(uploads), Id), AtLeastOne(contentLength))
    {
      if id in uploads {
        return 0, false;
      }
      hide Sub64, Sum;
      var reserved := Reserved();
      var headroom := 0;
      if floor < free { Subtracts(free, floor); }
      if floor < free && reserved < Sub64(free, floor) {
        Subtracts(free - floor, reserved);
        headroom := Sub64(Sub64(free, floor), reserved);
      }
      budget := if headroom < UPLOAD_LIMIT then headroom else UPLOAD_LIMIT;
      if budget == 0 || budget < contentLength {
        return 0, false;
      }
      SumWith(uploads, Id, id, budget);
      uploads := uploads[id := budget];
      return budget, true;
    }

    /** The loop over the map: the sum wraps in principle and never does. */
    method Reserved() returns (reserved: nat)
      requires Valid()
      ensures reserved == Sum(uploads, Id)
    {
      hide Sum;
      reserved := 0;
      var left := uploads;
      while left != map[]
        invariant forall n :: n in left ==> n in uploads && left[n] == uploads[n]
        invariant reserved + Sum(left, Id) == Sum(uploads, Id)
        decreases |left|
      {
        var n :| n in left;
        TakeOne(left, n, reserved, Sum(uploads, Id));
        left, reserved := left - {n}, Add64(reserved, left[n]);
      }
      NothingSums(left);
    }

    method Release(id: string)
      requires Valid()
      modifies this
      ensures Valid() && uploads == old(uploads) - {id}
    {
      if id in uploads {
        SumWithout(uploads, Id, id);
        SumIsNat(uploads - {id});
      } else {
        assert uploads - {id} == uploads;
      }
      uploads := uploads - {id};
    }
  }

  lemma {:induction false} NothingSums(m: map<string, nat>)
    requires m == map[]
    ensures Sum(m, Id) == 0
  {
  }

  lemma {:induction false} Subtracts(a: nat, b: nat)
    requires b <= a < U64
    ensures Sub64(a, b) == a - b
  {
  }

  /** One more addend does not wrap while the whole sum fits. */
  lemma {:induction false} TakeOne(left: map<string, nat>, n: string, reserved: nat, total: int)
    requires n in left && reserved + Sum(left, Id) == total < U64
    ensures Add64(reserved, left[n]) == reserved + left[n]
    ensures reserved + left[n] + Sum(left - {n}, Id) == total && |left - {n}| < |left|
  {
    SumWithout(left, Id, n);
    SumIsNat(left - {n});
  }

  lemma {:induction false} SumIsNat(m: map<string, nat>)
    ensures Sum(m, Id) >= 0
    decreases |m|
  {
    if m != map[] {
      var k :| k in m;
      SumWithout(m, Id, k);
      SumIsNat(m - {k});
    }
  }

  // ----- every interleaving -----

  /** An upload's reservation, what it wrote under it, what of that is still on disk. */
  datatype Upload = Upload(budget: nat, written: nat, onDisk: nat, stopped: bool)

  /** A reservation in progress holds the lock: it has read free space and not yet reserved. */
  datatype Pending = Pending(id: string, free: nat, floor: nat, contentLength: int)

  datatype Panel = Panel(
    free: nat,
    floor: nat,                       // the configured floor; a server may report a higher one
    uploads: map<string, Upload>,
    pending: Option<Pending>,
    leftOver: nat,                    // failed uploads released with their last byte still on disk
    admitted: bool)                   // history: some upload has been admitted

  function BudgetOf(u: Upload): int { u.budget }
  function OnDisk(u: Upload): int { u.onDisk }
  function Unused(u: Upload): int { u.budget - u.onDisk }
  function Unwritten(u: Upload): int { if u.written < u.budget then u.budget - u.written else 0 }
  function UnusedAndOver(u: Upload): int { Unused(u) + Over(u) }
  function Over(u: Upload): int { if u.written > u.budget then 1 else 0 }

  ghost predicate Next(s: Panel, s': Panel) {
    || (exists p :: Lock(s, s', p))
    || Reserve(s, s')
    || (s.pending.Some? && s' == s.(pending := None))
    || (exists id, n :: Write(s, s', id, n))
    || (exists id :: id in s.uploads && s' == s.(uploads := s.uploads[id := s.uploads[id].(stopped := true)]))
    || (exists id, n :: Remove(s, s', id, n))
    || (exists id :: Release(s, s', id))
    || (s'.free >= s.free && s' == s.(free := s'.free))
  }

  /** The lock is taken, the instance has no upload, and free space is read. */
  ghost predicate Lock(s: Panel, s': Panel, p: Pending) {
    s.pending.None? && p.id !in s.uploads && p.free == s.free && p.floor >= s.floor && s' == s.(pending := Some(p))
  }

  /** The budget is computed from that reading, whatever was written since, and the lock released. */
  ghost predicate Reserve(s: Panel, s': Panel) {
    s.pending.Some? &&
    var p, reserved := s.pending.value, Sum(s.uploads, BudgetOf);
    && reserved >= 0 && Admits(p.id in s.uploads, p.free, p.floor, reserved, p.contentLength)
    && var budget := Allowance(p.free, p.floor, reserved);
    s' == s.(uploads := s.uploads[p.id := Upload(budget, 0, 0, false)], pending := None, admitted := true)
  }

  /** Bytes reach the disk: within the budget and one more, which is the last. */
  ghost predicate Write(s: Panel, s': Panel, id: string, n: nat) {
    id in s.uploads && 0 < n <= s.free &&
    var u := s.uploads[id];
    && !u.stopped && u.written + n <= u.budget + 1
    && s' == s.(free := s.free - n,
                uploads := s.uploads[id := u.(written := u.written + n, onDisk := u.onDisk + n,
                                              stopped := u.written + n > u.budget)])
  }

  /** A temporary zip or a failed staging is removed, in part or whole. */
  ghost predicate Remove(s: Panel, s': Panel, id: string, n: nat) {
    id in s.uploads && n <= s.uploads[id].onDisk &&
    s' == s.(free := s.free + n, uploads := s.uploads[id := s.uploads[id].(onDisk := s.uploads[id].onDisk - n)])
  }

  /** release needs the lock, and leaves on disk whatever is on disk. */
  ghost predicate Release(s: Panel, s': Panel, id: string) {
    s.pending.None? && id in s.uploads &&
    s' == s.(uploads := s.uploads - {id},
             leftOver := s.leftOver + if s.uploads[id].onDisk > s.uploads[id].budget then 1 else 0)
  }

  ghost predicate Init(s: Panel) {
    s.uploads == map[] && s.pending.None? && s.leftOver == 0 && s.free < U64 && !s.admitted
  }

  ghost predicate StepAt(run: seq<Panel>, i: nat) {
    0 < i < |run| && Next(run[i - 1], run[i])
  }

  ghost predicate IsRun(run: seq<Panel>) {
    |run| > 0 && Init(run[0]) && forall i :: 0 < i < |run| ==> StepAt(run, i)
  }

  // ----- what every interleaving keeps -----

  ghost predicate Sensible(s: Panel) {
    forall id :: id in s.uploads ==>
      var u := s.uploads[id];
      u.onDisk <= u.written <= u.budget + 1 && (u.written > u.budget ==> u.stopped)
  }

  /** Free space covers the floor and what is reserved and not on disk, once anything was reserved. */
  ghost predicate Covered(s: Panel) {
    && (s.uploads != map[] ==> s.admitted)
    && (s.admitted ==> s.free + s.leftOver >= s.floor + Sum(s.uploads, Unused))
  }

  /** The reading a pending reservation holds is still covered, whatever was written since. */
  ghost predicate ReadingHolds(s: Panel) {
    s.pending.Some? ==>
      var p := s.pending.value;
      p.id !in s.uploads && p.floor >= s.floor && s.free + Sum(s.uploads, OnDisk) >= p.free
  }

  ghost predicate Inv(s: Panel) {
    Sensible(s) && Covered(s) && ReadingHolds(s)
  }

  lemma {:induction false} SumOfUnused(m: map<string, Upload>)
    ensures Sum(m, Unused) == Sum(m, BudgetOf) - Sum(m, OnDisk)
    ensures Sum(m, BudgetOf) >= 0 && Sum(m, OnDisk) >= 0
    decreases |m|
  {
    if m != map[] {
      var k :| k in m;
      SumWithout(m, Unused, k);
      SumWithout(m, BudgetOf, k);
      SumWithout(m, OnDisk, k);
      SumOfUnused(m - {k});
    }
  }

  lemma {:induction false} UploadChanges(s: Panel, s': Panel, id: string, u: Upload)
    requires Inv(s) && id in s.uploads && u.budget == s.uploads[id].budget
    requires u.onDisk <= u.written <= u.budget + 1 && (u.written > u.budget ==> u.stopped)
    requires s' == s.(free := s'.free, uploads := s.uploads[id := u])
    requires s'.free + u.onDisk == s.free + s.uploads[id].onDisk
    ensures Inv(s')
  {
    SumUpdated(s.uploads, Unused, id, u);
    SumUpdated(s.uploads, OnDisk, id, u);
  }

  lemma {:induction false} ReserveKeepsInv(s: Panel, s': Panel)
    requires Inv(s) && Reserve(s, s')
    ensures Inv(s')
  {
    var p := s.pending.value;
    SumOfUnused(s.uploads);
    SumWith(s.uploads, Unused, p.id, s'.uploads[p.id]);
  }

  lemma {:induction false} ReleaseKeepsInv(s: Panel, s': Panel, id: string)
    requires Inv(s) && Release(s, s', id)
    ensures Inv(s')
  {
    SumWithout(s.uploads, Unused, id);
  }

  lemma {:induction false} LockKeepsInv(s: Panel, s': Panel, p: Pending)
    requires Inv(s) && Lock(s, s', p)
    ensures Inv(s')
  {
    SumOfUnused(s.uploads);
  }

  lemma {:induction false} StepKeepsInv(s: Panel, s': Panel)
    requires Inv(s) && Next(s, s')
    ensures Inv(s')
  {
    if p :| Lock(s, s', p) {
      LockKeepsInv(s, s', p);
    } else if Reserve(s, s') {
      ReserveKeepsInv(s, s');
    } else if id, n :| Write(s, s', id, n) {
      UploadChanges(s, s', id, s'.uploads[id]);
    } else if id :| id in s.uploads && s' == s.(uploads := s.uploads[id := s.uploads[id].(stopped := true)]) {
      UploadChanges(s, s', id, s'.uploads[id]);
    } else if id, n :| Remove(s, s', id, n) {
      UploadChanges(s, s', id, s'.uploads[id]);
    } else if id :| Release(s, s', id) {
      ReleaseKeepsInv(s, s', id);
    }
  }

  lemma {:induction false} RunKeepsInv(run: seq<Panel>, i: nat)
    requires IsRun(run) && i < |run|
    ensures Inv(run[i])
  {
    if i > 0 {
      RunKeepsInv(run, i - 1);
      assert StepAt(run, i);
      StepKeepsInv(run[i - 1], run[i]);
    }
  }

  /**
   Over every interleaving, and with no other writer, from the first admission on free space covers the
   configured floor and all that is reserved and unwritten, less one byte for each upload that ran over and still holds
   its bytes or left them behind.
   */
  lemma {:induction false} DiskStaysAboveTheFloor(run: seq<Panel>, i: nat)
    requires IsRun(run) && i < |run| && run[i].admitted
    ensures
      var s := run[i];
      s.free + s.leftOver + Sum(s.uploads, Over) >= s.floor + Sum(s.uploads, Unwritten)
  {
    RunKeepsInv(run, i);
    var s := run[i];
    SumBelow(s.uploads, Unwritten, UnusedAndOver);
    SumAdds(s.uploads);
  }

  /** So it does in the state right after the last release, and from any admission on. */
  lemma {:induction false} AdmissionIsRemembered(run: seq<Panel>, i: nat, j: nat)
    requires IsRun(run) && i <= j < |run| && run[i].uploads != map[]
    ensures run[j].admitted
    decreases j
  {
    if i < j {
      AdmissionIsRemembered(run, i, j - 1);
      assert StepAt(run, j);
    } else {
      RunKeepsInv(run, i);
    }
  }

  lemma {:induction false} SumAdds(m: map<string, Upload>)
    ensures Sum(m, UnusedAndOver) == Sum(m, Unused) + Sum(m, Over)
    decreases |m|
  {
    if m != map[] {
      var k :| k in m;
      SumWithout(m, UnusedAndOver, k);
      SumWithout(m, Unused, k);
      SumWithout(m, Over, k);
      SumAdds(m - {k});
    }
  }
}
