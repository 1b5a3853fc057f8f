/**
 Which of two version texts is the higher one, by what is printed in them: the order of
 internal/mods/semver on the texts themselves.
*/
module VersionOrder {
  import opened Optional
  import opened Text
  import opened Decimal
  import opened SemVer

  /** major, minor and patch. */
  datatype Core = Core(a: nat, b: nat, c: nat)

  /** What an int of the panel holds. */
  predicate Fits(v: Core) {
    v.a <= 0x7FFF_FFFF_FFFF_FFFF && v.b <= 0x7FFF_FFFF_FFFF_FFFF && v.c <= 0x7FFF_FFFF_FFFF_FFFF
  }

  predicate Above(v: Core, w: Core) {
    v.a > w.a || (v.a == w.a && v.b > w.b) || (v.a == w.a && v.b == w.b && v.c > w.c)
  }

  function Release(v: Core): string { Dec(v.a) + "." + Dec(v.b) + "." + Dec(v.c) }

  /** A release, a dash, and identifiers with dots between them. */
  function PreRelease(v: Core, ids: seq<string>): string { Release(v) + "-" + Join(ids, '.') }

  predicate Identifiers(ids: seq<string>) {
    ids != [] && forall i :: 0 <= i < |ids| ==> ValidIdentifier(ids[i])
  }

  // ----- numbers -----

  lemma {:induction false} DigitsAppend(s: string, c: char, acc: nat)
    requires IsDigit(c)
    ensures Digits(s + [c], acc)
            == match Digits(s, acc) case None => None case Some(n) => Some(10 * n + (c - '0') as nat)
    decreases |s|
  {
    if s == "" {
      assert s + [c] == [c] && [c][1..] == "";
    } else {
      assert (s + [c])[1..] == s[1..] + [c];
      if IsDigit(s[0]) { DigitsAppend(s[1..], c, 10 * acc + (s[0] - '0') as nat); }
    }
  }

  lemma {:induction false} DigitsOfDec(n: nat)
    ensures Digits(Dec(n), 0) == Some(n)
  {
    if n < 10 {
      assert Dec(n)[1..] == "";
    } else {
      DigitsOfDec(n / 10);
      DigitsAppend(Dec(n / 10), Digit(n % 10), 0);
    }
  }

  lemma {:induction false} AtoiOfDec(n: nat)
    ensures Atoi(Dec(n)) == if n <= MAX_INT then Some(n) else None
    ensures '.' !in Dec(n) && '-' !in Dec(n)
  {
    DigitsOfDec(n);
    DecIsRead(n);
    assert Dec(n)[0] in Dec(n);
  }

  lemma {:induction false} LeadingZero(s: string)
    ensures Digits("0" + s, 0) == Digits(s, 0)
  {
    assert ("0" + s)[1..] == s;
  }

  /** A plus sign and leading zeros are read past; a minus sign is read before a zero only. */
  lemma {:induction false} SignsAreRead(n: nat)
    ensures n <= MAX_INT ==> Atoi("+" + Dec(n)) == Some(n) && Atoi("0" + Dec(n)) == Some(n)
    ensures Atoi("-" + Dec(n)) == if n == 0 then Some(0) else None
    ensures Atoi("") == None && Atoi("+") == None && Atoi("-") == None
  {
    DigitsOfDec(n);
    DecIsRead(n);
    LeadingZero(Dec(n));
    assert ("+" + Dec(n))[1..] == Dec(n) && ("-" + Dec(n))[1..] == Dec(n);
    hide Dec, Digits;
  }

  /** One letter, digit or dash is an identifier, and so are two identifiers put together; nothing else is. */
  lemma {:induction false} WhichIdentifiers(c: char, a: string, b: string)
    ensures ValidIdentifier([c]) <==> 'a' <= c <= 'z' || 'A' <= c <= 'Z' || '0' <= c <= '9' || c == '-'
    ensures !ValidIdentifier("")
    ensures a != "" && b != "" ==> (ValidIdentifier(a + b) <==> ValidIdentifier(a) && ValidIdentifier(b))
  {
    var one := [c];
    assert one[0] == c;
    if a != "" && b != "" {
      var both := a + b;
      assert forall i :: 0 <= i < |a| ==> both[i] == a[i];
      assert forall i :: 0 <= i < |b| ==> both[|a| + i] == b[i];
    }
  }

  // ----- texts -----

  lemma {:induction false} NoDash(s: string)
    requires '-' !in s
    ensures IndexOf(s, '-') == |s|
  {
    if s != "" { NoDash(s[1..]); }
  }

  lemma {:induction false} CoreIsSplit(v: Core)
    ensures Split(Release(v), '.') == [Dec(v.a), Dec(v.b), Dec(v.c)] && '-' !in Release(v)
  {
    AtoiOfDec(v.a);
    AtoiOfDec(v.b);
    AtoiOfDec(v.c);
    hide Dec, Split, Join, Atoi;
    var parts := [Dec(v.a), Dec(v.b), Dec(v.c)];
    SplitJoin(parts, '.');
    JoinThree(Dec(v.a), Dec(v.b), Dec(v.c));
  }

  lemma {:induction false} ReleaseIsRead(v: Core)
    ensures Parse(Release(v)) == if Fits(v) then Some(Version(v.a, v.b, v.c, "")) else None
  {
    CoreIsSplit(v);
    NoDash(Release(v));
    AtoiOfDec(v.a);
    AtoiOfDec(v.b);
    AtoiOfDec(v.c);
    hide Dec, Split, Atoi, Release, IndexOf;
    assert Release(v)[..|Release(v)|] == Release(v);
  }

  lemma {:induction false} IdentifiersAreSplit(ids: seq<string>)
    requires Identifiers(ids)
    ensures Split(Join(ids, '.'), '.') == ids && Join(ids, '.') != ""
  {
    forall i | 0 <= i < |ids| ensures '.' !in ids[i] { assert ValidIdentifier(ids[i]); }
    SplitJoin(ids, '.');
    assert ValidIdentifier(ids[0]);
    assert |ids[0]| > 0;
  }

  lemma {:induction false} PreReleaseIsRead(v: Core, ids: seq<string>)
    requires Identifiers(ids)
    ensures Parse(PreRelease(v, ids)) == if Fits(v) then Some(Version(v.a, v.b, v.c, Join(ids, '.'))) else None
  {
    CoreIsSplit(v);
    AtoiOfDec(v.a);
    AtoiOfDec(v.b);
    AtoiOfDec(v.c);
    IdentifiersAreSplit(ids);
    hide Dec, Split, Join, Atoi, Release, IndexOf, ValidIdentifier;
    var text := PreRelease(v, ids);
    IndexAfter(Release(v), '-', Join(ids, '.'));
    assert text == Release(v) + ['-'] + Join(ids, '.');
    assert text[..|Release(v)|] == Release(v) && text[|Release(v)| + 1..] == Join(ids, '.');
    forall id | id in ids ensures ValidIdentifier(id) {
      var i :| 0 <= i < |ids| && ids[i] == id;
    }
  }

  /** Of two releases the higher has the larger numbers, the major one first. */
  lemma {:induction false} ReleasesCompareByNumber(v: Core, w: Core)
    ensures Higher(Release(v), Release(w)) <==> Fits(v) && Fits(w) && Above(v, w)
  {
    ReleaseIsRead(v);
    ReleaseIsRead(w);
    hide Parse, Release;
  }

  /** Pre-releases compare by their cores first; a release is above every pre-release of it, and below none. */
  lemma {:induction false} PreReleasesCompareByCore(v: Core, w: Core, ids: seq<string>, others: seq<string>)
    requires Fits(v) && Fits(w) && Identifiers(ids) && Identifiers(others)
    ensures v != w ==> (Higher(PreRelease(v, ids), PreRelease(w, others)) <==> Above(v, w))
    ensures Higher(Release(v), PreRelease(w, ids)) <==> v == w || Above(v, w)
    ensures Higher(PreRelease(v, ids), Release(w)) <==> Above(v, w)
  {
    ReleaseIsRead(v);
    ReleaseIsRead(w);
    PreReleaseIsRead(v, ids);
    PreReleaseIsRead(w, ids);
    PreReleaseIsRead(w, others);
    IdentifiersAreSplit(ids);
    hide Parse, Release, PreRelease, Compare, Split, Join, Identifiers, Above;
    CoresCompare(v, w, Join(ids, '.'), Join(others, '.'));
    CoresCompare(v, w, "", Join(ids, '.'));
    CoresCompare(v, w, Join(ids, '.'), "");
  }

  lemma {:induction false} CoresCompare(v: Core, w: Core, pre: string, other: string)
    ensures
      var higher := Compare(Version(v.a, v.b, v.c, pre), Version(w.a, w.b, w.c, other)) > 0;
      && (v != w ==> (higher <==> Above(v, w)))
      && (pre == "" && other != "" ==> (higher <==> v == w || Above(v, w)))
      && (pre != "" && other == "" ==> (higher <==> Above(v, w)))
  {
    hide ComparePre, Split;
  }

  // ----- identifiers -----

  lemma {:induction false} SameFront(front: seq<string>, a: seq<string>, b: seq<string>)
    ensures ComparePre(front + a, front + b) == ComparePre(a, b)
  {
    if front == [] {
      assert front + a == a && front + b == b;
    } else {
      SameFront(front[1..], a, b);
      assert (front + a)[1..] == front[1..] + a && (front + b)[1..] == front[1..] + b;
    }
  }

  lemma {:induction false} BothRead(v: Core, a: seq<string>, b: seq<string>)
    requires Fits(v) && Identifiers(a) && Identifiers(b)
    ensures Higher(PreRelease(v, a), PreRelease(v, b)) <==> ComparePre(a, b) > 0
  {
    PreReleaseIsRead(v, a);
    PreReleaseIsRead(v, b);
    IdentifiersAreSplit(a);
    IdentifiersAreSplit(b);
    ComparePreOfSelf(a);
    hide Parse, PreRelease, ComparePre, Split, Join;
  }

  /** A number, as an identifier or an int of the panel reads one. */
  predicate IsNumber(id: string, n: nat) { id == Dec(n) && n <= MAX_INT }

  predicate IsWord(id: string) { exists i :: 0 <= i < |id| && !IsDigit(id[i]) }

  lemma {:induction false} WordIsNoNumber(id: string, acc: nat)
    requires IsWord(id)
    ensures Digits(id, acc).None?
    decreases |id|
  {
    if IsDigit(id[0]) {
      var i :| 0 <= i < |id| && !IsDigit(id[i]);
      assert id[1..][i - 1] == id[i];
      WordIsNoNumber(id[1..], 10 * acc + (id[0] - '0') as nat);
    }
  }

  /** Neither signed nor all digits. */
  predicate IsName(id: string) { id != "" && id[0] != '-' && id[0] != '+' && IsWord(id) }

  lemma {:induction false} NameIsNotRead(id: string)
    requires IsName(id)
    ensures Atoi(id).None?
  {
    WordIsNoNumber(id, 0);
  }

  /**
   The first identifier that differs decides: numbers by their values, a number below a name, names as
   strings are ordered; and of two lists one of which begins the other the longer is higher.
  */
  lemma {:induction false} IdentifiersDecide(v: Core, front: seq<string>, x: string, y: string, a: seq<string>,
        b: seq<string>, n: nat, m: nat)
    requires Fits(v) && Identifiers(front + [x] + a) && Identifiers(front + [y] + b) && x != y
    ensures
      var higher := Higher(PreRelease(v, front + [x] + a), PreRelease(v, front + [y] + b));
      && (IsNumber(x, n) && IsNumber(y, m) ==> (higher <==> n > m))
      && (IsNumber(x, n) && IsName(y) ==> !higher)
      && (IsName(x) && IsNumber(y, m) ==> higher)
      && (IsName(x) && IsName(y) ==> (higher <==> Less(y, x)))
    ensures front != [] ==>
              && Higher(PreRelease(v, front + [x] + a), PreRelease(v, front))
              && !Higher(PreRelease(v, front), PreRelease(v, front + [x] + a))
  {
    BothRead(v, front + [x] + a, front + [y] + b);
    Decided(front, x, y, a, b);
    OutranksBySort(x, y, n, m);
    hide PreRelease, Higher, ComparePre, ValidIdentifier, Outranks;
    if front != [] {
      FrontIsValid(front, x, a);
      BothRead(v, front + [x] + a, front);
      BothRead(v, front, front + [x] + a);
      LongerIsHigher(front, [x] + a);
      assert front + ([x] + a) == front + [x] + a;
    }
  }

  lemma {:induction false} FrontIsValid(front: seq<string>, x: string, a: seq<string>)
    requires Identifiers(front + [x] + a) && front != []
    ensures Identifiers(front)
  {
    hide ValidIdentifier;
    forall i | 0 <= i < |front| ensures ValidIdentifier(front[i]) { assert (front + [x] + a)[i] == front[i]; }
  }

  lemma {:induction false} LongerIsHigher(front: seq<string>, more: seq<string>)
    requires more != []
    ensures ComparePre(front + more, front) > 0 && ComparePre(front, front + more) < 0
  {
    SameFront(front, more, []);
    SameFront(front, [], more);
    assert front + [] == front;
  }

  lemma {:induction false} Decided(front: seq<string>, x: string, y: string, a: seq<string>, b: seq<string>)
    requires x != y
    ensures ComparePre(front + [x] + a, front + [y] + b) > 0 <==> Outranks(x, y)
  {
    SameFront(front, [x] + a, [y] + b);
    hide Outranks;
    assert front + ([x] + a) == front + [x] + a && front + ([y] + b) == front + [y] + b;
  }

  lemma {:induction false} OutranksBySort(x: string, y: string, n: nat, m: nat)
    ensures IsNumber(x, n) && IsNumber(y, m) ==> (Outranks(x, y) <==> n > m)
    ensures IsNumber(x, n) && IsName(y) ==> !Outranks(x, y)
    ensures IsName(x) && IsNumber(y, m) ==> Outranks(x, y)
    ensures IsName(x) && IsName(y) ==> (Outranks(x, y) <==> Less(y, x))
  {
    AtoiOfDec(n);
    AtoiOfDec(m);
    if IsName(x) { NameIsNotRead(x); }
    if IsName(y) { NameIsNotRead(y); }
    hide Atoi, Dec, Less;
  }

  // ----- which texts are versions -----

  /** v spells the version r: three numbers between dots, and a dash and identifiers if r has a pre-release. */
  ghost predicate Spells(v: string, r: Version, x: string, y: string, z: string) {
    && Atoi(x) == Some(r.major) && Atoi(y) == Some(r.minor) && Atoi(z) == Some(r.patch)
    && v == Join([x, y, z], '.') + (if r.pre == "" then "" else "-" + r.pre)
    && (r.pre != "" ==> Identifiers(Split(r.pre, '.')))
  }

  /** A text that is read as a version spells it; any other text is neither above nor below anything. */
  lemma {:induction false} OnlyVersionsCompare(v: string, w: string)
    ensures Parse(v).Some? ==> exists x, y, z :: Spells(v, Parse(v).value, x, y, z)
    ensures Parse(v).None? ==> !Higher(v, w) && !Higher(w, v)
  {
    if Parse(v).Some? {
      var dash := IndexOf(v, '-');
      var core := Split(v[..dash], '.');
      JoinSplit(v[..dash], '.');
      DashIsThere(v);
      var r := Parse(v).value;
      assert dash < |v| ==> r.pre != "" by { SomeIdentifier(r.pre); }
      hide Atoi, Split, Join, IndexOf, ValidIdentifier;
      assert core == [core[0], core[1], core[2]];
      assert v == v[..dash] + if r.pre == "" then "" else "-" + r.pre;
      assert Spells(v, r, core[0], core[1], core[2]);
    }
  }

  lemma {:induction false} SomeIdentifier(pre: string)
    ensures Identifiers(Split(pre, '.')) ==> pre != ""
  {
    assert !ValidIdentifier("");
    if pre == "" { assert Split(pre, '.') == [""] && [""][0] == ""; }
  }

  lemma {:induction false} DashIsThere(v: string)
    ensures IndexOf(v, '-') < |v| ==> v[IndexOf(v, '-')] == '-'
  {
    if v != "" && v[0] != '-' { DashIsThere(v[1..]); }
  }
}
