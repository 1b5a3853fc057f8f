/** internal/mods/semver: version strings with pre-releases, and the order the panel raises by. */
module SemVer {
  import opened Optional
  import opened Text

  datatype Version = Version(major: nat, minor: nat, patch: nat, pre: string)

  const MAX_INT: nat := 9223372036854775807

  function Digits(s: string, acc: nat): Option<nat>
    decreases |s|
  {
    if s == "" then Some(acc)
    else if '0' <= s[0] <= '9' then Digits(s[1..], 10 * acc + (s[0] - '0') as nat)
    else None
  }

  /** strconv.Atoi for callers that refuse a negative number: a sign, then digits that fit an int. */
  function Atoi(s: string): Option<nat> {
    if s == "" || ((s[0] == '+' || s[0] == '-') && |s| == 1) then None
    else
      match Digits(if s[0] == '+' || s[0] == '-' then s[1..] else s, 0)
      case None => None
      case Some(n) => if n > MAX_INT || (s[0] == '-' && n > 0) then None else Some(n)
  }

  function IndexOf(s: string, c: char): (i: nat)
    ensures i <= |s|
  {
    if s == "" || s[0] == c then 0 else 1 + IndexOf(s[1..], c)
  }

  predicate ValidIdentifier(id: string) {
    id != "" &&
    forall i :: 0 <= i < |id| ==>
      '0' <= id[i] <= '9' || 'a' <= id[i] <= 'z' || 'A' <= id[i] <= 'Z' || id[i] == '-'
  }

  function Parse(v: string): Option<Version> {
    var dash := IndexOf(v, '-');
    var core := Split(v[..dash], '.');
    if |core| != 3 then None
    else
      match (Atoi(core[0]), Atoi(core[1]), Atoi(core[2]))
      case (Some(a), Some(b), Some(c)) =>
        if dash == |v| then Some(Version(a, b, c, ""))
        else if forall id :: id in Split(v[dash + 1..], '.') ==> ValidIdentifier(id)
        then Some(Version(a, b, c, v[dash + 1..]))
        else None
      case _ => None
  }

  function Sign(higher: bool): int { if higher then 1 else -1 }

  /** Compare: the core first, then a stable release above any pre-release of it. */
  function Compare(a: Version, b: Version): int {
    if a.major != b.major then Sign(a.major > b.major)
    else if a.minor != b.minor then Sign(a.minor > b.minor)
    else if a.patch != b.patch then Sign(a.patch > b.patch)
    else if a.pre == b.pre then 0
    else if a.pre == "" then 1
    else if b.pre == "" then -1
    else ComparePre(Split(a.pre, '.'), Split(b.pre, '.'))
  }

  function ComparePre(a: seq<string>, b: seq<string>): int {
    if a == [] && b == [] then 0
    else if b == [] then 1
    else if a == [] then -1
    else if a[0] == b[0] then ComparePre(a[1..], b[1..])
    else Sign(Outranks(a[0], b[0]))
  }

  /** Of two different identifiers: numbers by value and below words, words as strings. */
  predicate Outranks(x: string, y: string) {
    match (Atoi(x), Atoi(y))
    case (Some(n), Some(m)) => n > m
    case (Some(_), None) => false
    case (None, Some(_)) => true
    case (None, None) => Less(y, x)
  }

  predicate Higher(a: string, b: string) {
    match (Parse(a), Parse(b))
    case (Some(va), Some(vb)) => Compare(va, vb) > 0
    case _ => false
  }

  // ----- a strict order to raise by -----

  lemma {:induction false} OutranksTransitive(x: string, y: string, z: string)
    requires Outranks(x, y) && Outranks(y, z)
    ensures Outranks(x, z)
  {
    if Atoi(x).None? && Atoi(y).None? && Atoi(z).None? {
      LessTransitive(z, y, x);
    }
  }

  lemma {:induction false} ComparePreTransitive(a: seq<string>, b: seq<string>, c: seq<string>)
    requires ComparePre(a, b) > 0 && ComparePre(b, c) > 0
    ensures ComparePre(a, c) > 0
  {
    if a != [] && b != [] && c != [] {
      if a[0] == b[0] == c[0] {
        ComparePreTransitive(a[1..], b[1..], c[1..]);
      } else if a[0] != b[0] && b[0] != c[0] {
        OutranksTransitive(a[0], b[0], c[0]);
        OutranksIrreflexive(a[0]);
      }
    }
  }

  lemma {:induction false} OutranksIrreflexive(x: string)
    ensures !Outranks(x, x)
  {
    LessIrreflexive(x);
  }

  lemma {:induction false} ComparePreOfSelf(a: seq<string>)
    ensures ComparePre(a, a) == 0
  {
    if a != [] { ComparePreOfSelf(a[1..]); }
  }

  lemma {:induction false} CompareTransitive(a: Version, b: Version, c: Version)
    requires Compare(a, b) > 0 && Compare(b, c) > 0
    ensures Compare(a, c) > 0
  {
    var same := a.major == b.major == c.major && a.minor == b.minor == c.minor && a.patch == b.patch == c.patch;
    if same && a.pre != "" && b.pre != "" && c.pre != "" {
      ComparePreTransitive(Split(a.pre, '.'), Split(b.pre, '.'), Split(c.pre, '.'));
      ComparePreOfSelf(Split(a.pre, '.'));
    }
  }

  /** Raising to a higher version never cycles: Higher is irreflexive and transitive. */
  lemma {:induction false} HigherIsStrict(a: string, b: string, c: string)
    ensures !Higher(a, a)
    ensures Higher(a, b) && Higher(b, c) ==> Higher(a, c)
  {
    if Higher(a, b) && Higher(b, c) {
      CompareTransitive(Parse(a).value, Parse(b).value, Parse(c).value);
    }
  }

  // ----- where Compare is not the order it is documented as -----

  /** The first identifiers that differ are numbers of one value spelled two ways, as 01 and 1. */
  predicate NumericTie(a: seq<string>, b: seq<string>) {
    && a != [] && b != []
    && if a[0] == b[0] then NumericTie(a[1..], b[1..]) else Atoi(a[0]).Some? && Atoi(a[0]) == Atoi(b[0])
  }

  predicate Ambiguous(a: Version, b: Version) {
    && a.major == b.major && a.minor == b.minor && a.patch == b.patch
    && a.pre != "" && b.pre != "" && a.pre != b.pre
    && NumericTie(Split(a.pre, '.'), Split(b.pre, '.'))
  }

  lemma {:induction false} ComparePreSwapped(a: seq<string>, b: seq<string>)
    ensures ComparePre(b, a) == -ComparePre(a, b) <==> !NumericTie(a, b)
    ensures ComparePre(a, b) == 0 <==> a == b
  {
    if a != [] && b != [] {
      if a[0] == b[0] {
        ComparePreSwapped(a[1..], b[1..]);
        assert a == [a[0]] + a[1..] && b == [b[0]] + b[1..];
      } else {
        LessTotal(a[0], b[0]);
      }
    }
  }

  lemma {:induction false} SplitInjective(a: string, b: string, sep: char)
    requires Split(a, sep) == Split(b, sep)
    ensures a == b
  {
    JoinSplit(a, sep);
    JoinSplit(b, sep);
  }

  lemma {:induction false} JoinSplit(s: string, sep: char)
    ensures Join(Split(s, sep), sep) == s
  {
    if s != "" {
      JoinSplit(s[1..], sep);
      var rest := Split(s[1..], sep);
      if s[0] == sep {
        assert ([""] + rest)[1..] == rest;
      } else {
        assert Split(s, sep)[1..] == rest[1..];
      }
    }
  }

  /** Compare gives opposite answers for swapped arguments exactly when the pair is not ambiguous. */
  lemma {:induction false} CompareIsAntisymmetricIff(a: Version, b: Version)
    ensures Compare(b, a) == -Compare(a, b) <==> !Ambiguous(a, b)
    ensures Compare(a, b) == 0 <==> a == b
  {
    if a.pre != "" && b.pre != "" && a.pre != b.pre {
      ComparePreSwapped(Split(a.pre, '.'), Split(b.pre, '.'));
      if Split(a.pre, '.') == Split(b.pre, '.') {
        SplitInjective(a.pre, b.pre, '.');
      }
    }
  }

  lemma {:induction false} IndexAfter(head: string, c: char, tail: string)
    requires c !in head
    ensures IndexOf(head + [c] + tail, c) == |head|
  {
    if head == "" {
      assert head + [c] + tail == [c] + tail;
    } else {
      IndexAfter(head[1..], c, tail);
      assert (head + [c] + tail)[1..] == head[1..] + [c] + tail;
    }
  }

  lemma {:induction false} ParsedAt(v: string, dash: nat, major: string, minor: string, patch: string, pre: string)
    requires IndexOf(v, '-') == dash < |v| && v[dash + 1..] == pre
    requires Split(v[..dash], '.') == [major, minor, patch] && Split(pre, '.') == [pre] && ValidIdentifier(pre)
    requires Atoi(major).Some? && Atoi(minor).Some? && Atoi(patch).Some?
    ensures Parse(v) == Some(Version(Atoi(major).value, Atoi(minor).value, Atoi(patch).value, pre))
  {
    hide Atoi, Split, ValidIdentifier, IndexOf;
  }

  /** A pre-release of one identifier is read as it is spelled. */
  lemma {:induction false} PreReleaseIsRead(major: string, minor: string, patch: string, pre: string)
    requires Atoi(major).Some? && Atoi(minor).Some? && Atoi(patch).Some? && ValidIdentifier(pre) && '.' !in pre
    requires '.' !in major && '.' !in minor && '.' !in patch && '-' !in major && '-' !in minor && '-' !in patch
    ensures Parse(Join([major, minor, patch], '.') + "-" + pre)
            == Some(Version(Atoi(major).value, Atoi(minor).value, Atoi(patch).value, pre))
  {
    hide Split, Join, Atoi, ValidIdentifier, Parse, IndexOf;
    var parts := [major, minor, patch];
    var core := Join(parts, '.');
    SplitJoin(parts, '.');
    SplitHead(pre, "", '.');
    CoreHasNoDash(major, minor, patch);
    IndexAfter(core, '-', pre);
    var text := core + "-" + pre;
    assert text[..|core|] == core && text[|core| + 1..] == pre;
    ParsedAt(text, |core|, major, minor, patch, pre);
  }

  lemma {:induction false} CoreHasNoDash(major: string, minor: string, patch: string)
    requires '-' !in major && '-' !in minor && '-' !in patch
    ensures '-' !in Join([major, minor, patch], '.')
  {
    JoinThree(major, minor, patch);
  }

  lemma {:induction false} JoinThree(a: string, b: string, c: string)
    ensures Join([a, b, c], '.') == a + "." + b + "." + c
  {
    var three, two, one := [a, b, c], [b, c], [c];
    assert three[1..] == two && two[1..] == one;
    assert Join(one, '.') == c && Join(two, '.') == b + "." + c;
    assert Join(three, '.') == a + "." + (b + "." + c);
  }

  lemma {:induction false} SmallNumbers()
    ensures Atoi("0") == Some(0) && Atoi("1") == Some(1) && Atoi("01") == Some(1)
  {
    assert "01"[1..] == "1" && "1"[1..] == "" && "0"[1..] == "";
    assert Digits("0", 0) == Digits("", 0) && Digits("1", 0) == Digits("", 1);
    assert Digits("01", 0) == Digits("1", 0);
  }

  lemma {:induction false} ReadAsRelease(pre: string)
    requires ValidIdentifier(pre) && '.' !in pre
    ensures Parse("1.0.0-" + pre) == Some(Version(1, 0, 0, pre))
  {
    SmallNumbers();
    hide Atoi, Parse, ValidIdentifier;
    PreReleaseIsRead("1", "0", "0", pre);
    JoinThree("1", "0", "0");
    assert "1" + "." + "0" + "." + "0" + "-" + pre == "1.0.0-" + pre;
  }

  lemma {:induction false} BelowEachOther()
    ensures Compare(Version(1, 0, 0, "01"), Version(1, 0, 0, "1")) == -1
    ensures Compare(Version(1, 0, 0, "1"), Version(1, 0, 0, "01")) == -1
  {
    SmallNumbers();
    SplitHead("1", "", '.');
    SplitHead("01", "", '.');
    hide Atoi, Split;
  }

  /** 1.0.0-01 and 1.0.0-1 are read as two versions, and each is reported below the other. */
  lemma {:induction false} AmbiguousVersionsExist()
    ensures Parse("1.0.0-01") == Some(Version(1, 0, 0, "01")) && Parse("1.0.0-1") == Some(Version(1, 0, 0, "1"))
    ensures Compare(Version(1, 0, 0, "01"), Version(1, 0, 0, "1")) == -1
    ensures Compare(Version(1, 0, 0, "1"), Version(1, 0, 0, "01")) == -1
  {
    hide Parse, Compare;
    BelowEachOther();
    ReadAsRelease("01");
    ReadAsRelease("1");
    assert "1.0.0-" + "01" == "1.0.0-01" && "1.0.0-" + "1" == "1.0.0-1";
  }
}
