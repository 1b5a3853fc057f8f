/**
 The names an archive goes by, spelled out: which are the game's rolling saves, which paths an archive holds,
 what an entry's name is read as, and what writing an entry does to a tree (internal/backup/archive.go and
 internal/backup/restore.go).
*/
module ArchiveNames {
  import opened Optional
  import opened Text
  import opened Decimal
  import opened Bytes
  import opened Worlds
  import opened Archive

  // ----- rolling saves -----

  predicate Stamp(t: string) {
    t != "" && IsDigit(t[0]) && forall i :: 0 <= i < |t| ==> IsDigit(t[i]) || t[i] == '-'
  }

  predicate IsExtension(fwl: string, db: string, old_: string) {
    fwl in {"", ".fwl"} && db in {"", ".db"} && old_ in {"", ".old"}
  }

  ghost predicate RollingSave(name: string, world: string, stamp: string, fwl: string, db: string, old_: string) {
    && Stamp(stamp) && IsExtension(fwl, db, old_)
    && name == world + "_backup_auto-" + stamp + fwl + db + old_
  }

  lemma {:induction false} TrimCuts(s: string, suffix: string)
    ensures TrimSuffix(s + suffix, suffix) == s
  {
    assert (s + suffix)[..|s|] == s && (s + suffix)[|s|..] == suffix;
  }

  lemma {:induction false} TrimKeeps(s: string, suffix: string)
    requires s != "" && suffix != "" && s[|s| - 1] != suffix[|suffix| - 1]
    ensures TrimSuffix(s, suffix) == s
  {
    if |suffix| <= |s| { assert s[|s| - |suffix|..][|suffix| - 1] == s[|s| - 1]; }
  }

  lemma {:induction false} TrimTakes(s: string, suffix: string)
    ensures s == TrimSuffix(s, suffix) + "" || s == TrimSuffix(s, suffix) + suffix
  {
    if |suffix| <= |s| { assert s == s[..|s| - |suffix|] + s[|s| - |suffix|..]; }
  }

  lemma {:induction false} MatchesIff(s: string)
    ensures MatchesAutoSave(s) <==> exists world, stamp :: Stamp(stamp) && s == world + "_backup_auto-" + stamp
  {
    var n := |AUTO_SAVE|;
    if i :| 0 <= i < |s| && AutoSaveAt(s, i) {
      var world, stamp := s[..i], s[i + n..];
      assert s[i..][..n] == AUTO_SAVE && s[i..][n..] == stamp;
      assert s == world + AUTO_SAVE + stamp;
      assert Stamp(stamp);
    }
    if world, stamp :| Stamp(stamp) && s == world + "_backup_auto-" + stamp { SaveMatches(world, stamp); }
  }

  lemma {:induction false} SaveMatches(world: string, stamp: string)
    requires Stamp(stamp)
    ensures MatchesAutoSave(world + "_backup_auto-" + stamp)
  {
    var s, i := world + AUTO_SAVE + stamp, |world|;
    assert s[i..] == AUTO_SAVE + stamp;
    assert forall j :: i + |AUTO_SAVE| <= j < |s| ==> s[j] == stamp[j - i - |AUTO_SAVE|];
    assert AutoSaveAt(s, i);
  }

  lemma {:induction false} ExtensionsTrimmed(s: string, fwl: string, db: string, old_: string)
    requires s != "" && (IsDigit(s[|s| - 1]) || s[|s| - 1] == '-') && IsExtension(fwl, db, old_)
    ensures TrimSuffix(TrimSuffix(TrimSuffix(s + fwl + db + old_, ".old"), ".db"), ".fwl") == s
  {
    TrimCuts(s + fwl + db, ".old");
    TrimCuts(s + fwl, ".db");
    TrimCuts(s, ".fwl");
    TrimKeeps(s + fwl + db, ".old");
    TrimKeeps(s + fwl, ".db");
    TrimKeeps(s, ".fwl");
    hide TrimSuffix;
    assert s + fwl + db + "" == s + fwl + db && s + fwl + "" == s + fwl && s + "" == s;
  }

  /**
   A rolling save is named by any world, `_backup_auto-`, a digit, digits and dashes, and then any of the
   three extensions in this order; and no other name is one.
  */
  lemma {:induction false} AutoSaveIff(name: string)
    ensures IsAutoSave(name) <==> exists world, stamp, fwl, db, old_ :: RollingSave(name, world, stamp, fwl, db, old_)
  {
    var r1 := TrimSuffix(name, ".old");
    var r2 := TrimSuffix(r1, ".db");
    var r3 := TrimSuffix(r2, ".fwl");
    MatchesIff(r3);
    TrimTakes(name, ".old");
    TrimTakes(r1, ".db");
    TrimTakes(r2, ".fwl");
    hide MatchesAutoSave, Stamp;
    if IsAutoSave(name) {
      var world, stamp :| Stamp(stamp) && r3 == world + "_backup_auto-" + stamp;
      var old_ := if name == r1 + "" then "" else ".old";
      var db := if r1 == r2 + "" then "" else ".db";
      var fwl := if r2 == r3 + "" then "" else ".fwl";
      assert RollingSave(name, world, stamp, fwl, db, old_);
    }
    if world, stamp, fwl, db, old_ :| RollingSave(name, world, stamp, fwl, db, old_) {
      var s := world + "_backup_auto-" + stamp;
      StampEnds(world, stamp);
      ExtensionsTrimmed(s, fwl, db, old_);
      assert r3 == s;
    }
  }

  lemma {:induction false} StampEnds(world: string, stamp: string)
    requires Stamp(stamp)
    ensures var s := world + "_backup_auto-" + stamp; s != "" && (IsDigit(s[|s| - 1]) || s[|s| - 1] == '-')
  {
  }

  // ----- what an archive holds -----

  /** An archive of worlds/ holds every file and directory of it but cache/ and the rolling saves, as they are. */
  lemma {:induction false} ArchiveHolds(worlds: Tree, p: Path)
    requires |p| > 0
    ensures At(ArchivedTop(worlds), p)
            == if p[0] == "cache" || (|p| >= 2 && p[0] == "worlds_local" && IsAutoSave(p[1])) then None
               else At(worlds, p)
  {
    SkippingIsFiltering(Dir(worlds), [], p);
    assert [] + p == p;
  }

  /** A file's header is its path with slashes, a directory's has one more. */
  lemma {:induction false} HeadersAreSpelled(a: string, b: string, data: seq<byte>)
    ensures Header(Item([a, b], IsFile(data))) == Entry(a + "/" + b, Regular(data))
    ensures Header(Item([a, b], IsDir)) == Entry(a + "/" + b + "/", Directory)
  {
    assert [a, b][1..] == [b] && Join([b], '/') == b;
  }

  // ----- what an entry's name is read as -----

  lemma {:induction false} SlashedConcat(a: string, b: string)
    ensures Slashed(a + b) == Slashed(a) + Slashed(b)
  {
    if a == "" {
      assert a + b == b;
    } else {
      SlashedConcat(a[1..], b);
      assert (a + b)[1..] == a[1..] + b;
    }
  }

  lemma {:induction false} CleanOf(name: string, parts: Path)
    requires name != "" && name[0] != '/' && '\\' !in name && Split(name, '/') == parts
    ensures CleanEntry(name) == var clean := CleanParts(parts, []);
                                if clean == [] || clean[0] == ".." then None else Some(clean)
  {
    SlashedKeeps(name);
  }

  lemma {:induction false} PlainText(p: Path)
    requires PlainPath(p)
    ensures var s := Join(p, '/'); s != "" && s[0] != '/' && '\\' !in s && Split(s, '/') == p
  {
    assert PlainName(p[0]);
    JoinChars(p, '\\');
    SplitJoin(p, '/');
    assert p[0] <= Join(p, '/') && p[0][0] in p[0];
  }

  lemma {:induction false} ClimbStays(parts: Path, stack: Path)
    requires |stack| > 0 && stack[0] == ".."
    ensures var r := CleanParts(parts, stack); |r| > 0 && r[0] == ".."
    decreases |parts|
  {
    if parts == [] {
    } else if parts[0] == "" || parts[0] == "." {
      ClimbStays(parts[1..], stack);
    } else if parts[0] == ".." && |stack| > 0 && stack[|stack| - 1] != ".." {
      ClimbStays(parts[1..], stack[..|stack| - 1]);
    } else {
      ClimbStays(parts[1..], stack + [parts[0]]);
    }
  }

  lemma {:induction false} TwoParts(a: string, rest: Path)
    ensures CleanParts([a] + rest, []) == CleanParts(rest,
                                                     if a == "" || a == "." then [] else [a])
    ensures a != "" && a != "." && a != ".." ==> CleanParts([a, ".."] + rest, []) == CleanParts(rest, [])
  {
    assert ([a] + rest)[1..] == rest;
    assert [a, ".."] + rest == [a] + ([".."] + rest) && ([".."] + rest)[1..] == rest;
    assert [] + [a] == [a];
    if a != "" && a != "." && a != ".." { assert [a][..0] == []; }
  }

  lemma {:induction false} Spelled(head: string, s: string, parts: Path, text: string)
    requires '/' !in head && '\\' !in head && '\\' !in s && Split(s, '/') == parts && text == head + "/" + s
    ensures Split(text, '/') == [head] + parts && '\\' !in text
  {
    SplitHead(head, s, '/');
  }

  /**
   Around any plain path: `./` ahead of it is dropped, a name and `../` cancel, a backslash is a slash, and an
   absolute name or one that climbs is refused.
  */
  lemma {:induction false} NamesAreRead(x: string, p: Path)
    requires PlainName(x) && PlainPath(p)
    ensures
      var s := Join(p, '/');
      && CleanEntry("./" + s) == Some(p)
      && CleanEntry(x + "/../" + s) == Some(p)
      && CleanEntry(x + "\\" + s) == Some([x] + p)
      && CleanEntry("/" + s) == None
      && CleanEntry("../" + s) == None
      && CleanEntry(x + "/../../" + s) == None
  {
    var s := Join(p, '/');
    PlainText(p);
    CleanKeepsPlain(p, []);
    hide Split, Join, Slashed;
    DotIsDropped(s, p);
    ParentCancels(x, s, p);
    BackslashIsSlash(x, s, p);
    ClimbIsRefused("..", s, p);
    TwiceIsRefused(x, s, p);
    AbsoluteIsRefused(s);
  }

  lemma {:induction false} DotIsDropped(s: string, p: Path)
    requires '\\' !in s && Split(s, '/') == p && PlainPath(p) && CleanParts(p, []) == p
    ensures CleanEntry("./" + s) == Some(p)
  {
    hide Split, CleanParts, CleanEntry;
    Spelled(".", s, p, "./" + s);
    TwoParts(".", p);
    CleanOf("./" + s, ["."] + p);
    assert PlainName(p[0]);
  }

  lemma {:induction false} ParentCancels(x: string, s: string, p: Path)
    requires PlainName(x) && '\\' !in s && Split(s, '/') == p && PlainPath(p) && CleanParts(p, []) == p
    ensures CleanEntry(x + "/../" + s) == Some(p)
  {
    hide Split, CleanParts, CleanEntry;
    Spelled("..", s, p, "../" + s);
    assert x + "/" + ("../" + s) == x + "/../" + s;
    Spelled(x, "../" + s, [".."] + p, x + "/../" + s);
    TwoParts(x, p);
    assert [x] + ([".."] + p) == [x, ".."] + p;
    assert (x + "/../" + s)[0] == x[0] && x[0] in x;
    CleanOf(x + "/../" + s, [x, ".."] + p);
    assert PlainName(p[0]);
  }

  lemma {:induction false} BackslashIsSlash(x: string, s: string, p: Path)
    requires PlainName(x) && '\\' !in s && Split(s, '/') == p && PlainPath(p)
    ensures CleanEntry(x + "\\" + s) == Some([x] + p)
  {
    SlashedKeeps(x);
    SlashedKeeps(s);
    SlashedConcat(x + "\\", s);
    SlashedConcat(x, "\\");
    assert "\\"[1..] == "";
    assert Slashed("\\") == "/";
    Spelled(x, s, p, x + "/" + s);
    var q := [x] + p;
    forall i | 0 <= i < |q| ensures PlainName(q[i]) { assert i > 0 ==> q[i] == p[i - 1]; }
    CleanKeepsPlain(q, []);
    assert [] + q == q;
    assert (x + "/" + s)[0] == x[0] && x[0] in x;
  }

  lemma {:induction false} ClimbIsRefused(up: string, s: string, p: Path)
    requires up == ".." && '\\' !in s && Split(s, '/') == p
    ensures CleanEntry("../" + s) == None
  {
    hide Split, CleanParts, CleanEntry;
    Spelled("..", s, p, "../" + s);
    TwoParts("..", p);
    ClimbStays(p, [".."]);
    CleanOf("../" + s, [".."] + p);
  }

  lemma {:induction false} TwiceIsRefused(x: string, s: string, p: Path)
    requires PlainName(x) && '\\' !in s && Split(s, '/') == p
    ensures CleanEntry(x + "/../../" + s) == None
  {
    hide Split, CleanParts, CleanEntry;
    var up := [".."] + p;
    Spelled("..", s, p, "../" + s);
    assert ".." + "/" + ("../" + s) == "../../" + s;
    Spelled("..", "../" + s, up, "../../" + s);
    assert x + "/" + ("../../" + s) == x + "/../../" + s && [x] + ([".."] + up) == [x, ".."] + up;
    Spelled(x, "../../" + s, [".."] + up, x + "/../../" + s);
    TwoParts(x, up);
    TwoParts("..", p);
    ClimbStays(p, [".."]);
    assert (x + "/../../" + s)[0] == x[0] && x[0] in x;
    CleanOf(x + "/../../" + s, [x, ".."] + up);
  }

  lemma {:induction false} AbsoluteIsRefused(s: string)
    ensures CleanEntry("/" + s) == None
  {
    SlashedConcat("/", s);
    assert "/"[1..] == "";
    assert Slashed("/") == "/";
  }

  // ----- writing an entry -----

  function NodeAt(t: Tree, p: Path): Option<Node>
    requires |p| > 0
    decreases |p|
  {
    if p[0] !in t then None
    else if |p| == 1 then Some(t[p[0]])
    else if t[p[0]].Dir? then NodeAt(t[p[0]].children, p[1..])
    else None
  }

  /** Nothing but directories on the way, and nothing of another kind at the end. */
  ghost predicate Room(t: Tree, p: Path, leaf: Leaf)
    requires |p| > 0
    decreases |p|
  {
    if |p| == 1 then p[0] in t ==> if leaf.IsDir? then t[p[0]].Dir? else t[p[0]].File?
    else p[0] in t ==> t[p[0]].Dir? && Room(t[p[0]].children, p[1..], leaf)
  }

  lemma {:induction false} EmptyHasRoom(p: Path, leaf: Leaf)
    requires |p| > 0
    ensures Room(map[], p, leaf)
  {
  }

  /** An entry is written exactly where there is room for it, and then it is there, under directories. */
  lemma {:induction false} PutIff(t: Tree, p: Path, leaf: Leaf)
    requires |p| > 0
    ensures Put(t, p, leaf).Some? <==> Room(t, p, leaf)
    ensures Put(t, p, leaf).Some? ==> At(Put(t, p, leaf).value, p) == Some(leaf)
    decreases |p|
  {
    if |p| > 1 {
      if Below(t, p[0]).Some? {
        PutIff(Below(t, p[0]).value, p[1..], leaf);
        if p[0] !in t { EmptyHasRoom(p[1..], leaf); }
      }
    } else if leaf.IsDir? && Below(t, p[0]).Some? {
      assert p[1..] == [] && MkdirAll(Below(t, p[0]).value, p[1..]) == Below(t, p[0]);
    }
  }

  /** Nothing that is not on its way is touched. */
  lemma {:induction false} PutTouchesNothingElse(t: Tree, p: Path, leaf: Leaf, q: Path)
    requires |p| > 0 && |q| > 0 && Put(t, p, leaf).Some? && !(q <= p)
    ensures At(Put(t, p, leaf).value, q) == At(t, q)
    decreases |p|
  {
    if q[0] == p[0] && |p| > 1 {
      var sub := Below(t, p[0]).value;
      assert !(q[1..] <= p[1..]) by { assert p == [p[0]] + p[1..] && q == [q[0]] + q[1..]; }
      if |q| > 1 { PutTouchesNothingElse(sub, p[1..], leaf, q[1..]); }
    } else if q[0] == p[0] {
      assert |q| > 1 by { assert p == [p[0]] && (|q| == 1 ==> q == p); }
      if leaf.IsDir? { assert p[1..] == [] && MkdirAll(Below(t, p[0]).value, []) == Some(Below(t, p[0]).value); }
    }
  }

  /** An entry outside the prefix is passed over, one that is neither a file nor a directory is refused. */
  lemma {:induction false} EntryIsPlaced(t: Tree, e: Entry, prefix: Path)
    requires CleanEntry(e.name).Some?
    ensures
      var path := CleanEntry(e.name).value;
      if !(prefix < path) then ExtractEntry(t, e, prefix) == Some(t)
      else
        match e.kind
        case Unsupported => ExtractEntry(t, e, prefix) == None
        case Directory => ExtractEntry(t, e, prefix) == Put(t, path[|prefix|..], IsDir)
        case Regular(data) => ExtractEntry(t, e, prefix) == Put(t, path[|prefix|..], IsFile(data))
  {
    hide CleanEntry, Put;
  }
}
