/**
 What a world archive holds and what extracting it gives back: internal/backup/archive.go's walk
 and internal/backup/restore.go's Extract, over a list of typed entries in place of tar bytes.
*/
module Archive {
  import opened Optional
  import opened Text
  import opened Decimal
  import opened Bytes
  import opened Worlds
  import WorldSwap

  type Path = seq<string>

  datatype Leaf = IsFile(data: seq<byte>) | IsDir

  /** One entry of the archive by name, as written in its header. */
  datatype Entry = Entry(name: string, kind: EntryKind)

  datatype EntryKind = Regular(data: seq<byte>) | Directory | Unsupported

  // ----- the predicates over names -----

  function TrimSuffix(s: string, suffix: string): string {
    if |suffix| <= |s| && s[|s| - |suffix|..] == suffix then s[..|s| - |suffix|] else s
  }

  const AUTO_SAVE := "_backup_auto-"

  /** The regular expression `_backup_auto-\d[\d-]*$`. */
  predicate MatchesAutoSave(s: string) {
    exists i :: 0 <= i < |s| && AutoSaveAt(s, i)
  }

  predicate AutoSaveAt(s: string, i: nat)
    requires i <= |s|
  {
    && AUTO_SAVE < s[i..]
    && IsDigit(s[i + |AUTO_SAVE|])
    && forall j :: i + |AUTO_SAVE| < j < |s| ==> IsDigit(s[j]) || s[j] == '-'
  }

  predicate IsAutoSave(name: string) {
    MatchesAutoSave(TrimSuffix(TrimSuffix(TrimSuffix(name, ".old"), ".db"), ".fwl"))
  }

  const CACHE := "cache"
  const WORLDS_LOCAL := "worlds_local"

  /** Whether a path relative to worlds/ belongs in a world archive. */
  predicate Archivable(rel: Path) {
    && (|rel| > 0 ==> rel[0] != CACHE)
    && (|rel| < 2 || rel[0] != WORLDS_LOCAL || !IsAutoSave(rel[1]))
  }

  // ----- archiving -----

  /** What one visit emits, by its path relative to the directory the walk is in. */
  datatype Item = Item(path: Path, leaf: Leaf)

  function Prefixed(name: string, items: seq<Item>): (r: seq<Item>)
    ensures |r| == |items|
    ensures forall i :: 0 <= i < |items| ==> r[i] == Item([name] + items[i].path, items[i].leaf)
  {
    if items == [] then []
    else [Item([name] + items[0].path, items[0].leaf)] + Prefixed(name, items[1..])
  }

  /** fs.WalkDir under dir, whose own path is rel; a directory keep rejects is skipped whole. */
  function Walk(dir: Node, rel: Path, keep: Path -> bool): seq<Item>
    requires dir.Dir?
    decreases dir, 1
  {
    WalkNames(dir, Sorted(dir.children.Keys), rel, keep)
  }

  function WalkNames(dir: Node, names: seq<string>, rel: Path, keep: Path -> bool): seq<Item>
    requires dir.Dir? && forall n :: n in names ==> n in dir.children
    decreases dir, 0, |names|
  {
    if names == [] then []
    else Visit(names[0], dir.children[names[0]], rel + [names[0]], keep) + WalkNames(dir, names[1..], rel, keep)
  }

  function Visit(name: string, node: Node, rel: Path, keep: Path -> bool): seq<Item>
    decreases node, 2
  {
    if node.Special? || !keep(rel) then []
    else if node.File? then [Item([name], IsFile(node.data))]
    else [Item([name], IsDir)] + Prefixed(name, Walk(node, rel, keep))
  }

  /** The header of an item: its path with slashes, a directory's with one more. */
  function Header(item: Item): Entry {
    match item.leaf
    case IsFile(data) => Entry(Join(item.path, '/'), Regular(data))
    case IsDir => Entry(Join(item.path, '/') + "/", Directory)
  }

  function Headers(items: seq<Item>): (r: seq<Entry>)
    ensures |r| == |items|
    ensures forall i :: 0 <= i < |items| ==> r[i] == Header(items[i])
  {
    if items == [] then [] else [Header(items[0])] + Headers(items[1..])
  }

  /** The archive of a worlds directory. */
  function ArchiveOf(worlds: Tree): seq<Entry> {
    Headers(Walk(Dir(worlds), [], Archivable))
  }

  // ----- extracting -----

  function Slashed(name: string): string {
    if name == "" then ""
    else [if name[0] == '\\' then '/' else name[0]] + Slashed(name[1..])
  }

  /** path.Clean over the components of a relative name. */
  function CleanParts(parts: seq<string>, stack: Path): Path
    decreases |parts|
  {
    if parts == [] then stack
    else if parts[0] == "" || parts[0] == "." then CleanParts(parts[1..], stack)
    else if parts[0] == ".." && |stack| > 0 && stack[|stack| - 1] != ".." then
      CleanParts(parts[1..], stack[..|stack| - 1])
    else CleanParts(parts[1..], stack + [parts[0]])
  }

  /** The components of an entry name, or None for one that is absolute or climbs out. */
  function CleanEntry(name: string): Option<Path> {
    var s := Slashed(name);
    var clean := CleanParts(Split(s, '/'), []);
    if |s| > 0 && s[0] == '/' then None
    else if clean == [] || clean[0] == ".." then None
    else Some(clean)
  }

  /** The name relative to prefix, when it sits under it. */
  function UnderPrefix(path: Path, prefix: Path): Option<Path> {
    if prefix < path then Some(path[|prefix|..]) else None
  }

  /** os.MkdirAll: None where a file is in the way. */
  function MkdirAll(t: Tree, p: Path): Option<Tree>
    decreases |p|
  {
    if p == [] then Some(t)
    else
      match Below(t, p[0])
      case None => None
      case Some(sub) =>
        match MkdirAll(sub, p[1..])
        case None => None
        case Some(made) => Some(t[p[0] := Dir(made)])
  }

  function Below(t: Tree, name: string): Option<Tree> {
    if name !in t then Some(map[])
    else if t[name].Dir? then Some(t[name].children)
    else None
  }

  /** writeExtracted: the parents, then the file, replacing one already there. */
  function WriteFile(t: Tree, p: Path, data: seq<byte>): Option<Tree>
    requires |p| > 0
    decreases |p|
  {
    if |p| == 1 then
      if p[0] in t && !t[p[0]].File? then None else Some(t[p[0] := File(data)])
    else
      match Below(t, p[0])
      case None => None
      case Some(sub) =>
        match WriteFile(sub, p[1..], data)
        case None => None
        case Some(made) => Some(t[p[0] := Dir(made)])
  }

  function Put(t: Tree, p: Path, leaf: Leaf): Option<Tree>
    requires |p| > 0
  {
    match leaf
    case IsFile(data) => WriteFile(t, p, data)
    case IsDir => MkdirAll(t, p)
  }

  /** extractEntry: an unsafe name is refused even when prefix would skip it. */
  function ExtractEntry(t: Tree, e: Entry, prefix: Path): Option<Tree> {
    match CleanEntry(e.name)
    case None => None
    case Some(path) =>
      match UnderPrefix(path, prefix)
      case None => Some(t)
      case Some(rel) =>
        match e.kind
        case Directory => Put(t, rel, IsDir)
        case Regular(data) => Put(t, rel, IsFile(data))
        case Unsupported => None
  }

  function ExtractFrom(t: Tree, entries: seq<Entry>, prefix: Path): Option<Tree>
    decreases |entries|
  {
    if entries == [] then Some(t)
    else
      match ExtractEntry(t, entries[0], prefix)
      case None => None
      case Some(t') => ExtractFrom(t', entries[1..], prefix)
  }

  // ----- names that survive the trip -----

  predicate PlainName(name: string) {
    name != "" && name != "." && name != ".." && '/' !in name && '\\' !in name
  }

  ghost predicate PlainPath(p: Path) {
    |p| > 0 && forall i :: 0 <= i < |p| ==> PlainName(p[i])
  }

  lemma {:induction false} SlashedKeeps(s: string)
    requires '\\' !in s
    ensures Slashed(s) == s
  {
    if s != "" { SlashedKeeps(s[1..]); }
  }

  lemma {:induction false} SlashedHasNoBackslash(s: string)
    ensures '\\' !in Slashed(s)
  {
    if s != "" { SlashedHasNoBackslash(s[1..]); }
  }

  lemma {:induction false} JoinChars(p: Path, c: char)
    requires c != '/' && forall i :: 0 <= i < |p| ==> c !in p[i]
    ensures c !in Join(p, '/')
  {
    if |p| > 1 { JoinChars(p[1..], c); }
  }

  lemma {:induction false} CleanKeepsPlain(p: Path, stack: Path)
    requires forall i :: 0 <= i < |p| ==> PlainName(p[i])
    ensures CleanParts(p, stack) == stack + p
    ensures CleanParts(p + [""], stack) == stack + p
    decreases |p|
  {
    if p == [] {
      assert p + [""] == [""];
      assert CleanParts([""], stack) == CleanParts([], stack);
    } else {
      CleanKeepsPlain(p[1..], stack + [p[0]]);
      assert (p + [""])[1..] == p[1..] + [""];
      assert stack + [p[0]] + p[1..] == stack + p;
    }
  }

  lemma {:induction false} SplitTrailing(s: string)
    ensures Split(s + "/", '/') == Split(s, '/') + [""]
  {
    if s == "" {
      assert s + "/" == "/";
    } else {
      SplitTrailing(s[1..]);
      assert (s + "/")[1..] == s[1..] + "/";
    }
  }

  /** A header written for a plain path is read back as that path. */
  lemma {:induction false} HeaderRoundTrip(item: Item)
    requires PlainPath(item.path)
    ensures CleanEntry(Header(item).name) == Some(item.path)
  {
    var p := item.path;
    var s := Join(p, '/');
    JoinChars(p, '\\');
    SlashedKeeps(s);
    SplitJoin(p, '/');
    CleanKeepsPlain(p, []);
    SplitTrailing(s);
    SlashedKeeps(s + "/");
    assert [] + p == p;
    assert s != "" && s[0] != '/' by {
      assert s[0] == p[0][0] && p[0][0] in p[0];
    }
  }

  // ----- a hostile archive stays inside the destination -----

  predicate Bare(name: string) { '/' !in name && '\\' !in name }

  /** What a cleaned relative path looks like: any climbing is at its front. */
  ghost predicate Tidy(r: Path) {
    && (forall i :: 0 <= i < |r| ==> Bare(r[i]) && r[i] != "" && r[i] != ".")
    && (forall i :: 0 < i < |r| && r[i] == ".." ==> r[i - 1] == "..")
  }

  lemma {:induction false} CleanIsTidy(parts: seq<string>, stack: Path)
    requires (forall p :: p in parts ==> Bare(p)) && Tidy(stack)
    ensures Tidy(CleanParts(parts, stack))
    decreases |parts|
  {
    if parts == [] {
    } else if parts[0] == "" || parts[0] == "." {
      assert CleanParts(parts, stack) == CleanParts(parts[1..], stack);
      CleanIsTidy(parts[1..], stack);
    } else if parts[0] == ".." && |stack| > 0 && stack[|stack| - 1] != ".." {
      CleanIsTidy(parts[1..], stack[..|stack| - 1]);
    } else {
      CleanIsTidy(parts[1..], stack + [parts[0]]);
    }
  }

  lemma {:induction false} ClimbsAtTheFront(r: Path, i: nat)
    requires Tidy(r) && i < |r| && r[i] == ".."
    ensures r[0] == ".."
  {
    if i > 0 { ClimbsAtTheFront(r, i - 1); }
  }

  /** Whatever the header says, an accepted name is a plain path: nothing escapes the destination. */
  lemma {:induction false} AcceptedNamesArePlain(name: string)
    ensures CleanEntry(name).Some? ==> PlainPath(CleanEntry(name).value)
  {
    var parts := Split(Slashed(name), '/');
    SlashedHasNoBackslash(name);
    SplitParts(Slashed(name), '/');
    SplitChars(Slashed(name), '/', '\\');
    CleanIsTidy(parts, []);
    var clean := CleanParts(parts, []);
    if CleanEntry(name).Some? {
      forall i | 0 <= i < |clean| ensures PlainName(clean[i]) {
        if clean[i] == ".." { ClimbsAtTheFront(clean, i); }
      }
    }
  }

  // ----- the round trip -----

  ghost predicate Placed(items: seq<Item>) {
    forall i :: 0 <= i < |items| ==> |items[i].path| > 0
  }

  ghost function PutAll(t: Tree, items: seq<Item>): Option<Tree>
    requires Placed(items)
    decreases |items|
  {
    if items == [] then Some(t)
    else
      match Put(t, items[0].path, items[0].leaf)
      case None => None
      case Some(t') => PutAll(t', items[1..])
  }

  lemma {:induction false} PutAllSplit(t: Tree, a: seq<Item>, b: seq<Item>)
    requires Placed(a) && Placed(b)
    ensures PutAll(t, a + b) == match PutAll(t, a) case None => None case Some(t') => PutAll(t', b)
    decreases |a|
  {
    if a == [] {
      assert a + b == b;
    } else {
      assert (a + b)[1..] == a[1..] + b;
      match Put(t, a[0].path, a[0].leaf)
      case None =>
      case Some(t') => PutAllSplit(t', a[1..], b);
    }
  }

  /** Writing items under a directory is writing them into that directory. */
  lemma {:induction false} PutPrefixed(t: Tree, name: string, sub: Tree, items: seq<Item>)
    requires Placed(items)
    ensures PutAll(t[name := Dir(sub)], Prefixed(name, items))
            == match PutAll(sub, items) case None => None case Some(made) => Some(t[name := Dir(made)])
    decreases |items|
  {
    if items != [] {
      var p, leaf := items[0].path, items[0].leaf;
      var under := t[name := Dir(sub)];
      assert ([name] + p)[1..] == p;
      assert Prefixed(name, items)[1..] == Prefixed(name, items[1..]);
      match Put(sub, p, leaf)
      case None =>
      case Some(made) =>
        assert under[name := Dir(made)] == t[name := Dir(made)];
        PutPrefixed(t, name, made, items[1..]);
    }
  }

  /** The part of a directory keep leaves: no rejected path, nothing but files and directories. */
  function Filtered(dir: Node, rel: Path, keep: Path -> bool): Tree
    requires dir.Dir?
    decreases dir, 0
  {
    map n | n in dir.children && !dir.children[n].Special? && keep(rel + [n]) ::
      FilteredNode(dir.children[n], rel + [n], keep)
  }

  function FilteredNode(node: Node, rel: Path, keep: Path -> bool): Node
    decreases node, 1
  {
    if node.Dir? then Dir(Filtered(node, rel, keep)) else node
  }

  lemma {:induction false} WalkIsPlaced(dir: Node, names: seq<string>, rel: Path, keep: Path -> bool)
    requires dir.Dir? && forall n :: n in names ==> n in dir.children
    ensures Placed(WalkNames(dir, names, rel, keep))
  {
    if names != [] { WalkIsPlaced(dir, names[1..], rel, keep); }
  }

  ghost function Restrict(t: Tree, names: seq<string>): Tree {
    map n | n in t && n in names :: t[n]
  }

  lemma {:induction false} RestrictToAll(t: Tree, names: seq<string>)
    requires forall n :: n in t ==> n in names
    ensures map[] + Restrict(t, names) == t
  {
  }

  lemma {:induction false} RestrictStep(t: Tree, t': Tree, whole: Tree, names: seq<string>)
    requires |names| > 0 && names[0] !in names[1..]
    requires t' == if names[0] in whole then t[names[0] := whole[names[0]]] else t
    ensures t' + Restrict(whole, names[1..]) == t + Restrict(whole, names)
  {
    assert forall n :: n in names <==> n == names[0] || n in names[1..];
  }

  /** Putting back what a walk emitted builds the filtered directory. */
  lemma {:induction false} PutWalk(dir: Node, names: seq<string>, rel: Path, keep: Path -> bool, t: Tree)
    requires dir.Dir? && forall n :: n in names ==> n in dir.children
    requires forall i, j :: 0 <= i < j < |names| ==> names[i] != names[j]
    requires forall n :: n in names ==> n !in t
    ensures Placed(WalkNames(dir, names, rel, keep))
    ensures PutAll(t, WalkNames(dir, names, rel, keep)) == Some(t + Restrict(Filtered(dir, rel, keep), names))
    decreases dir, 0, |names|
  {
    WalkIsPlaced(dir, names, rel, keep);
    var whole := Filtered(dir, rel, keep);
    if names == [] {
      assert t == t + Restrict(whole, names);
    } else {
      var n, rest := names[0], names[1..];
      var visited := Visit(n, dir.children[n], rel + [n], keep);
      WalkIsPlaced(dir, rest, rel, keep);
      PutVisit(n, dir.children[n], rel + [n], keep, t);
      var t' := PutAll(t, visited).value;
      assert t' == if n in whole then t[n := whole[n]] else t;
      PutWalk(dir, rest, rel, keep, t');
      PutAllSplit(t, visited, WalkNames(dir, rest, rel, keep));
      RestrictStep(t, t', whole, names);
    }
  }

  lemma {:induction false} PutVisit(name: string, node: Node, rel: Path, keep: Path -> bool, t: Tree)
    requires name !in t
    ensures Placed(Visit(name, node, rel, keep))
    ensures PutAll(t, Visit(name, node, rel, keep))
            == Some(if node.Special? || !keep(rel) then t else t[name := FilteredNode(node, rel, keep)])
    decreases node, 1
  {
    if !node.Special? && keep(rel) {
      if node.File? {
        assert PutAll(t, [Item([name], IsFile(node.data))]) == PutAll(t[name := node], []);
      } else {
        PutDirectory(name, node, rel, keep, t);
      }
    }
  }

  lemma {:induction false} PutDirectory(name: string, node: Node, rel: Path, keep: Path -> bool, t: Tree)
    requires name !in t && node.Dir? && keep(rel)
    ensures Placed(Visit(name, node, rel, keep))
    ensures PutAll(t, Visit(name, node, rel, keep)) == Some(t[name := Dir(Filtered(node, rel, keep))])
    decreases node, 1, 0
  {
    var names := Sorted(node.children.Keys);
    var inner, made := Walk(node, rel, keep), Filtered(node, rel, keep);
    PutWalk(node, names, rel, keep, map[]);
    RestrictToAll(made, names);
    PutFilledDirectory(t, name, inner, made);
  }

  lemma {:induction false} PutFilledDirectory(t: Tree, name: string, inner: seq<Item>, made: Tree)
    requires name !in t && Placed(inner) && PutAll(map[], inner) == Some(made)
    ensures Placed([Item([name], IsDir)] + Prefixed(name, inner))
    ensures PutAll(t, [Item([name], IsDir)] + Prefixed(name, inner)) == Some(t[name := Dir(made)])
  {
    PutPrefixed(t, name, map[], inner);
    PutOneDirectory(t, name);
    PutAllSplit(t, [Item([name], IsDir)], Prefixed(name, inner));
  }

  lemma {:induction false} PutOneDirectory(t: Tree, name: string)
    requires name !in t
    ensures PutAll(t, [Item([name], IsDir)]) == Some(t[name := Dir(map[])])
  {
    var items := [Item([name], IsDir)];
    assert MkdirAll(map[], items[0].path[1..]) == Some(map[]);
    assert Put(t, items[0].path, IsDir) == Some(t[name := Dir(map[])]);
    assert items[1..] == [];
  }

  // ----- archive, extract, swap -----

  ghost predicate PlainTree(node: Node)
    decreases node
  {
    node.Dir? ==> forall n :: n in node.children ==> PlainName(n) && PlainTree(node.children[n])
  }

  /** Regular files and directories only, all the way down. */
  ghost predicate NoSpecial(node: Node)
    decreases node
  {
    !node.Special? && (node.Dir? ==> forall n :: n in node.children ==> NoSpecial(node.children[n]))
  }

  ghost predicate PlainItems(items: seq<Item>) {
    forall i :: 0 <= i < |items| ==> PlainPath(items[i].path)
  }

  lemma {:induction false} WalkIsPlain(dir: Node, names: seq<string>, rel: Path, keep: Path -> bool)
    requires dir.Dir? && forall n :: n in names ==> n in dir.children
    requires PlainTree(Dir(Filtered(dir, rel, keep)))
    ensures PlainItems(WalkNames(dir, names, rel, keep))
    decreases dir, 0, |names|
  {
    if names != [] {
      WalkIsPlain(dir, names[1..], rel, keep);
      var n := names[0];
      var node := dir.children[n];
      if !node.Special? && keep(rel + [n]) {
        assert n in Dir(Filtered(dir, rel, keep)).children;
        VisitIsPlain(n, node, rel + [n], keep);
      }
    }
  }

  lemma {:induction false} VisitIsPlain(name: string, node: Node, rel: Path, keep: Path -> bool)
    requires PlainName(name) && PlainTree(FilteredNode(node, rel, keep))
    ensures PlainItems(Visit(name, node, rel, keep))
    decreases node, 1
  {
    if node.Dir? {
      WalkIsPlain(node, Sorted(node.children.Keys), rel, keep);
      PrefixedIsPlain(name, Walk(node, rel, keep));
    }
  }

  lemma {:induction false} PrefixedIsPlain(name: string, items: seq<Item>)
    requires PlainName(name) && PlainItems(items)
    ensures PlainItems(Prefixed(name, items))
  {
    var r := Prefixed(name, items);
    forall i, j | 0 <= i < |r| && 0 <= j < |r[i].path| ensures PlainName(r[i].path[j]) {
      if j > 0 { assert r[i].path[j] == items[i].path[j - 1]; }
    }
  }

  ghost function StripOne(item: Item, prefix: Path): seq<Item> {
    match UnderPrefix(item.path, prefix)
    case None => []
    case Some(rel) => [Item(rel, item.leaf)]
  }

  /** What UnderPrefix leaves of a list of items. */
  ghost function Strip(items: seq<Item>, prefix: Path): (r: seq<Item>)
    ensures Placed(r)
  {
    if items == [] then [] else StripOne(items[0], prefix) + Strip(items[1..], prefix)
  }

  lemma {:induction false} ConcatAssociates(x: seq<Item>, y: seq<Item>, z: seq<Item>)
    ensures x + y + z == x + (y + z)
  {
  }

  lemma {:induction false} StripConcat(a: seq<Item>, b: seq<Item>, prefix: Path)
    ensures Strip(a + b, prefix) == Strip(a, prefix) + Strip(b, prefix)
  {
    if a == [] {
      assert a + b == b;
    } else {
      StripConcat(a[1..], b, prefix);
      assert (a + b)[1..] == a[1..] + b;
      ConcatAssociates(StripOne(a[0], prefix), Strip(a[1..], prefix), Strip(b, prefix));
    }
  }

  lemma {:induction false} StripHead(name: string, item: Item, w: string)
    requires |item.path| > 0
    ensures StripOne(Item([name] + item.path, item.leaf), [w]) == if name == w then [item] else []
  {
    var path := [name] + item.path;
    assert path[1..] == item.path;
    assert path[0] == name && path[..1] == [name];
    if name == w {
      assert [w] < path;
    }
  }

  lemma {:induction false} StripPrefixed(name: string, items: seq<Item>, w: string)
    requires Placed(items)
    ensures Strip(Prefixed(name, items), [w]) == if name == w then items else []
  {
    if items != [] {
      StripPrefixed(name, items[1..], w);
      assert Prefixed(name, items)[1..] == Prefixed(name, items[1..]);
      StripHead(name, items[0], w);
    }
  }

  lemma {:induction false} StripVisit(name: string, node: Node, rel: Path, keep: Path -> bool, w: string)
    ensures Strip(Visit(name, node, rel, keep), [w])
            == if name == w && node.Dir? && keep(rel) then Walk(node, rel, keep) else []
  {
    if !node.Special? && keep(rel) {
      var visited := Visit(name, node, rel, keep);
      assert !([w] < visited[0].path);
      if node.File? {
        assert visited[1..] == [];
      } else {
        WalkIsPlaced(node, Sorted(node.children.Keys), rel, keep);
        StripPrefixed(name, Walk(node, rel, keep), w);
        assert visited[1..] == Prefixed(name, Walk(node, rel, keep));
      }
    }
  }

  lemma {:induction false} StripWalk(dir: Node, names: seq<string>, keep: Path -> bool, w: string)
    requires dir.Dir? && forall n :: n in names ==> n in dir.children
    requires forall i, j :: 0 <= i < j < |names| ==> names[i] != names[j]
    ensures Strip(WalkNames(dir, names, [], keep), [w])
            == if w in names && dir.children[w].Dir? && keep([w]) then Walk(dir.children[w], [w], keep) else []
    decreases |names|
  {
    if names != [] {
      var n, rest := names[0], names[1..];
      assert [] + [n] == [n];
      StripWalk(dir, rest, keep, w);
      StripVisit(n, dir.children[n], [n], keep, w);
      StripConcat(Visit(n, dir.children[n], [n], keep), WalkNames(dir, rest, [], keep), [w]);
      assert w in names <==> n == w || w in rest;
    }
  }

  /** Extraction reads headers back as the items they were written for. */
  lemma {:induction false} ExtractIsPut(t: Tree, items: seq<Item>, prefix: Path)
    requires PlainItems(items)
    ensures ExtractFrom(t, Headers(items), prefix) == PutAll(t, Strip(items, prefix))
    decreases |items|
  {
    if items != [] {
      HeaderRoundTrip(items[0]);
      assert Headers(items)[1..] == Headers(items[1..]);
      var kept, rest := StripOne(items[0], prefix), Strip(items[1..], prefix);
      match ExtractEntry(t, Headers(items)[0], prefix)
      case None =>
      case Some(t') =>
        ExtractIsPut(t', items[1..], prefix);
        assert kept != [] ==> (kept + rest)[1..] == rest;
        assert kept == [] ==> kept + rest == rest;
    }
  }

  /** The part of worlds_local/ an archive holds. */
  function Archived(worldsLocal: Node): Tree
    requires worldsLocal.Dir?
  {
    Filtered(worldsLocal, [WORLDS_LOCAL], Archivable)
  }

  /** Everything under worlds/ an archive holds. */
  function ArchivedTop(worlds: Tree): Tree {
    Filtered(Dir(worlds), [], Archivable)
  }

  /** Extracting a world archive under worlds_local/ gives back what the archive holds of it. */
  lemma {:induction false} ExtractArchive(worlds: Tree)
    requires PlainTree(Dir(ArchivedTop(worlds))) && WORLDS_LOCAL in worlds && worlds[WORLDS_LOCAL].Dir?
    ensures ExtractFrom(map[], ArchiveOf(worlds), [WORLDS_LOCAL]) == Some(Archived(worlds[WORLDS_LOCAL]))
  {
    var keep := Archivable;
    var names := Sorted(worlds.Keys);
    WalkIsPlain(Dir(worlds), names, [], keep);
    ExtractIsPut(map[], Walk(Dir(worlds), [], keep), [WORLDS_LOCAL]);
    StripWalk(Dir(worlds), names, keep, WORLDS_LOCAL);
    PutWorldsLocal(worlds[WORLDS_LOCAL]);
  }

  lemma {:induction false} PutWorldsLocal(local: Node)
    requires local.Dir?
    ensures Placed(Walk(local, [WORLDS_LOCAL], Archivable))
    ensures PutAll(map[], Walk(local, [WORLDS_LOCAL], Archivable)) == Some(Archived(local))
  {
    var names := Sorted(local.children.Keys);
    PutWalk(local, names, [WORLDS_LOCAL], Archivable, map[]);
    RestrictToAll(Archived(local), names);
  }

  /** Below an entry that is not a rolling save, everything is archived. */
  lemma {:induction false} DeepIsWhole(node: Node, rel: Path)
    requires NoSpecial(node) && |rel| >= 2 && Archivable(rel)
    ensures FilteredNode(node, rel, Archivable) == node
    decreases node
  {
    if node.Dir? {
      var keep := Archivable;
      forall n | n in node.children ensures FilteredNode(node.children[n], rel + [n], keep) == node.children[n] {
        assert (rel + [n])[0] == rel[0] && (rel + [n])[1] == rel[1];
        DeepIsWhole(node.children[n], rel + [n]);
      }
      assert Filtered(node, rel, keep) == node.children;
    }
  }

  lemma {:induction false} ArchivedEntries(local: Node)
    requires local.Dir? && NoSpecial(local)
    ensures forall n :: n in Archived(local) <==> n in local.children && !IsAutoSave(n)
    ensures forall n :: n in Archived(local) ==> Archived(local)[n] == local.children[n]
  {
    var keep := Archivable;
    forall n ensures n in Archived(local) <==> n in local.children && !IsAutoSave(n) {
      var rel := [WORLDS_LOCAL] + [n];
      assert Archivable(rel) <==> !IsAutoSave(n);
    }
    forall n | n in Archived(local) ensures Archived(local)[n] == local.children[n] {
      DeepIsWhole(local.children[n], [WORLDS_LOCAL] + [n]);
    }
  }

  lemma {:induction false} RollingSavesAreCarried(staged: Tree, local: Tree, onDisk: Tree)
    requires forall n :: n in staged <==> n in local && !IsAutoSave(n)
    requires forall n :: n in staged ==> staged[n] == local[n]
    ensures
      var restored := WorldSwap.Carried(staged, onDisk, IsAutoSave);
      && (forall n :: n in restored <==> if IsAutoSave(n) then n in onDisk else n in local)
      && (forall n :: n in restored ==> restored[n] == if IsAutoSave(n) then onDisk[n] else local[n])
      && (onDisk == local ==> restored == local)
  {
    hide IsAutoSave;
  }

  /**
   The round trip. Restoring an archive of worlds_local/ over the tree now on disk gives the
   archived entries that are not rolling saves and the rolling saves on disk; when nothing changed
   in between, that is the tree that was archived.
   */
  lemma {:induction false} RestoreReproduces(worlds: Tree, onDisk: Tree)
    requires PlainTree(Dir(ArchivedTop(worlds))) && WORLDS_LOCAL in worlds && worlds[WORLDS_LOCAL].Dir?
    requires NoSpecial(worlds[WORLDS_LOCAL])
    ensures
      var local := worlds[WORLDS_LOCAL].children;
      var staged := ExtractFrom(map[], ArchiveOf(worlds), [WORLDS_LOCAL]);
      && staged.Some?
      && var restored := WorldSwap.Carried(staged.value, onDisk, IsAutoSave);
      && (forall n :: n in restored <==> if IsAutoSave(n) then n in onDisk else n in local)
      && (forall n :: n in restored ==> restored[n] == if IsAutoSave(n) then onDisk[n] else local[n])
      && (onDisk == local ==> restored == local)
  {
    hide Archivable, ExtractFrom, ArchiveOf, Filtered, IsAutoSave, WorldSwap.Carried;
    ExtractArchive(worlds);
    ArchivedEntries(worlds[WORLDS_LOCAL]);
    RollingSavesAreCarried(Archived(worlds[WORLDS_LOCAL]), worlds[WORLDS_LOCAL].children, onDisk);
  }

  // ----- skipping a directory is filtering the paths under it -----

  /** The leaf at a path of a tree, None where there is no file or directory. */
  function At(t: Tree, p: Path): Option<Leaf>
    requires |p| > 0
    decreases |p|
  {
    if p[0] !in t then None
    else
      match t[p[0]]
      case Special => None
      case File(data) => if |p| == 1 then Some(IsFile(data)) else None
      case Dir(children) => if |p| == 1 then Some(IsDir) else At(children, p[1..])
  }

  lemma {:induction false} SkippingIsFiltering(dir: Node, rel: Path, p: Path)
    requires dir.Dir? && |p| > 0
    ensures At(Filtered(dir, rel, Archivable), p)
            == if Archivable(rel + p) then At(dir.children, p) else None
    decreases |p|
  {
    var keep := Archivable;
    var n := p[0];
    assert rel + p == rel + [n] + p[1..];
    assert (rel + [n])[..|rel + [n]|] == rel + [n];
    if |p| == 1 {
      assert p[1..] == [] && rel + p == rel + [n];
    } else if n in dir.children && dir.children[n].Dir? && keep(rel + [n]) {
      SkippingIsFiltering(dir.children[n], rel + [n], p[1..]);
    } else if !keep(rel + [n]) {
      assert forall i :: 0 <= i < |rel + [n]| ==> (rel + p)[i] == (rel + [n])[i];
    }
  }

  // ----- why the names must hold no backslash -----

  ghost predicate NoBackslash(node: Node)
    decreases node
  {
    node.Dir? ==> forall n :: n in node.children ==> '\\' !in n && NoBackslash(node.children[n])
  }

  lemma {:induction false} AddKeepsNoBackslash(t: Tree, name: string, node: Node)
    requires NoBackslash(Dir(t)) && '\\' !in name && NoBackslash(node)
    ensures NoBackslash(Dir(t[name := node]))
  {
    var d := Dir(t[name := node]);
    forall n | n in d.children ensures '\\' !in n && NoBackslash(d.children[n]) {
      if n != name { assert n in Dir(t).children && d.children[n] == Dir(t).children[n]; }
    }
  }

  lemma {:induction false} PutKeepsNoBackslash(t: Tree, p: Path, leaf: Leaf)
    requires PlainPath(p) && NoBackslash(Dir(t))
    ensures Put(t, p, leaf).Some? ==> NoBackslash(Dir(Put(t, p, leaf).value))
    decreases |p|
  {
    assert PlainName(p[0]);
    if leaf.IsFile? && |p| == 1 {
      AddKeepsNoBackslash(t, p[0], File(leaf.data));
    } else if Below(t, p[0]).Some? && Put(t, p, leaf).Some? {
      var sub := Below(t, p[0]).value;
      assert NoBackslash(Dir(sub)) by {
        if p[0] in t { assert p[0] in Dir(t).children && Dir(t).children[p[0]] == Dir(sub); }
      }
      if |p| > 1 {
        PutKeepsNoBackslash(sub, p[1..], leaf);
        AddKeepsNoBackslash(t, p[0], Dir(Put(sub, p[1..], leaf).value));
      } else {
        assert p[1..] == [] && MkdirAll(sub, []) == Some(sub);
        AddKeepsNoBackslash(t, p[0], Dir(sub));
      }
    }
  }

  lemma {:induction false} ExtractedHasNoBackslash(t: Tree, entries: seq<Entry>, prefix: Path)
    requires NoBackslash(Dir(t))
    ensures ExtractFrom(t, entries, prefix).Some? ==> NoBackslash(Dir(ExtractFrom(t, entries, prefix).value))
    decreases |entries|
  {
    if entries != [] && ExtractEntry(t, entries[0], prefix).Some? {
      var t' := ExtractEntry(t, entries[0], prefix).value;
      AcceptedNamesArePlain(entries[0].name);
      var path := CleanEntry(entries[0].name).value;
      if prefix < path {
        var rel := path[|prefix|..];
        assert PlainPath(rel);
        PutKeepsNoBackslash(t, rel, match entries[0].kind case Regular(data) => IsFile(data) case _ => IsDir);
      }
      ExtractedHasNoBackslash(t', entries[1..], prefix);
    }
  }

  /** What a filesystem lets a name be. */
  ghost predicate OsTree(node: Node)
    decreases node
  {
    node.Dir? ==> forall n :: n in node.children ==>
      n != "" && n != "." && n != ".." && '/' !in n && OsTree(node.children[n])
  }

  lemma {:induction false} OsNamesArePlain(node: Node)
    requires OsTree(node) && NoBackslash(node)
    ensures PlainTree(node)
    decreases node
  {
    if node.Dir? {
      forall n | n in node.children ensures PlainTree(node.children[n]) {
        OsNamesArePlain(node.children[n]);
      }
    }
  }

  lemma {:induction false} TopHoldsLocal(worlds: Tree)
    requires WORLDS_LOCAL in worlds && worlds[WORLDS_LOCAL].Dir?
    ensures WORLDS_LOCAL in ArchivedTop(worlds)
    ensures ArchivedTop(worlds)[WORLDS_LOCAL] == Dir(Archived(worlds[WORLDS_LOCAL]))
  {
    var local := worlds[WORLDS_LOCAL];
    var rel: Path := [] + [WORLDS_LOCAL];
    assert rel == [WORLDS_LOCAL] && Archivable(rel);
    assert ArchivedTop(worlds)[WORLDS_LOCAL] == FilteredNode(local, rel, Archivable);
    assert FilteredNode(local, rel, Archivable) == Dir(Filtered(local, rel, Archivable));
  }

  lemma {:induction false} TreeWithEntryIsPlain(top: Tree, name: string)
    requires name in top && OsTree(Dir(top))
    requires NoBackslash(Dir(top - {name})) && '\\' !in name && NoBackslash(top[name])
    ensures PlainTree(Dir(top))
  {
    AddKeepsNoBackslash(top - {name}, name, top[name]);
    assert top == (top - {name})[name := top[name]];
    OsNamesArePlain(Dir(top));
  }

  lemma {:induction false} EmptyHasNoBackslash()
    ensures NoBackslash(Dir(map[])) && '\\' !in WORLDS_LOCAL
  {
  }

  /**
   Exactly when the archived part of worlds_local/ comes back as it was: when none of its names
   holds a backslash, which extraction reads as a directory separator. Names archived from
   elsewhere under worlds/ are taken to hold none.
   */
  lemma {:induction false} ReproducedIffNoBackslash(worlds: Tree)
    requires WORLDS_LOCAL in worlds && worlds[WORLDS_LOCAL].Dir?
    requires OsTree(Dir(ArchivedTop(worlds)))
    requires NoBackslash(Dir(ArchivedTop(worlds) - {WORLDS_LOCAL}))
    ensures ExtractFrom(map[], ArchiveOf(worlds), [WORLDS_LOCAL]) == Some(Archived(worlds[WORLDS_LOCAL]))
            <==> NoBackslash(Dir(Archived(worlds[WORLDS_LOCAL])))
  {
    hide ExtractFrom, ArchiveOf, Filtered, Archivable, Archived, ArchivedTop, PlainTree, OsTree;
    EmptyHasNoBackslash();
    ExtractedHasNoBackslash(map[], ArchiveOf(worlds), [WORLDS_LOCAL]);
    if NoBackslash(Dir(Archived(worlds[WORLDS_LOCAL]))) {
      TopHoldsLocal(worlds);
      TreeWithEntryIsPlain(ArchivedTop(worlds), WORLDS_LOCAL);
      ExtractArchive(worlds);
    }
  }
}
