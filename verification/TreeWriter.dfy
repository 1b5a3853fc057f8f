/**
 The archive walk and the extraction as the code runs them: a writer that appends entries and
 counts files, and a loop that mutates the destination entry by entry. Both are proved to compute
 the functions of module Archive, which carry the round trip.
*/
module TreeWriter {
  import opened Optional
  import opened Text
  import opened Bytes
  import opened Worlds
  import opened Archive

  /** The headers of a directory's items, written with the directory's own path in front. */
  ghost function Emitted(parent: Path, items: seq<Item>): seq<Entry> {
    if items == [] then []
    else [Header(Item(parent + items[0].path, items[0].leaf))] + Emitted(parent, items[1..])
  }

  lemma {:induction false} EmittedPrefixed(parent: Path, name: string, items: seq<Item>)
    ensures Emitted(parent, Prefixed(name, items)) == Emitted(parent + [name], items)
  {
    if items != [] {
      EmittedPrefixed(parent, name, items[1..]);
      assert Prefixed(name, items)[1..] == Prefixed(name, items[1..]);
      assert parent + ([name] + items[0].path) == parent + [name] + items[0].path;
    }
  }

  lemma {:induction false} EmittedConcat(parent: Path, a: seq<Item>, b: seq<Item>)
    ensures Emitted(parent, a + b) == Emitted(parent, a) + Emitted(parent, b)
  {
    if a == [] {
      assert a + b == b;
    } else {
      EmittedConcat(parent, a[1..], b);
      assert (a + b)[1..] == a[1..] + b;
    }
  }

  lemma {:induction false} EmittedAtRoot(items: seq<Item>)
    ensures Emitted([], items) == Headers(items)
  {
    if items != [] {
      EmittedAtRoot(items[1..]);
      assert [] + items[0].path == items[0].path;
    }
  }

  ghost function Files(items: seq<Item>): nat {
    if items == [] then 0 else (if items[0].leaf.IsFile? then 1 else 0) + Files(items[1..])
  }

  lemma {:induction false} FilesConcat(a: seq<Item>, b: seq<Item>)
    ensures Files(a + b) == Files(a) + Files(b)
  {
    if a == [] {
      assert a + b == b;
    } else {
      FilesConcat(a[1..], b);
      assert (a + b)[1..] == a[1..] + b;
    }
  }

  lemma {:induction false} FilesPrefixed(name: string, items: seq<Item>)
    ensures Files(Prefixed(name, items)) == Files(items)
  {
    if items != [] {
      FilesPrefixed(name, items[1..]);
      assert Prefixed(name, items)[1..] == Prefixed(name, items[1..]);
    }
  }

  ghost function FilesAt(items: seq<Item>): set<nat> {
    set i: nat | i < |items| && items[i].leaf.IsFile?
  }

  lemma {:induction false} OneMoreFile(items: seq<Item>, item: Item)
    ensures |FilesAt(items + [item])| == |FilesAt(items)| + if item.leaf.IsFile? then 1 else 0
    ensures Files(items + [item]) == Files(items) + if item.leaf.IsFile? then 1 else 0
  {
    FilesConcat(items, [item]);
    assert [item][1..] == [];
    var n, before := |items|, FilesAt(items);
    assert FilesAt(items + [item]) == if item.leaf.IsFile? then before + {n} else before;
  }

  lemma {:induction false} FilesAreCounted(items: seq<Item>)
    ensures Files(items) == |FilesAt(items)|
  {
    if items == [] {
      assert FilesAt(items) == {};
    } else {
      var n := |items| - 1;
      FilesAreCounted(items[..n]);
      hide Files, FilesAt;
      OneMoreFile(items[..n], items[n]);
      assert items == items[..n] + [items[n]];
    }
  }

  lemma {:induction false} WalkNext(dir: Node, names: seq<string>, i: nat, rel: Path, keep: Path -> bool)
    requires dir.Dir? && i < |names| && forall n :: n in names ==> n in dir.children
    ensures
      var left, rest := WalkNames(dir, names[i..], rel, keep), WalkNames(dir, names[i + 1..], rel, keep);
      var visited := Visit(names[i], dir.children[names[i]], rel + [names[i]], keep);
      && Emitted(rel, left) == Emitted(rel, visited) + Emitted(rel, rest)
      && Files(left) == Files(visited) + Files(rest)
  {
    var rest := WalkNames(dir, names[i + 1..], rel, keep);
    var visited := Visit(names[i], dir.children[names[i]], rel + [names[i]], keep);
    assert names[i..][1..] == names[i + 1..];
    assert WalkNames(dir, names[i..], rel, keep) == visited + rest;
    EmittedConcat(rel, visited, rest);
    FilesConcat(visited, rest);
  }

  lemma {:induction false} VisitDirectory(parent: Path, name: string, node: Node, keep: Path -> bool)
    requires node.Dir? && keep(parent + [name])
    ensures
      var rel := parent + [name];
      var items := Visit(name, node, rel, keep);
      && Emitted(parent, items)
         == [Entry(Join(rel, '/') + "/", Directory)] + Emitted(rel, Walk(node, rel, keep))
      && Files(items) == Files(Walk(node, rel, keep))
  {
    var rel := parent + [name];
    var head, inner := [Item([name], IsDir)], Walk(node, rel, keep);
    EmittedPrefixed(parent, name, inner);
    EmittedConcat(parent, head, Prefixed(name, inner));
    FilesConcat(head, Prefixed(name, inner));
    FilesPrefixed(name, inner);
    assert head[1..] == [];
  }

  lemma {:induction false} VisitSkipped(parent: Path, name: string, node: Node, keep: Path -> bool)
    requires node.Special? || !keep(parent + [name])
    ensures var items := Visit(name, node, parent + [name], keep); Emitted(parent, items) == [] && Files(items) == 0
  {
  }

  lemma {:induction false} VisitFile(parent: Path, name: string, node: Node, keep: Path -> bool)
    requires node.File? && keep(parent + [name])
    ensures
      var items := Visit(name, node, parent + [name], keep);
      Emitted(parent, items) == [Entry(Join(parent + [name], '/'), Regular(node.data))] && Files(items) == 1
  {
    hide Join;
    var items := Visit(name, node, parent + [name], keep);
    assert items == [Item([name], IsFile(node.data))] && items[1..] == [];
  }

  /** One WriteTree walk. */
  class Writer {
    var out: seq<Entry>
    var entries: nat
    const keep: Path -> bool

    constructor (keep: Path -> bool)
      ensures out == [] && entries == 0 && this.keep == keep
    {
      out, entries, this.keep := [], 0, keep;
    }

    /** treeWriter.visit of one entry, and of everything under it unless keep skips it whole. */
    method VisitEntry(parent: Path, name: string, node: Node)
      modifies this
      ensures
        var items := Visit(name, node, parent + [name], keep);
        out == old(out) + Emitted(parent, items) && entries == old(entries) + Files(items)
      decreases node, 1
    {
      hide Visit, Emitted, Files, Join, Walk;
      var rel := parent + [name];
      if node.Special? || !keep(rel) {
        VisitSkipped(parent, name, node, keep);
        assert out + [] == out;
        return;
      }
      if node.File? {
        VisitFile(parent, name, node, keep);
        out, entries := out + [Entry(Join(rel, '/'), Regular(node.data))], entries + 1;
        return;
      }
      ghost var before := out;
      out := out + [Entry(Join(rel, '/') + "/", Directory)];
      VisitDirectory(parent, name, node, keep);
      VisitAll(node, rel);
      Regroup(before, [Entry(Join(rel, '/') + "/", Directory)], Emitted(rel, Walk(node, rel, keep)));
    }

    /** The entries of one directory, in listing order. */
    method VisitAll(dir: Node, rel: Path)
      requires dir.Dir?
      modifies this
      ensures
        var items := Walk(dir, rel, keep);
        out == old(out) + Emitted(rel, items) && entries == old(entries) + Files(items)
      decreases dir, 0
    {
      var names := Sorted(dir.children.Keys);
      ghost var before, total := out, Emitted(rel, WalkNames(dir, names, rel, keep));
      ghost var left := total;
      assert names[0..] == names;
      for i := 0 to |names|
        invariant left == Emitted(rel, WalkNames(dir, names[i..], rel, keep))
        invariant out + left == before + total
        invariant entries + Files(WalkNames(dir, names[i..], rel, keep))
               == old(entries) + Files(WalkNames(dir, names, rel, keep))
      {
        WalkNext(dir, names, i, rel, keep);
        ghost var visited := Emitted(rel, Visit(names[i], dir.children[names[i]], rel + [names[i]], keep));
        left := Emitted(rel, WalkNames(dir, names[i + 1..], rel, keep));
        ghost var written := out;
        VisitEntry(rel, names[i], dir.children[names[i]]);
        Regroup(written, visited, left);
      }
    }
  }

  lemma {:induction false} Regroup(a: seq<Entry>, b: seq<Entry>, c: seq<Entry>)
    ensures a + (b + c) == a + b + c
  {
  }

  /** The files are the regular entries of the archive. */
  lemma {:induction false} RegularEntries(items: seq<Item>, archive: seq<Entry>)
    requires archive == Headers(items)
    ensures (set i | 0 <= i < |archive| && archive[i].kind.Regular?) == FilesAt(items)
  {
  }

  /** WriteTree over worlds/ with archivable: the archive, and how many files it holds. */
  method WriteTree(worlds: Tree) returns (archive: seq<Entry>, files: nat)
    ensures archive == ArchiveOf(worlds)
    ensures files == |set i | 0 <= i < |archive| && archive[i].kind.Regular?|
  {
    var w := new Writer(Archivable);
    w.VisitAll(Dir(worlds), []);
    archive, files := w.out, w.entries;
    ghost var items := Walk(Dir(worlds), [], Archivable);
    EmittedAtRoot(items);
    FilesAreCounted(items);
    RegularEntries(items, archive);
  }

  // ----- a file that changes while it is copied -----

  /**
   What opening a file finds after the walk read its size: nothing there or a link, something that does
   not open, such as a socket, no regular file, or a file.
  */
  datatype Found = Gone | Unopenable | NotRegular | Holds(data: seq<byte>)

  datatype Copy = Wrote(body: seq<byte>) | Skipped | Failed

  /** The first size bytes, and zeros for those the file no longer has. */
  predicate Padded(data: seq<byte>, size: nat, body: seq<byte>) {
    |body| == size && forall i :: 0 <= i < size ==> body[i] == if i < |data| then data[i] else 0
  }

  /**
   writeEntry of a file under a header that promised size bytes. A live copy fails only on what does not
   open, and writes exactly what was promised of a file that changed; a copy of a stopped server's file writes all
   of it, or fails when it is gone or has grown.
  */
  method WriteEntry(size: nat, found: Found, live: bool) returns (copy: Copy)
    ensures live ==> copy.Wrote? == found.Holds? && copy.Failed? == found.Unopenable?
    ensures live && copy.Wrote? ==> Padded(found.data, size, copy.body)
    ensures !live ==> (copy.Skipped? <==> found.NotRegular?)
    ensures !live ==> (copy.Wrote? <==> found.Holds? && |found.data| <= size)
    ensures !live && copy.Wrote? ==> copy.body == found.data
  {
    match found
    case Gone => return if live then Skipped else Failed;
    case Unopenable => return Failed;
    case NotRegular => return Skipped;
    case Holds(data) =>
      if !live { return if |data| > size then Failed else Wrote(data); }
      var n := if |data| < size then |data| else size;
      var body := data[..n];
      while |body| < size
        invariant |body| <= size && Padded(data, |body|, body)
      {
        body := body + [0];
      }
      return Wrote(body);
  }

  /** Extract into an empty destination: the tree built, or None at the first entry refused. */
  method Extract(archive: seq<Entry>, prefix: Path) returns (made: Option<Tree>)
    ensures made == ExtractFrom(map[], archive, prefix)
  {
    var dest: Tree := map[];
    for i := 0 to |archive|
      invariant ExtractFrom(dest, archive[i..], prefix) == ExtractFrom(map[], archive, prefix)
    {
      var next := ExtractEntry(dest, archive[i], prefix);
      if next.None? {
        return None;
      }
      dest := next.value;
    }
    return Some(dest);
  }

  /** Archive, then extract: what the archive holds of worlds_local/, from the code itself. */
  method ArchiveAndExtract(worlds: Tree) returns (staged: Option<Tree>)
    requires OsTree(Dir(ArchivedTop(worlds))) && NoBackslash(Dir(ArchivedTop(worlds)))
    requires WORLDS_LOCAL in worlds && worlds[WORLDS_LOCAL].Dir?
    ensures staged == Some(Archived(worlds[WORLDS_LOCAL]))
  {
    OsNamesArePlain(Dir(ArchivedTop(worlds)));
    ExtractArchive(worlds);
    var archive, _ := WriteTree(worlds);
    staged := Extract(archive, [WORLDS_LOCAL]);
  }
}
