/**
 * The tree of a fetched repository as `populate_tree` builds it: every
 * directory is shown and recursed into, a file is shown only when its name
 * ends in "." followed by one of the configured extensions.
 */
module Tree {
  import opened Basics
  import opened Text
  import opened Paths

  /**
   * What `os.listdir` and `os.path.isdir` report under a directory, in listing
   * order. A directory whose listing raises is `readable == false`; its
   * `entries` are then never looked at.
   */
  datatype Entry = File(name: string) | Dir(name: string, readable: bool, entries: seq<Entry>)

  /**
   * A Tk tree item: its display `text`, the path stored in its `values` (none
   * for a repository root), whether it was made for a directory, and its children.
   */
  datatype TreeItem = TreeItem(text: string, value: Option<string>, folder: bool, children: seq<TreeItem>)

  /**
   * The `any(item.endswith(f".{ext.strip()}") for ext in extensions)` test:
   * true exactly when `name` ends in a dot and some stripped extension.
   * The match is case-sensitive.
   */
  function HasListedExtension(name: string, extensions: seq<string>): (r: bool)
    ensures r <==> exists i :: 0 <= i < |extensions| && EndsWith(name, "." + Strip(extensions[i]))
  {
    if extensions == [] then false
    else EndsWith(name, "." + Strip(extensions[0])) || HasListedExtension(name, extensions[1..])
  }

  /** Whether `populate_tree` shows an entry: every directory, and the files with a listed extension. */
  predicate Shown(e: Entry, extensions: seq<string>) {
    e.Dir? || HasListedExtension(e.name, extensions)
  }

  /** The entries of a listing that are shown, in listing order. */
  function ShownEntries(entries: seq<Entry>, extensions: seq<string>): seq<Entry> {
    if entries == [] then []
    else (if Shown(entries[0], extensions) then [entries[0]] else []) + ShownEntries(entries[1..], extensions)
  }

  /** An entry is shown exactly when it is listed and is a directory or has a listed extension. */
  lemma {:induction false} ShownEntriesMembers(entries: seq<Entry>, extensions: seq<string>, e: Entry)
    ensures e in ShownEntries(entries, extensions) <==> e in entries && Shown(e, extensions)
  {
    if entries != [] {
      ShownEntriesMembers(entries[1..], extensions, e);
      assert entries == [entries[0]] + entries[1..];
    }
  }

  /**
   * `populate_tree(path, parent, extensions)`: the items inserted under
   * `parent` for the listing of `path`. A subdirectory whose listing raises is
   * still shown, with no children (the error is logged and its subtree skipped).
   */
  function Populate(path: string, entries: seq<Entry>, extensions: seq<string>): seq<TreeItem>
    decreases entries
  {
    if entries == [] then []
    else
      var e := entries[0];
      var p := Join(path, e.name);
      var here :=
        match e
        case File(n) =>
          if HasListedExtension(n, extensions) then [TreeItem(n, Some(p), false, [])] else []
        case Dir(n, readable, es) =>
          [TreeItem(n, Some(p), true, if readable then Populate(p, es, extensions) else [])];
      here + Populate(path, entries[1..], extensions)
  }

  /**
   * The items `populate_tree` inserts stand one for one, in order, for the
   * shown entries: same name, the joined path as value, a folder exactly for a
   * directory, and a directory's children are the population of its own listing.
   */
  lemma {:induction false} PopulateMirrorsShown(path: string, entries: seq<Entry>, extensions: seq<string>)
    ensures var items := Populate(path, entries, extensions);
      var shown := ShownEntries(entries, extensions);
      |items| == |shown|
      && forall i :: 0 <= i < |items| ==>
        && items[i].text == shown[i].name
        && items[i].value == Some(Join(path, shown[i].name))
        && items[i].folder == shown[i].Dir?
        && items[i].children ==
             (if shown[i].Dir? && shown[i].readable
              then Populate(Join(path, shown[i].name), shown[i].entries, extensions) else [])
  {
    if entries != [] {
      PopulateMirrorsShown(path, entries[1..], extensions);
    }
  }

  /** Every item made for a file, at any depth, has a listed extension. */
  predicate FileItemsMatch(items: seq<TreeItem>, extensions: seq<string>)
    decreases items
  {
    forall i :: 0 <= i < |items| ==>
      if items[i].folder then FileItemsMatch(items[i].children, extensions)
      else HasListedExtension(items[i].text, extensions)
  }

  lemma FileItemsMatchConcat(a: seq<TreeItem>, b: seq<TreeItem>, extensions: seq<string>)
    requires FileItemsMatch(a, extensions) && FileItemsMatch(b, extensions)
    ensures FileItemsMatch(a + b, extensions)
  {
    forall i | 0 <= i < |a + b|
      ensures if (a + b)[i].folder then FileItemsMatch((a + b)[i].children, extensions)
              else HasListedExtension((a + b)[i].text, extensions)
    {
      if i < |a| {
        assert (a + b)[i] == a[i];
      } else {
        assert (a + b)[i] == b[i - |a|];
      }
    }
  }

  /** No file node anywhere in a populated tree lacks a listed extension. */
  lemma {:induction false} PopulateFileItemsMatch(path: string, entries: seq<Entry>, extensions: seq<string>)
    ensures FileItemsMatch(Populate(path, entries, extensions), extensions)
    decreases entries
  {
    if entries != [] {
      var e := entries[0];
      var p := Join(path, e.name);
      var here :=
        match e
        case File(n) =>
          if HasListedExtension(n, extensions) then [TreeItem(n, Some(p), false, [])] else []
        case Dir(n, readable, es) =>
          [TreeItem(n, Some(p), true, if readable then Populate(p, es, extensions) else [])];
      if e.Dir? && e.readable {
        PopulateFileItemsMatch(p, e.entries, extensions);
      }
      assert FileItemsMatch(here, extensions);
      PopulateFileItemsMatch(path, entries[1..], extensions);
      FileItemsMatchConcat(here, Populate(path, entries[1..], extensions), extensions);
    }
  }

  /**
   * The root item for a cloned repository: titled with the basename of its
   * path, with no value, listing `disk[path]`; a root whose listing raises
   * (no entry in `disk`) has no children.
   */
  function RootItem(path: string, extensions: seq<string>, disk: map<string, seq<Entry>>): TreeItem {
    TreeItem(LastSegment(path), None, true,
             if path in disk then Populate(path, disk[path], extensions) else [])
  }

  /** The tree shown after a fetch: one root per cloned repository, in clone order. */
  function BuildRoots(paths: seq<string>, extensions: seq<string>, disk: map<string, seq<Entry>>): (roots: seq<TreeItem>)
    ensures |roots| == |paths|
    ensures forall i :: 0 <= i < |paths| ==> roots[i].text == LastSegment(paths[i]) && roots[i].value == None
  {
    seq(|paths|, i requires 0 <= i < |paths| => RootItem(paths[i], extensions, disk))
  }

  /**
   * Each root of the tree shown after a fetch is a folder titled with the
   * basename of its clone path, and its children stand one for one, in
   * listing order, for the shown entries of that clone's listing: same name,
   * the clone path joined with the name as value, a folder exactly for a
   * directory. A clone whose listing raises has no children.
   */
  lemma BuildRootsMirrorsListings(paths: seq<string>, extensions: seq<string>, disk: map<string, seq<Entry>>, i: nat)
    requires i < |paths|
    ensures var root := BuildRoots(paths, extensions, disk)[i];
      && root.text == LastSegment(paths[i]) && root.value == None && root.folder
      && (paths[i] !in disk ==> root.children == [])
      && (paths[i] in disk ==>
            var shown := ShownEntries(disk[paths[i]], extensions);
            && |root.children| == |shown|
            && forall j :: 0 <= j < |shown| ==>
                 && root.children[j].text == shown[j].name
                 && root.children[j].value == Some(Join(paths[i], shown[j].name))
                 && root.children[j].folder == shown[j].Dir?)
  {
    if paths[i] in disk {
      PopulateMirrorsShown(paths[i], disk[paths[i]], extensions);
    }
  }

  /** The whole tree shown after a fetch holds only files with a listed extension. */
  lemma BuildRootsFileItemsMatch(paths: seq<string>, extensions: seq<string>, disk: map<string, seq<Entry>>)
    ensures FileItemsMatch(BuildRoots(paths, extensions, disk), extensions)
  {
    var roots := BuildRoots(paths, extensions, disk);
    forall i | 0 <= i < |roots| ensures FileItemsMatch(roots[i].children, extensions) {
      if paths[i] in disk {
        PopulateFileItemsMatch(paths[i], disk[paths[i]], extensions);
      }
    }
  }
}
