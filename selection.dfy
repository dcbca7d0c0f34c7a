/**
 * The selection of files to scrape: the set `files_to_scrape`, the listbox
 * that shows it sorted, and the handlers that add and remove paths from it.
 */
module Selection {
  import opened Basics
  import opened Text
  import opened Paths

  /** One triple of `os.walk`, without its subdirectory names: a directory and the files directly in it. */
  datatype WalkStep = WalkStep(root: string, files: seq<string>)

  /**
   * What the selection handlers ask of the filesystem: the paths for which
   * `os.path.isfile` and `os.path.isdir` hold, and what `os.walk` yields for
   * a directory (nothing for a path it cannot walk).
   */
  datatype FileSystem = FileSystem(files: set<string>, dirs: set<string>, walks: map<string, seq<WalkStep>>)

  function Walk(fs: FileSystem, dir: string): seq<WalkStep> {
    if dir in fs.walks then fs.walks[dir] else []
  }

  /** `os.path.join(root, file)` for the first `n` files of one walk step. */
  function StepPaths(step: WalkStep, n: nat): set<string>
    requires n <= |step.files|
  {
    if n == 0 then {} else StepPaths(step, n - 1) + {Join(step.root, step.files[n - 1])}
  }

  /** Every path the nested loops of `add_files_from_folder` add for a walk. */
  function WalkedFiles(walk: seq<WalkStep>): set<string> {
    if walk == [] then {}
    else WalkedFiles(walk[..|walk| - 1]) + StepPaths(walk[|walk| - 1], |walk[|walk| - 1].files|)
  }

  lemma {:induction false} StepPathsMembers(step: WalkStep, n: nat, x: string)
    requires n <= |step.files|
    ensures x in StepPaths(step, n) <==> exists j :: 0 <= j < n && x == Join(step.root, step.files[j])
  {
    if n > 0 {
      StepPathsMembers(step, n - 1, x);
    }
  }

  /** A walked path is exactly a walk step's directory joined with one of its file names. */
  lemma {:induction false} WalkedFilesMembers(walk: seq<WalkStep>, x: string)
    ensures x in WalkedFiles(walk) <==>
      exists k, j :: 0 <= k < |walk| && 0 <= j < |walk[k].files| && x == Join(walk[k].root, walk[k].files[j])
  {
    if walk != [] {
      var init := walk[..|walk| - 1];
      var last := walk[|walk| - 1];
      WalkedFilesMembers(init, x);
      StepPathsMembers(last, |last.files|, x);
      if x in StepPaths(last, |last.files|) {
        var j :| 0 <= j < |last.files| && x == Join(last.root, last.files[j]);
        assert 0 <= |walk| - 1 < |walk| && 0 <= j < |walk[|walk| - 1].files|;
      }
      if exists k, j :: 0 <= k < |walk| && 0 <= j < |walk[k].files| && x == Join(walk[k].root, walk[k].files[j]) {
        var k, j :| 0 <= k < |walk| && 0 <= j < |walk[k].files| && x == Join(walk[k].root, walk[k].files[j]);
        if k < |walk| - 1 {
          assert init[k] == walk[k];
        }
      }
    }
  }

  /** The set comprehension of `remove_files_from_folder`: every path with `folder` as a string prefix goes. */
  function WithoutPrefix(files: set<string>, folder: string): set<string> {
    set f | f in files && !StartsWith(f, folder)
  }

  /** The prefix test is on strings, not path segments: removing "/a/b" also removes "/a/bc/x". */
  lemma RemoveFolderIsNotSegmentAware()
    ensures WithoutPrefix({"/a/b/x", "/a/bc/x", "/a/d"}, "/a/b") == {"/a/d"}
  {
    assert StartsWith("/a/b/x", "/a/b") && StartsWith("/a/bc/x", "/a/b");
    assert "/a/d"[3] != "/a/b"[3];
  }

  /** The effect of `add_selected_files` for one selected tree item, given its `values`. */
  function AddItem(files: set<string>, item: Option<string>, fs: FileSystem): set<string> {
    match item
    case None => files
    case Some(p) =>
      if p in fs.files then files + {p}
      else if p in fs.dirs then files + WalkedFiles(Walk(fs, p))
      else files
  }

  /** `add_selected_files` over the selected items, in selection order. */
  function AddItems(files: set<string>, items: seq<Option<string>>, fs: FileSystem): set<string> {
    if items == [] then files
    else AddItem(AddItems(files, items[..|items| - 1], fs), items[|items| - 1], fs)
  }

  /** Path `x` is added because of `item`: it is the selected file, or it is walked from the selected folder. */
  predicate Contributes(item: Option<string>, fs: FileSystem, x: string) {
    item.Some? &&
    if item.value in fs.files then x == item.value
    else item.value in fs.dirs && x in WalkedFiles(Walk(fs, item.value))
  }

  /**
   * After adding the selected items the set is the old set together with each
   * selected file and every file walked under each selected folder, whatever
   * its extension; nothing else joins and nothing leaves.
   */
  lemma {:induction false} AddItemsMembers(files: set<string>, items: seq<Option<string>>, fs: FileSystem, x: string)
    ensures x in AddItems(files, items, fs) <==>
      x in files || exists k :: 0 <= k < |items| && Contributes(items[k], fs, x)
  {
    if items != [] {
      var init := items[..|items| - 1];
      AddItemsMembers(files, init, fs, x);
      if exists k :: 0 <= k < |items| && Contributes(items[k], fs, x) {
        var k :| 0 <= k < |items| && Contributes(items[k], fs, x);
        if k < |items| - 1 {
          assert init[k] == items[k];
        }
      }
      if exists k :: 0 <= k < |init| && Contributes(init[k], fs, x) {
        var k :| 0 <= k < |init| && Contributes(init[k], fs, x);
        assert items[k] == init[k];
      }
    }
  }

  /** The effect of `remove_selected_files_from_tree` for one selected tree item. */
  function RemoveItem(files: set<string>, item: Option<string>, fs: FileSystem): set<string> {
    match item
    case None => files
    case Some(p) =>
      if p in fs.files then files - {p}
      else if p in fs.dirs then WithoutPrefix(files, p)
      else files
  }

  /** `remove_selected_files_from_tree` over the selected items, in selection order. */
  function RemoveItems(files: set<string>, items: seq<Option<string>>, fs: FileSystem): set<string> {
    if items == [] then files
    else RemoveItem(RemoveItems(files, items[..|items| - 1], fs), items[|items| - 1], fs)
  }

  /** Path `x` is removed because of `item`: it is the selected file, or it has the selected folder as a string prefix. */
  predicate Removes(item: Option<string>, fs: FileSystem, x: string) {
    item.Some? &&
    if item.value in fs.files then x == item.value
    else item.value in fs.dirs && StartsWith(x, item.value)
  }

  /**
   * After removing the selected tree items a path is still selected exactly
   * when it was before and no selected item removes it: not the selected file,
   * and not starting with any selected folder's path.
   */
  lemma {:induction false} RemoveItemsMembers(files: set<string>, items: seq<Option<string>>, fs: FileSystem, x: string)
    ensures x in RemoveItems(files, items, fs) <==>
      x in files && !exists k :: 0 <= k < |items| && Removes(items[k], fs, x)
  {
    if items != [] {
      var init := items[..|items| - 1];
      RemoveItemsMembers(files, init, fs, x);
      if exists k :: 0 <= k < |items| && Removes(items[k], fs, x) {
        var k :| 0 <= k < |items| && Removes(items[k], fs, x);
        if k < |items| - 1 {
          assert init[k] == items[k];
        }
      }
      if exists k :: 0 <= k < |init| && Removes(init[k], fs, x) {
        var k :| 0 <= k < |init| && Removes(init[k], fs, x);
        assert items[k] == init[k];
      }
    }
  }

  /** Adding the same selection twice changes nothing the second time. */
  lemma {:induction false} AddItemsIdempotent(files: set<string>, items: seq<Option<string>>, fs: FileSystem)
    ensures AddItems(AddItems(files, items, fs), items, fs) == AddItems(files, items, fs)
  {
    var once := AddItems(files, items, fs);
    forall x ensures x in AddItems(once, items, fs) <==> x in once {
      AddItemsMembers(once, items, fs, x);
      AddItemsMembers(files, items, fs, x);
    }
  }

  /** Python's `<` orders the listbox: each element before the next ones. */
  predicate StrictlyAscending(s: seq<string>) {
    forall i, j :: 0 <= i < j < |s| ==> Less(s[i], s[j])
  }

  predicate Distinct(s: seq<string>) {
    forall i, j :: 0 <= i < j < |s| ==> s[i] != s[j]
  }

  /** The least element of a non-empty set, under Python's string order. */
  method Smallest(t: set<string>) returns (m: string)
    requires t != {}
    ensures m in t
    ensures forall y :: y in t && y != m ==> Less(m, y)
  {
    m :| m in t;
    var todo := t - {m};
    while todo != {}
      invariant m in t && todo <= t && m !in todo
      invariant forall y :: y in t && y !in todo && y != m ==> Less(m, y)
      decreases |todo|
    {
      var y :| y in todo;
      if Less(y, m) {
        forall z | z in t && z !in todo && z != y ensures Less(y, z) {
          if z != m {
            LessTransitive(y, m, z);
          }
        }
        m := y;
      } else {
        LessTotal(y, m);
      }
      todo := todo - {y};
    }
  }

  /** `sorted(self.files_to_scrape)`: the set's elements, each once, strictly ascending. */
  method SortedSnapshot(s: set<string>) returns (r: seq<string>)
    ensures StrictlyAscending(r)
    ensures forall x :: x in r <==> x in s
  {
    r := [];
    var rest := s;
    while rest != {}
      invariant forall x :: x in s <==> x in r || x in rest
      invariant forall x :: x in r ==> x !in rest
      invariant StrictlyAscending(r)
      invariant forall i, y :: 0 <= i < |r| && y in rest ==> Less(r[i], y)
      decreases |rest|
    {
      var m := Smallest(rest);
      r := r + [m];
      rest := rest - {m};
    }
  }

  /** Two strictly ascending sequences with the same elements are equal: the sorted listing is determined by the set. */
  lemma {:induction false} AscendingUnique(a: seq<string>, b: seq<string>)
    requires StrictlyAscending(a) && StrictlyAscending(b)
    requires forall x :: x in a <==> x in b
    ensures a == b
    decreases |a|
  {
    if a != [] {
      assert a[0] in b;
    }
    if b != [] {
      assert b[0] in a;
    }
    if a != [] && b != [] {
      if a[0] != b[0] {
        var i :| 0 <= i < |a| && a[i] == b[0];
        var j :| 0 <= j < |b| && b[j] == a[0];
        assert Less(a[0], b[0]) && Less(b[0], a[0]);
        LessTransitive(a[0], b[0], a[0]);
        LessIrreflexive(a[0]);
      }
      forall x ensures x in a[1..] <==> x in b[1..] {
        if x in a[1..] {
          var i :| 1 <= i < |a| && a[i] == x;
          assert Less(a[0], x);
          LessIrreflexive(x);
          assert x in b && x != b[0];
          var j :| 0 <= j < |b| && b[j] == x;
          assert j != 0;
          assert b[1..][j - 1] == x;
        }
        if x in b[1..] {
          var j :| 1 <= j < |b| && b[j] == x;
          assert Less(b[0], x);
          LessIrreflexive(x);
          assert x in a && x != a[0];
          var i :| 0 <= i < |a| && a[i] == x;
          assert i != 0;
          assert a[1..][i - 1] == x;
        }
      }
      AscendingUnique(a[1..], b[1..]);
      assert a == [a[0]] + a[1..] && b == [b[0]] + b[1..];
    }
  }

  /** `list(self.files_to_scrape)`: the set's elements, each once, in an order the model does not fix. */
  method Enumerate(s: set<string>) returns (r: seq<string>)
    ensures Distinct(r)
    ensures forall x :: x in r <==> x in s
  {
    r := [];
    var rest := s;
    while rest != {}
      invariant forall x :: x in s <==> x in r || x in rest
      invariant forall x :: x in r ==> x !in rest
      invariant Distinct(r)
      decreases |rest|
    {
      var x :| x in rest;
      r := r + [x];
      rest := rest - {x};
    }
  }

  /** `self.selection_listbox.get(i)`: Tk returns the empty string past the end. */
  function ListboxGet(listbox: seq<string>, i: nat): string {
    if i < |listbox| then listbox[i] else ""
  }

  datatype SelectionError = NoFilesSelected

  /**
   * The selection state of `GrabApp`: `toScrape` is `files_to_scrape` and
   * `listbox` the contents of the selection listbox. Every handler ends by
   * refreshing the listbox, which restores `Valid()`.
   */
  class GrabApp {
    var toScrape: set<string>
    var listbox: seq<string>

    /** The listbox shows the selection sorted, each path once. */
    ghost predicate Valid()
      reads this
    {
      StrictlyAscending(listbox) && forall x :: x in listbox <==> x in toScrape
    }

    constructor ()
      ensures toScrape == {} && listbox == [] && Valid()
    {
      toScrape := {};
      listbox := [];
    }

    /** `self.files_to_scrape.add(file_path)`. */
    method AddFile(p: string)
      modifies this
      ensures toScrape == old(toScrape) + {p} && listbox == old(listbox)
    {
      toScrape := toScrape + {p};
    }

    /** `self.files_to_scrape.discard(file)`: no effect when `p` is absent. */
    method Discard(p: string)
      modifies this
      ensures toScrape == old(toScrape) - {p} && listbox == old(listbox)
    {
      toScrape := toScrape - {p};
    }

    /** `add_files_from_folder`: add every file of the walk, whatever its extension. */
    method AddFilesFromFolder(walk: seq<WalkStep>)
      modifies this
      ensures toScrape == old(toScrape) + WalkedFiles(walk) && listbox == old(listbox)
    {
      for k := 0 to |walk|
        invariant toScrape == old(toScrape) + WalkedFiles(walk[..k]) && listbox == old(listbox)
      {
        var step := walk[k];
        for j := 0 to |step.files|
          invariant toScrape == old(toScrape) + WalkedFiles(walk[..k]) + StepPaths(step, j)
          invariant listbox == old(listbox)
        {
          AddFile(Join(step.root, step.files[j]));
        }
        assert walk[..k + 1][..k] == walk[..k] && walk[..k + 1][k] == step;
        assert WalkedFiles(walk[..k + 1]) == WalkedFiles(walk[..k]) + StepPaths(step, |step.files|);
      }
      assert walk[..|walk|] == walk;
    }

    /** `remove_files_from_folder`: drop every path that starts with `folder` as a string. */
    method RemoveFilesFromFolder(folder: string)
      modifies this
      ensures forall x :: x in toScrape <==> x in old(toScrape) && !StartsWith(x, folder)
      ensures toScrape == WithoutPrefix(old(toScrape), folder) && listbox == old(listbox)
    {
      toScrape := WithoutPrefix(toScrape, folder);
    }

    /** `update_selection_listbox`: show the selection sorted. */
    method UpdateSelectionListbox()
      modifies this
      ensures Valid() && toScrape == old(toScrape)
    {
      listbox := SortedSnapshot(toScrape);
    }

    /** `add_selected_files` for the `values` of the selected tree items. */
    method AddSelectedFiles(selected: seq<Option<string>>, fs: FileSystem)
      modifies this
      ensures toScrape == AddItems(old(toScrape), selected, fs)
      ensures old(toScrape) <= toScrape
      ensures Valid()
    {
      for k := 0 to |selected|
        invariant toScrape == AddItems(old(toScrape), selected[..k], fs)
      {
        var item := selected[k];
        if item.Some? {
          var p := item.value;
          if p in fs.files {
            AddFile(p);
          } else if p in fs.dirs {
            AddFilesFromFolder(Walk(fs, p));
          }
        }
        assert selected[..k + 1][..k] == selected[..k];
      }
      assert selected[..|selected|] == selected;
      forall x | x in old(toScrape) ensures x in toScrape {
        AddItemsMembers(old(toScrape), selected, fs, x);
      }
      UpdateSelectionListbox();
    }

    /** `remove_selected_files`: discard the listbox entries at the selected indices. */
    method RemoveSelectedFiles(indices: seq<nat>)
      modifies this
      ensures toScrape == old(toScrape) - set k | 0 <= k < |indices| :: ListboxGet(old(listbox), indices[k])
      ensures Valid()
    {
      var shown := listbox;
      var toRemove := seq(|indices|, k requires 0 <= k < |indices| => ListboxGet(shown, indices[k]));
      for k := 0 to |toRemove|
        invariant toScrape == old(toScrape) - set j | 0 <= j < k :: toRemove[j]
        invariant listbox == shown
      {
        Discard(toRemove[k]);
      }
      ghost var chosen := set k | 0 <= k < |indices| :: ListboxGet(shown, indices[k]);
      forall x | x in chosen ensures x in set j | 0 <= j < |toRemove| :: toRemove[j] {
        var k :| 0 <= k < |indices| && x == ListboxGet(shown, indices[k]);
        assert x == toRemove[k];
      }
      UpdateSelectionListbox();
    }

    /** `remove_selected_files_from_tree` for the `values` of the selected tree items. */
    method RemoveSelectedFilesFromTree(selected: seq<Option<string>>, fs: FileSystem)
      modifies this
      ensures toScrape == RemoveItems(old(toScrape), selected, fs)
      ensures toScrape <= old(toScrape)
      ensures Valid()
    {
      for k := 0 to |selected|
        invariant toScrape == RemoveItems(old(toScrape), selected[..k], fs)
      {
        var item := selected[k];
        if item.Some? {
          var p := item.value;
          if p in fs.files {
            Discard(p);
          } else if p in fs.dirs {
            RemoveFilesFromFolder(p);
          }
        }
        assert selected[..k + 1][..k] == selected[..k];
      }
      assert selected[..|selected|] == selected;
      forall x | x in toScrape ensures x in old(toScrape) {
        RemoveItemsMembers(old(toScrape), selected, fs, x);
      }
      UpdateSelectionListbox();
    }

    /**
     * `start_scraping`'s guard and hand-over: an empty selection is refused;
     * otherwise the selection is passed on as `list(...)`, each path once, in
     * set iteration order.
     */
    method StartScraping() returns (r: Result<seq<string>, SelectionError>)
      ensures r.Err? <==> toScrape == {}
      ensures r.Ok? ==> Distinct(r.value) && forall x :: x in r.value <==> x in toScrape
    {
      if toScrape == {} {
        return Err(NoFilesSelected);
      }
      var order := Enumerate(toScrape);
      assert exists x :: x in toScrape;
      return Ok(order);
    }
  }
}
