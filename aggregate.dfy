/**
 * `scrape_and_cleanup`: write every selected file into one Markdown document
 * in the target folder, then delete the cloned repositories and clear the tree.
 */
module Aggregate {
  import opened Basics
  import opened Text
  import opened Paths
  import opened Tree
  import opened Fetch

  /** The name of the document written into the target folder. */
  const OutputName: string := "scraped_repos.md"

  /** What is written for a file before its content: a heading naming the path, then an opening code fence. */
  function Header(path: string): string {
    "\n## File: " + path + "\n" + "```\n"
  }

  /** The closing code fence written after a file's content. */
  const Footer: string := "\n```\n"

  /** The section of the document for one file. */
  function Block(path: string, content: string): string {
    Header(path) + content + Footer
  }

  /** Every selected path can be opened and read; `contents` maps each readable path to its decoded text. */
  predicate AllReadable(paths: seq<string>, contents: map<string, string>) {
    forall i :: 0 <= i < |paths| ==> paths[i] in contents
  }

  /** The document for a list of readable files: their sections, in list order. */
  function Document(paths: seq<string>, contents: map<string, string>): string
    requires AllReadable(paths, contents)
  {
    if paths == [] then ""
    else
      AllReadableSlice(paths, contents, 0, |paths| - 1);
      Document(paths[..|paths| - 1], contents) + Block(paths[|paths| - 1], contents[paths[|paths| - 1]])
  }

  lemma AllReadableSlice(paths: seq<string>, contents: map<string, string>, i: nat, j: nat)
    requires AllReadable(paths, contents) && i <= j <= |paths|
    ensures AllReadable(paths[i..j], contents)
  {
    forall k | 0 <= k < j - i ensures paths[i..j][k] in contents {
      assert paths[i..j][k] == paths[i + k];
    }
  }

  lemma AllReadableConcat(a: seq<string>, b: seq<string>, contents: map<string, string>)
    requires AllReadable(a, contents) && AllReadable(b, contents)
    ensures AllReadable(a + b, contents)
  {
    forall k | 0 <= k < |a + b| ensures (a + b)[k] in contents {
      if k < |a| {
        assert (a + b)[k] == a[k];
      } else {
        assert (a + b)[k] == b[k - |a|];
      }
    }
  }

  /** The document of two lists one after the other is the first document followed by the second. */
  lemma {:induction false} DocumentConcat(a: seq<string>, b: seq<string>, contents: map<string, string>)
    requires AllReadable(a, contents) && AllReadable(b, contents)
    ensures AllReadable(a + b, contents)
    ensures Document(a + b, contents) == Document(a, contents) + Document(b, contents)
    decreases |b|
  {
    AllReadableConcat(a, b, contents);
    if b != [] {
      var init := b[..|b| - 1];
      var last := b[|b| - 1];
      AllReadableSlice(b, contents, 0, |b| - 1);
      DocumentConcat(a, init, contents);
      assert (a + b)[..|a + b| - 1] == a + init;
      assert (a + b)[|a + b| - 1] == last;
      assert Document(b, contents) == Document(init, contents) + Block(last, contents[last]);
    } else {
      assert a + b == a;
    }
  }

  lemma DocumentSingle(p: string, contents: map<string, string>)
    requires p in contents
    ensures AllReadable([p], contents)
    ensures Document([p], contents) == Block(p, contents[p])
  {
    assert [p][..0] == [];
  }

  /**
   * Each selected file has its own section, at the place its position in the
   * list gives: the document is the part for the files before it, then its
   * heading, fence, full content and closing fence, then the part for the files after it.
   */
  lemma DocumentBlockAt(paths: seq<string>, contents: map<string, string>, k: nat)
    requires AllReadable(paths, contents) && k < |paths|
    ensures AllReadable(paths[..k], contents) && AllReadable(paths[k + 1..], contents)
    ensures Document(paths, contents) ==
      Document(paths[..k], contents) + Block(paths[k], contents[paths[k]]) + Document(paths[k + 1..], contents)
  {
    var before, p, after := paths[..k], paths[k], paths[k + 1..];
    AllReadableSlice(paths, contents, 0, k);
    AllReadableSlice(paths, contents, k + 1, |paths|);
    DocumentSingle(p, contents);
    DocumentConcat(before, [p], contents);
    DocumentConcat(before + [p], after, contents);
    assert before + [p] + after == paths;
    calc {
      Document(paths, contents);
      Document(before + [p] + after, contents);
      Document(before + [p], contents) + Document(after, contents);
      Document(before, contents) + Document([p], contents) + Document(after, contents);
    }
  }

  /** The exact text written for one file "a.py" holding "x = 1". */
  lemma DocumentExample()
    ensures AllReadable(["a.py"], map["a.py" := "x = 1"])
    ensures Document(["a.py"], map["a.py" := "x = 1"]) == "\n## File: a.py\n```\nx = 1\n```\n"
  {
    DocumentSingle("a.py", map["a.py" := "x = 1"]);
  }

  /**
   * The cleanup loop's targets: for each root of the tree, the target folder
   * joined with the root's text, in tree order.
   */
  function CleanupTargets(target: string, roots: seq<TreeItem>): (paths: seq<string>)
    ensures |paths| == |roots|
    ensures forall i :: 0 <= i < |roots| ==> paths[i] == Join(target, roots[i].text)
  {
    seq(|roots|, i requires 0 <= i < |roots| => Join(target, roots[i].text))
  }

  /**
   * When the target folder is the same as at fetch time, the cleanup deletes
   * exactly the directories the fetch cloned into, in clone order.
   */
  lemma CleanupRemovesClones(target: string, urls: seq<string>, extensions: seq<string>, disk: map<string, seq<Entry>>)
    ensures CleanupTargets(target, BuildRoots(ClonePaths(target, urls), extensions, disk)) == ClonePaths(target, urls)
  {
    var paths := ClonePaths(target, urls);
    var roots := BuildRoots(paths, extensions, disk);
    var removed := CleanupTargets(target, roots);
    forall i | 0 <= i < |urls| ensures removed[i] == paths[i] {
      var name := RepoName(Strip(urls[i]));
      BasenameOfJoin(target, name);
      assert roots[i].text == name;
    }
  }

  /**
   * A URL ending in '/' gives a root titled "", so the cleanup deletes the
   * target folder itself, and with it the output file just written there.
   */
  lemma CleanupOfEmptyNameRemovesOutput(target: string)
    requires target != [] && target[|target| - 1] != '/'
    ensures CleanupTargets(target, [TreeItem("", None, true, [])]) == [target + "/"]
    ensures StartsWith(Join(target, OutputName), CleanupTargets(target, [TreeItem("", None, true, [])])[0])
  {
    var removed := CleanupTargets(target, [TreeItem("", None, true, [])]);
    assert removed[0] == Join(target, "") == target + "/" + "";
    assert target + "/" + "" == target + "/";
    assert Join(target, OutputName) == target + "/" + OutputName;
    assert (target + "/" + OutputName)[..|target + "/"|] == target + "/";
  }

  datatype ScrapeError = OutputNotWritable | Unreadable(index: nat, path: string)

  /**
   * The result of `scrape_and_cleanup`: the output path, the text written to
   * the output file (none when it could not be opened), the directories deleted,
   * the tree roots afterwards, and the error shown, if any.
   */
  datatype Outcome = Outcome(output: string, written: Option<string>, removed: seq<string>,
                             tree: seq<TreeItem>, error: Option<ScrapeError>)

  /** The index of the first path that cannot be read. */
  predicate FirstUnreadable(paths: seq<string>, contents: map<string, string>, k: nat) {
    k < |paths| && paths[k] !in contents && AllReadable(paths[..k], contents)
  }

  /**
   * `scrape_and_cleanup(target, selected)`. `outputWritable` says whether the
   * output file can be opened for writing; `contents` holds the text read from
   * each readable file; `roots` is the tree. Only when every file is written
   * are the cloned repositories deleted and the tree cleared. A file that
   * cannot be opened ends the run with its heading and opening fence already
   * written, after the complete sections of the files before it.
   */
  method ScrapeAndCleanup(target: string, selected: seq<string>, contents: map<string, string>,
                          outputWritable: bool, roots: seq<TreeItem>) returns (o: Outcome)
    ensures o.output == Join(target, OutputName)
    ensures o.error.None? <==> outputWritable && AllReadable(selected, contents)
    ensures o.error == Some(OutputNotWritable) <==> !outputWritable
    ensures outputWritable && !AllReadable(selected, contents) ==> o.error.Some? && o.error.value.Unreadable?
    ensures !outputWritable ==> o.written.None? && o.error == Some(OutputNotWritable)
    ensures o.error.None? ==>
      && o.written == Some(Document(selected, contents))
      && o.removed == CleanupTargets(target, roots)
      && o.tree == []
    ensures o.error.Some? ==> o.removed == [] && o.tree == roots
    ensures o.error.Some? && o.error.value.Unreadable? ==>
      var k := o.error.value.index;
      && FirstUnreadable(selected, contents, k)
      && o.error.value.path == selected[k]
      && o.written == Some(Document(selected[..k], contents) + Header(selected[k]))
  {
    var output := Join(target, OutputName);
    if !outputWritable {
      return Outcome(output, None, [], roots, Some(OutputNotWritable));
    }
    var text := "";
    for i := 0 to |selected|
      invariant AllReadable(selected[..i], contents)
      invariant text == Document(selected[..i], contents)
    {
      var p := selected[i];
      text := text + Header(p);
      if p !in contents {
        return Outcome(output, Some(text), [], roots, Some(Unreadable(i, p)));
      }
      text := text + contents[p] + Footer;
      assert selected[..i + 1] == selected[..i] + [p];
      AllReadableConcat(selected[..i], [p], contents);
      assert selected[..i + 1][..i] == selected[..i];
    }
    assert selected[..|selected|] == selected;
    var removed := [];
    for i := 0 to |roots|
      invariant removed == CleanupTargets(target, roots[..i])
    {
      removed := removed + [Join(target, roots[i].text)];
    }
    assert roots[..|roots|] == roots;
    return Outcome(output, Some(text), removed, [], None);
  }
}
