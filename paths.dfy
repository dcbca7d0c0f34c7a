/**
 * POSIX `os.path.join` as GitGrab uses it, and how `os.path.basename`
 * (modelled by `Text.LastSegment`) undoes it.
 */
module Paths {
  import opened Text

  /**
   * `os.path.join(a, b)` on POSIX: an absolute `b` replaces `a`; otherwise `b`
   * is appended, with a `/` in between unless `a` is empty or already ends in one.
   */
  function Join(a: string, b: string): string {
    if b != [] && b[0] == '/' then b
    else if a == [] || a[|a| - 1] == '/' then a + b
    else a + "/" + b
  }

  /**
   * `os.path.basename` of a path is its last `/`-segment, modelled by
   * `Text.LastSegment`. Joining a directory and a plain name and taking the basename gives the name back.
   */
  lemma BasenameOfJoin(dir: string, name: string)
    requires '/' !in name
    ensures LastSegment(Join(dir, name)) == name
  {
    assert name != [] ==> name[0] in name;
    if dir == [] {
      LastSegmentPlain(name);
      assert Join(dir, name) == name;
    } else if dir[|dir| - 1] == '/' {
      var s := Join(dir, name);
      assert s == dir + name;
      assert dir == dir[..|dir| - 1] + "/";
      assert s == dir[..|dir| - 1] + "/" + name;
      LastSegmentAfterSlash(dir[..|dir| - 1], name);
    } else {
      assert Join(dir, name) == dir + "/" + name;
      LastSegmentAfterSlash(dir, name);
    }
  }
}
