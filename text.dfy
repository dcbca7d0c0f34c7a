/**
 * The Python string operations GitGrab relies on, written out over `seq<char>`:
 * `str.strip()`, `str.split(sep)`, `str.replace(old, new)`, `str.startswith`,
 * `str.endswith` and the code-point ordering that `sorted` uses on strings.
 */
module Text {

  /** Python's `str.isspace` on one character: exactly the characters `str.strip()` removes. */
  predicate IsSpace(c: char) {
    ('\t' <= c <= '\r') || ('\U{1C}' <= c <= ' ') || c == '\U{85}' || c == '\U{A0}'
    || c == '\U{1680}' || ('\U{2000}' <= c <= '\U{200A}') || c == '\U{2028}' || c == '\U{2029}'
    || c == '\U{202F}' || c == '\U{205F}' || c == '\U{3000}'
  }

  predicate StartsWith(s: string, prefix: string) {
    |prefix| <= |s| && s[..|prefix|] == prefix
  }

  predicate EndsWith(s: string, suffix: string) {
    |suffix| <= |s| && s[|s| - |suffix|..] == suffix
  }

  /** Removes leading whitespace. */
  function TrimLeft(s: string): (r: string)
    ensures |r| <= |s| && r == s[|s| - |r|..]
    ensures forall i :: 0 <= i < |s| - |r| ==> IsSpace(s[i])
    ensures r != [] ==> !IsSpace(r[0])
  {
    if s != [] && IsSpace(s[0]) then TrimLeft(s[1..]) else s
  }

  /** Removes trailing whitespace. */
  function TrimRight(s: string): (r: string)
    ensures |r| <= |s| && r == s[..|r|]
    ensures forall i :: |r| <= i < |s| ==> IsSpace(s[i])
    ensures r != [] ==> !IsSpace(r[|r| - 1])
  {
    if s != [] && IsSpace(s[|s| - 1]) then TrimRight(s[..|s| - 1]) else s
  }

  /**
   * Python's `str.strip()`: the slice of `s` left once every leading and every
   * trailing whitespace character is gone.
   */
  function Strip(s: string): (r: string)
    ensures r != [] ==> !IsSpace(r[0]) && !IsSpace(r[|r| - 1])
    ensures var k := |s| - |TrimLeft(s)|;
      k + |r| <= |s| && r == s[k..k + |r|]
      && (forall i :: 0 <= i < k ==> IsSpace(s[i]))
      && (forall i :: k + |r| <= i < |s| ==> IsSpace(s[i]))
  {
    TrimRight(TrimLeft(s))
  }

  /** Python's `sep.join(parts)` for a one-character separator. */
  function JoinWith(parts: seq<string>, sep: char): string {
    if parts == [] then ""
    else if |parts| == 1 then parts[0]
    else parts[0] + [sep] + JoinWith(parts[1..], sep)
  }

  lemma JoinWithStep(first: string, rest: seq<string>, sep: char)
    requires rest != []
    ensures JoinWith([first] + rest, sep) == first + [sep] + JoinWith(rest, sep)
  {
    assert ([first] + rest)[1..] == rest;
  }

  /** A character put before the first piece ends up before the joined text. */
  lemma JoinWithCons(c: char, parts: seq<string>, sep: char)
    requires parts != []
    ensures JoinWith([[c] + parts[0]] + parts[1..], sep) == [c] + JoinWith(parts, sep)
  {
    if |parts| == 1 {
      assert [[c] + parts[0]] + parts[1..] == [[c] + parts[0]];
    } else {
      var tail := parts[1..];
      JoinWithStep([c] + parts[0], tail, sep);
      JoinWithStep(parts[0], tail, sep);
      assert [parts[0]] + tail == parts;
      assert [c] + parts[0] + [sep] + JoinWith(tail, sep) == [c] + (parts[0] + [sep] + JoinWith(tail, sep));
    }
  }

  /**
   * Python's `s.split(sep)` for a one-character separator, read character by
   * character: a separator opens a new piece, any other character joins the
   * piece it stands in. Never empty; lemma `JoinSplit` and `SplitPiecesFree`
   * give the rest of what it promises.
   */
  function Split(s: string, sep: char): (parts: seq<string>)
    ensures |parts| >= 1
  {
    if s == [] then [[]]
    else
      var rest := Split(s[1..], sep);
      if s[0] == sep then [[]] + rest
      else [[s[0]] + rest[0]] + rest[1..]
  }

  /** Joining the pieces of a split with the separator gives the text back. */
  lemma {:induction false} JoinSplit(s: string, sep: char)
    ensures JoinWith(Split(s, sep), sep) == s
  {
    if s != [] {
      var rest := Split(s[1..], sep);
      JoinSplit(s[1..], sep);
      if s[0] == sep {
        JoinWithStep([], rest, sep);
        assert s == [] + [sep] + s[1..];
      } else {
        JoinWithCons(s[0], rest, sep);
        assert s == [s[0]] + s[1..];
      }
    }
  }

  /** No piece of a split holds the separator. */
  lemma {:induction false} SplitPiecesFree(s: string, sep: char)
    ensures forall k :: 0 <= k < |Split(s, sep)| ==> sep !in Split(s, sep)[k]
  {
    if s != [] {
      var rest := Split(s[1..], sep);
      var parts := Split(s, sep);
      SplitPiecesFree(s[1..], sep);
      forall k | 0 <= k < |parts| ensures sep !in parts[k] {
        if s[0] == sep {
          if k > 0 {
            assert parts[k] == rest[k - 1];
          }
        } else if k == 0 {
          assert parts[0] == [s[0]] + rest[0];
          assert sep !in rest[0];
        } else {
          assert parts[k] == rest[k];
        }
      }
    }
  }

  /** A text splits into one piece exactly when it holds no separator. */
  lemma {:induction false} SplitSingle(s: string, sep: char)
    ensures |Split(s, sep)| == 1 <==> sep !in s
  {
    if s != [] {
      SplitSingle(s[1..], sep);
      assert s == [s[0]] + s[1..];
    }
  }

  /** A text without the separator is a single piece. */
  lemma {:induction false} SplitPlain(s: string, sep: char)
    requires sep !in s
    ensures Split(s, sep) == [s]
  {
    if s != [] {
      SplitPlain(s[1..], sep);
      assert s == [s[0]] + s[1..];
    }
  }

  /** Splitting undoes joining, for pieces free of the separator. */
  lemma {:induction false} SplitJoin(parts: seq<string>, sep: char)
    requires |parts| >= 1
    requires forall i :: 0 <= i < |parts| ==> sep !in parts[i]
    ensures Split(JoinWith(parts, sep), sep) == parts
    decreases |parts|, |parts[0]|
  {
    var p0, tail := parts[0], parts[1..];
    if |parts| == 1 {
      SplitPlain(p0, sep);
    } else if p0 == [] {
      assert [p0] + tail == parts;
      JoinWithStep(p0, tail, sep);
      var s := JoinWith(parts, sep);
      assert s == [sep] + JoinWith(tail, sep);
      assert s[1..] == JoinWith(tail, sep);
      SplitJoin(tail, sep);
    } else {
      var c := p0[0];
      var shorter := [p0[1..]] + tail;
      assert shorter[0] == p0[1..] && shorter[1..] == tail;
      forall i | 0 <= i < |shorter| ensures sep !in shorter[i] {
        if i == 0 {
          assert p0 == [c] + p0[1..];
        } else {
          assert shorter[i] == parts[i];
        }
      }
      SplitJoin(shorter, sep);
      JoinWithCons(c, shorter, sep);
      assert [c] + p0[1..] == p0;
      assert [[c] + shorter[0]] + shorter[1..] == parts;
      var s := JoinWith(parts, sep);
      assert s == [c] + JoinWith(shorter, sep);
      assert s[1..] == JoinWith(shorter, sep);
      assert c != sep by {
        assert p0[0] in p0;
      }
    }
  }

  /** The first piece is empty exactly when the text is empty or opens with the separator. */
  lemma SplitFirstEmpty(s: string, sep: char)
    ensures Split(s, sep)[0] == "" <==> (s == "" || s[0] == sep)
  {
    if s != [] && s[0] != sep {
      assert Split(s, sep)[0] == [s[0]] + Split(s[1..], sep)[0];
    }
  }

  /**
   * The longest suffix of `s` free of `/`: `os.path.basename(s)`, which is
   * also `s.split('/')[-1]` (lemma `LastSegmentIsLastPiece`).
   */
  function LastSegment(s: string): (r: string)
    ensures '/' !in r
  {
    if s == [] || s[|s| - 1] == '/' then []
    else LastSegment(s[..|s| - 1]) + [s[|s| - 1]]
  }

  /** The last segment is a suffix, and all of `s` unless a `/` stands right before it. */
  lemma {:induction false} LastSegmentSuffix(s: string)
    ensures var r := LastSegment(s);
      EndsWith(s, r) && (|r| < |s| ==> s[|s| - |r| - 1] == '/')
  {
    if s != [] && s[|s| - 1] != '/' {
      var init := s[..|s| - 1];
      LastSegmentSuffix(init);
      var r := LastSegment(s);
      assert r == LastSegment(init) + [s[|s| - 1]];
      assert s == init + [s[|s| - 1]];
    }
  }

  /** A text free of `/` is its own last segment. */
  lemma {:induction false} LastSegmentPlain(s: string)
    requires '/' !in s
    ensures LastSegment(s) == s
  {
    if s != [] {
      assert s == s[..|s| - 1] + [s[|s| - 1]];
      LastSegmentPlain(s[..|s| - 1]);
    }
  }

  /** After a `/`, a name free of `/` is the last segment. */
  lemma {:induction false} LastSegmentAfterSlash(prefix: string, name: string)
    requires '/' !in name
    ensures LastSegment(prefix + "/" + name) == name
  {
    var s := prefix + "/" + name;
    if name == [] {
      assert s[|s| - 1] == '/';
    } else {
      var init := name[..|name| - 1];
      assert name == init + [name[|name| - 1]];
      assert s[..|s| - 1] == prefix + "/" + init;
      LastSegmentAfterSlash(prefix, init);
      assert name == init + [name[|name| - 1]];
    }
  }

  /** The last segment of a text is the last segment of what follows any of its `/`. */
  lemma {:induction false} LastSegmentFrom(s: string, k: nat)
    requires k < |s| && s[k] == '/'
    ensures LastSegment(s) == LastSegment(s[k + 1..])
    decreases |s|
  {
    if k < |s| - 1 && s[|s| - 1] != '/' {
      var init := s[..|s| - 1];
      assert s[k + 1..][..|s| - k - 2] == init[k + 1..];
      LastSegmentFrom(init, k);
    }
  }

  /** `s.split('/')[-1]` is the last segment. */
  lemma {:induction false} LastSegmentIsLastPiece(s: string)
    ensures var parts := Split(s, '/'); parts[|parts| - 1] == LastSegment(s)
  {
    if s != [] {
      var t := s[1..];
      var rest := Split(t, '/');
      var parts := Split(s, '/');
      LastSegmentIsLastPiece(t);
      SplitSingle(t, '/');
      if s[0] == '/' {
        assert parts == [[]] + rest;
        LastSegmentFrom(s, 0);
      } else if |rest| == 1 {
        assert parts == [[s[0]] + rest[0]];
        LastSegmentPlain(t);
        assert s == [s[0]] + t;
        assert '/' !in s;
        LastSegmentPlain(s);
      } else {
        assert parts == [[s[0]] + rest[0]] + rest[1..];
        assert parts[|parts| - 1] == rest[|rest| - 1];
        var k :| 0 <= k < |t| && t[k] == '/';
        assert s[k + 1] == '/';
        LastSegmentFrom(s, k + 1);
        LastSegmentFrom(t, k);
        assert t[k + 1..] == s[k + 2..];
      }
    }
  }

  /** `pat` occurs in `s` at index `i`. */
  predicate OccursAt(s: string, pat: string, i: nat) {
    i + |pat| <= |s| && s[i..i + |pat|] == pat
  }

  /** Python's `pat in s`. */
  predicate Contains(s: string, pat: string) {
    exists i: nat | i <= |s| :: OccursAt(s, pat, i)
  }

  /**
   * Python's `s.replace(pat, rep)` for a non-empty `pat`: scans left to right
   * and replaces each occurrence it meets, resuming after it. Every character of
   * the result comes from `s` or from `rep`.
   */
  function ReplaceAll(s: string, pat: string, rep: string): (r: string)
    requires pat != []
    ensures forall c :: c in r ==> c in s || c in rep
    decreases |s|
  {
    if |s| < |pat| then s
    else if s[..|pat|] == pat then rep + ReplaceAll(s[|pat|..], pat, rep)
    else [s[0]] + ReplaceAll(s[1..], pat, rep)
  }

  /** Replacing a pattern that does not occur leaves the text alone. */
  lemma {:induction false} ReplaceAllAbsent(s: string, pat: string, rep: string)
    requires pat != []
    requires !Contains(s, pat)
    ensures ReplaceAll(s, pat, rep) == s
    decreases |s|
  {
    if |s| >= |pat| {
      assert !OccursAt(s, pat, 0);
      forall i: nat | OccursAt(s[1..], pat, i) ensures OccursAt(s, pat, i + 1) {
        assert s[i + 1..i + 1 + |pat|] == s[1..][i..i + |pat|];
      }
      ReplaceAllAbsent(s[1..], pat, rep);
    }
  }

  /** Deleting every occurrence of a pattern never lengthens a text. */
  lemma {:induction false} ReplaceAllShrinks(s: string, pat: string)
    requires pat != []
    ensures |ReplaceAll(s, pat, "")| <= |s|
    decreases |s|
  {
    if |s| >= |pat| {
      if s[..|pat|] == pat {
        ReplaceAllShrinks(s[|pat|..], pat);
      } else {
        ReplaceAllShrinks(s[1..], pat);
      }
    }
  }

  /**
   * Removing ".git" from a name that ends in ".git" and holds it nowhere else
   * strips exactly that suffix: ".git" cannot overlap itself, so no occurrence
   * straddles the boundary.
   */
  lemma {:induction false} ReplaceGitSuffix(base: string)
    requires !Contains(base, ".git")
    ensures ReplaceAll(base + ".git", ".git", "") == base
    decreases |base|
  {
    var s := base + ".git";
    if base == [] {
      assert s[..4] == ".git";
      assert s[4..] == [];
    } else {
      assert s[|base|] == '.';
      if |base| >= 4 {
        assert !OccursAt(base, ".git", 0);
        assert s[..4] == base[..4];
      }
      assert s[..4] != ".git";
      forall i: nat | OccursAt(base[1..], ".git", i) ensures OccursAt(base, ".git", i + 1) {
        assert base[i + 1..i + 5] == base[1..][i..i + 4];
      }
      assert s[1..] == base[1..] + ".git";
      ReplaceGitSuffix(base[1..]);
      assert [base[0]] + base[1..] == base;
    }
  }

  /**
   * Every ".git" is removed: removing ".git" from a text made of `a`, ".git"
   * and `b` removes it from `a` and from `b` and drops the one between them.
   * No occurrence straddles a boundary, since ".git" has no proper prefix
   * that is also a suffix.
   */
  lemma {:induction false} ReplaceAllAroundGit(a: string, b: string)
    ensures ReplaceAll(a + ".git" + b, ".git", "") == ReplaceAll(a, ".git", "") + ReplaceAll(b, ".git", "")
    decreases |a|
  {
    var s := a + ".git" + b;
    if a == [] {
      assert s[..4] == ".git" && s[4..] == b;
    } else if |a| >= 4 && a[..4] == ".git" {
      assert s[..4] == a[..4];
      assert s[4..] == a[4..] + ".git" + b;
      ReplaceAllAroundGit(a[4..], b);
    } else {
      assert s[|a|] == '.';
      if |a| >= 4 {
        assert s[..4] == a[..4];
      } else {
        assert s[..4][|a|] == '.';
      }
      assert s[..4] != ".git";
      assert s[1..] == a[1..] + ".git" + b;
      ReplaceAllAroundGit(a[1..], b);
      if |a| < 4 {
        assert [a[0]] + a[1..] == a;
      }
    }
  }

  /** Python's `<` on strings: lexicographic by code point, a proper prefix first. */
  predicate Less(a: string, b: string)
    decreases |a|
  {
    if a == [] then b != []
    else if b == [] then false
    else if a[0] != b[0] then a[0] < b[0]
    else Less(a[1..], b[1..])
  }

  lemma {:induction false} LessIrreflexive(a: string)
    ensures !Less(a, a)
    decreases |a|
  {
    if a != [] {
      LessIrreflexive(a[1..]);
    }
  }

  lemma {:induction false} LessTransitive(a: string, b: string, c: string)
    requires Less(a, b) && Less(b, c)
    ensures Less(a, c)
    decreases |a|
  {
    if a != [] && b != [] && c != [] && a[0] == b[0] && b[0] == c[0] {
      LessTransitive(a[1..], b[1..], c[1..]);
    }
  }

  lemma {:induction false} LessTotal(a: string, b: string)
    requires a != b
    ensures Less(a, b) || Less(b, a)
    decreases |a|
  {
    if a != [] && b != [] && a[0] == b[0] {
      assert a == [a[0]] + a[1..] && b == [b[0]] + b[1..];
      LessTotal(a[1..], b[1..]);
    }
  }
}
