/**
 * `path.join` as the browser bundle of the front end provides it (the POSIX
 * flavour of Node's `path` module): the non-empty arguments are glued with
 * `/` and the result is normalised (empty and `.` segments dropped, `..`
 * cancelling the segment before it).
 */
module PosixPath {
  import opened Text

  /** Node's `normalizeString`: resolve the segments left to right. */
  function Resolve(segs: seq<string>, allowAboveRoot: bool): (r: seq<string>)
    ensures forall k :: 0 <= k < |r| ==> r[k] != "" && r[k] != "."
    ensures !allowAboveRoot ==> forall k :: 0 <= k < |r| ==> r[k] != ".."
  {
    if segs == [] then []
    else
      var acc := Resolve(segs[..|segs| - 1], allowAboveRoot);
      var s := segs[|segs| - 1];
      if s == "" || s == "." then acc
      else if s == ".." then
        if acc != [] && acc[|acc| - 1] != ".." then acc[..|acc| - 1]
        else if allowAboveRoot then acc + [".."]
        else acc
      else acc + [s]
  }

  /** `path.normalize`. */
  function Normalize(p: string): (r: string)
    ensures r != []
  {
    if p == [] then "."
    else
      var absolute := p[0] == '/';
      var trailing := p[|p| - 1] == '/';
      var body := Join(Resolve(Split(p, '/'), !absolute), "/");
      var body1 := if body == [] && !absolute then "." else body;
      var body2 := if body1 != [] && trailing then body1 + "/" else body1;
      if absolute then "/" + body2 else body2
  }

  /** `path.join(a, b)`: empty arguments are skipped, and joining nothing gives ".". */
  function PathJoin(a: string, b: string): (r: string)
    ensures r != []
  {
    var parts := (if a != [] then [a] else []) + (if b != [] then [b] else []);
    if parts == [] then "." else Normalize(Join(parts, "/"))
  }

  /** A path segment that normalisation leaves alone. */
  predicate PlainSegment(s: string) {
    s != "" && s != "." && s != ".." && '/' !in s
  }

  /** A relative path made only of plain segments (so no leading or trailing `/`). */
  predicate PlainRelative(p: string) {
    var segs := Split(p, '/');
    forall k :: 0 <= k < |segs| ==> PlainSegment(segs[k])
  }

  lemma {:induction false} ResolvePlain(segs: seq<string>, allowAboveRoot: bool)
    requires forall k :: 0 <= k < |segs| ==> PlainSegment(segs[k])
    ensures Resolve(segs, allowAboveRoot) == segs
  {
    if segs != [] {
      ResolvePlain(segs[..|segs| - 1], allowAboveRoot);
      assert segs == segs[..|segs| - 1] + [segs[|segs| - 1]];
    }
  }

  /** `Split` cuts at the first separator: position `i` when no separator comes before it. */
  lemma SplitAt(s: string, sep: char, i: nat)
    requires i < |s| && s[i] == sep && sep !in s[..i]
    ensures Split(s, sep) == [s[..i]] + Split(s[i + 1..], sep)
  {
    assert IndexOf(s, sep) == i;
  }

  /** Splitting after appending a separator and a separator-free tail adds one segment. */
  lemma {:induction false} SplitAppend(a: string, sep: char, b: string)
    requires sep !in b
    ensures Split(a + [sep] + b, sep) == Split(a, sep) + [b]
    decreases |a|
  {
    if sep in a {
      var i := IndexOf(a, sep);
      SplitAppend(a[i + 1..], sep, b);
      SplitAppendStep(a, sep, b, i);
    } else {
      SplitAppendLast(a, sep, b);
    }
  }

  /** The separator appended to a separator-free `a` is the first one. */
  lemma SplitAppendLast(a: string, sep: char, b: string)
    requires sep !in a && sep !in b
    ensures Split(a + [sep] + b, sep) == [a, b]
  {
    var s := a + [sep] + b;
    assert s[..|a|] == a && s[|a| + 1..] == b;
    SplitAt(s, sep, |a|);
    assert Split(b, sep) == [b];
  }

  /** With a separator in `a`, the split of `a + [sep] + b` starts like the split of `a`. */
  lemma SplitAppendStep(a: string, sep: char, b: string, i: nat)
    requires sep in a && i == IndexOf(a, sep)
    requires Split(a[i + 1..] + [sep] + b, sep) == Split(a[i + 1..], sep) + [b]
    ensures Split(a + [sep] + b, sep) == Split(a, sep) + [b]
  {
    var s := a + [sep] + b;
    var head := [a[..i]];
    var rest := Split(a[i + 1..], sep);
    assert Split(s, sep) == head + (rest + [b]) by {
      assert s[..i] == a[..i];
      assert s[i + 1..] == a[i + 1..] + [sep] + b;
      SplitAt(s, sep, i);
    }
    assert Split(a, sep) == head + rest by {
      SplitAt(a, sep, i);
    }
    assert head + (rest + [b]) == (head + rest) + [b];
  }

  lemma FirstSegmentNonEmpty(p: string)
    requires PlainRelative(p)
    ensures p != [] && p[0] != '/'
  {
    var segs := Split(p, '/');
    assert PlainSegment(segs[0]);
    if '/' in p {
      var i := IndexOf(p, '/');
      assert segs[0] == p[..i];
      assert i != 0;
    }
  }

  /** Joining a plain relative directory with a plain name just inserts one `/`. */
  lemma PathJoinPlain(dir: string, name: string)
    requires PlainRelative(dir) && PlainSegment(name)
    ensures PathJoin(dir, name) == dir + "/" + name
  {
    var joined := dir + "/" + name;
    assert dir != [] by {
      assert PlainSegment(Split(dir, '/')[0]);
    }
    assert Join([dir, name], "/") == joined;
    SplitAppend(dir, '/', name);
    assert dir + ['/'] + name == joined;
    var segs := Split(joined, '/');
    assert segs == Split(dir, '/') + [name];
    ResolvePlain(segs, true);
    JoinSplit(joined, '/');
    assert joined[0] != '/' by {
      FirstSegmentNonEmpty(dir);
    }
    assert joined[|joined| - 1] == name[|name| - 1];
    assert name[|name| - 1] != '/';
  }

  /** A Windows-style directory is a single POSIX segment, so the name is glued on with `/`. */
  lemma WindowsDirectoryGetsSlash()
    ensures PathJoin("D:\\pdfScanner", "ali") == "D:\\pdfScanner/ali"
  {
    assert '/' !in "D:\\pdfScanner";
    assert Split("D:\\pdfScanner", '/') == ["D:\\pdfScanner"];
    PathJoinPlain("D:\\pdfScanner", "ali");
  }
}
