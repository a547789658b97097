/**
 * The POSIX path helpers the converter relies on: `os.path.basename`,
 * `os.path.splitext` and `os.path.join` (two arguments), with `/` as the
 * separator and `.` as the extension separator, as `posixpath` defines them.
 */
module PosixPath {

  /** Index of the last occurrence of c in s, or -1 (`str.rfind`). */
  function RFind(s: string, c: char): (r: int)
    ensures -1 <= r < |s|
    ensures r >= 0 ==> s[r] == c
    ensures forall i :: r < i < |s| ==> s[i] != c
    decreases |s|
  {
    if s == [] then -1
    else if s[|s| - 1] == c then |s| - 1
    else RFind(s[..|s| - 1], c)
  }

  /** `os.path.basename(p)`: everything after the last `/`. */
  function Basename(p: string): string {
    p[RFind(p, '/') + 1..]
  }

  /** The directory part `Basename` leaves behind: empty or ending in `/`. */
  function DirPart(p: string): string {
    p[..RFind(p, '/') + 1]
  }

  /**
   * `os.path.splitext(p)` as (root, ext): the extension starts at the last
   * `.` after the last `/`, unless that part of the name up to the dot is made
   * only of dots (a leading-dot name such as `.bashrc` has no extension).
   */
  function SplitExt(p: string): (string, string) {
    var sep := RFind(p, '/');
    var dot := RFind(p, '.');
    if dot > sep && exists i :: sep + 1 <= i < dot && p[i] != '.' then (p[..dot], p[dot..])
    else (p, "")
  }

  /** `os.path.join(a, b)` for one component b. */
  function Join(a: string, b: string): string {
    if |b| > 0 && b[0] == '/' then b
    else if a == [] || a[|a| - 1] == '/' then a + b
    else a + "/" + b
  }

  // ----- properties -----

  /** The basename holds no `/`, and the path is its directory part followed by it. */
  lemma BasenameShape(p: string)
    ensures '/' !in Basename(p)
    ensures DirPart(p) + Basename(p) == p
    ensures DirPart(p) == [] || DirPart(p)[|DirPart(p)| - 1] == '/'
  {
    var b := Basename(p);
    forall i | 0 <= i < |b| ensures b[i] != '/' {
      assert b[i] == p[RFind(p, '/') + 1 + i];
    }
  }

  /** A name with no `/` is its own basename. */
  lemma BasenameOfName(n: string)
    requires '/' !in n
    ensures Basename(n) == n
  {
    assert RFind(n, '/') == -1;
  }

  /** Joining a `/`-free, non-empty name onto a directory gives a path whose basename is that name. */
  lemma BasenameOfJoin(dir: string, name: string)
    requires name != [] && '/' !in name
    ensures Basename(Join(dir, name)) == name
  {
    var p := Join(dir, name);
    assert name[0] in name;
    var prefix := if dir == [] || dir[|dir| - 1] == '/' then dir else dir + "/";
    assert p == prefix + name;
    var r := RFind(p, '/');
    assert prefix == [] || p[|prefix| - 1] == '/';
    assert forall i :: |prefix| <= i < |p| ==> p[i] == name[i - |prefix|];
    assert r == |prefix| - 1;
  }

  /** splitext always cuts the path in two: root + ext == p. */
  lemma SplitExtConcat(p: string)
    ensures SplitExt(p).0 + SplitExt(p).1 == p
  {
  }

  /** A non-empty extension is a `.` followed by no `.` and no `/`. */
  lemma SplitExtExtension(p: string)
    ensures var ext := SplitExt(p).1;
      ext == [] || (ext[0] == '.' && '.' !in ext[1..] && '/' !in ext)
  {
    var sep := RFind(p, '/');
    var dot := RFind(p, '.');
    var ext := SplitExt(p).1;
    if ext != [] {
      assert ext == p[dot..];
      forall i | 1 <= i < |ext| ensures ext[i] != '.' && ext[i] != '/' {
        assert ext[i] == p[dot + i];
      }
      assert ext[1..] == p[dot + 1..];
    }
  }

  /**
   * On a `/`-free name, the extension is non-empty exactly when some `.`
   * follows a character other than `.`: leading dots never start an extension.
   */
  lemma SplitExtOfName(n: string)
    requires '/' !in n
    ensures SplitExt(n).1 != [] <==> exists i, j :: 0 <= i < j < |n| && n[i] != '.' && n[j] == '.'
  {
    var sep := RFind(n, '/');
    var dot := RFind(n, '.');
    assert sep == -1;
    if exists i, j :: 0 <= i < j < |n| && n[i] != '.' && n[j] == '.' {
      var i, j :| 0 <= i < j < |n| && n[i] != '.' && n[j] == '.';
      assert j <= dot;
      assert sep + 1 <= i < dot && n[i] != '.';
    }
  }
}
