/**
 * The pieces of Python's `str` and `os.path` (POSIX flavour) that the image
 * stripper relies on: `rfind`, `basename`, `splitext` and `join`.
 */
module PyPath {

  /** Index of the last occurrence of `c` in `s`, or -1 when there is none (`str.rfind`). */
  function RFind(s: string, c: char): (i: int)
    ensures -1 <= i < |s|
    ensures 0 <= i ==> s[i] == c
    ensures forall k :: i < k < |s| ==> s[k] != c
  {
    if s == [] then -1
    else if s[|s| - 1] == c then |s| - 1
    else RFind(s[..|s| - 1], c)
  }

  /** RFind is pinned down by its contract: an occurrence with none after it is the last one. */
  lemma RFindUnique(s: string, c: char, i: int)
    requires 0 <= i < |s| && s[i] == c
    requires forall k :: i < k < |s| ==> s[k] != c
    ensures RFind(s, c) == i
  {
  }

  /** `os.path.basename`: everything after the last '/'. */
  function Basename(p: string): string {
    p[RFind(p, '/') + 1..]
  }

  /** The base name is the longest suffix of the path without a '/'. */
  lemma BasenameSpec(p: string)
    ensures var b := Basename(p);
            && (forall k :: 0 <= k < |b| ==> b[k] != '/')
            && |b| <= |p| && b == p[|p| - |b|..]
            && (|b| < |p| ==> p[|p| - |b| - 1] == '/')
  {
    var i := RFind(p, '/');
    assert forall k :: 0 <= k < |p| - i - 1 ==> Basename(p)[k] == p[i + 1 + k];
  }

  /** True when every character of `s` is a dot. */
  predicate AllDots(s: string) {
    forall i :: 0 <= i < |s| ==> s[i] == '.'
  }

  /**
   * `os.path.splitext(p)[0]`: `p` without its last extension. The extension is
   * the text from the last '.' of the last path component on, except that dots
   * leading that component do not start an extension (".bashrc" has none).
   */
  function SplitExtRoot(p: string): (root: string)
    ensures root <= p
  {
    p[..ExtensionStart(p)]
  }

  /** Where the extension that splitext removes begins; |p| when there is none. */
  function ExtensionStart(p: string): (i: nat)
    ensures i <= |p|
  {
    var sep := RFind(p, '/');
    var dot := RFind(p, '.');
    if dot > sep && !AllDots(p[sep + 1..dot]) then dot else |p|
  }

  /**
   * What splitext removes is either nothing, or a '.' followed by text with no
   * '.' or '/', preceded in its path component by something other than dots;
   * it removes nothing exactly when no such extension exists.
   */
  lemma SplitExtRootSpec(p: string)
    ensures var root := SplitExtRoot(p);
            && root <= p
            && (root != p ==>
                  && p[|root|] == '.'
                  && (forall k :: |root| < k < |p| ==> p[k] != '.' && p[k] != '/')
                  && RFind(p, '/') < |root|
                  && !AllDots(p[RFind(p, '/') + 1..|root|]))
            && (root == p ==>
                  RFind(p, '.') <= RFind(p, '/') || AllDots(p[RFind(p, '/') + 1..RFind(p, '.')]))
  {
    var sep := RFind(p, '/');
    var dot := RFind(p, '.');
    var root := SplitExtRoot(p);
    if dot > sep && !AllDots(p[sep + 1..dot]) {
      assert ExtensionStart(p) == dot;
      assert |root| == dot && root != p;
      assert p[|root|] == '.';
      assert forall k :: |root| < k < |p| ==> p[k] != '.' && p[k] != '/';
    } else {
      assert ExtensionStart(p) == |p|;
      assert root == p;
    }
  }

  /**
   * `os.path.join(dir, name)` for two arguments: an absolute `name` replaces
   * `dir`; otherwise a '/' is inserted unless `dir` is empty or already ends in one.
   */
  function Join(dir: string, name: string): (r: string)
    ensures |name| > 0 && name[0] == '/' ==> r == name
    ensures !(|name| > 0 && name[0] == '/') ==>
              && dir <= r
              && |r| - |name| - |dir| in {0, 1}
              && r[|r| - |name|..] == name
              && (|r| - |name| - |dir| == 1 <==> dir != [] && dir[|dir| - 1] != '/')
              && (|r| - |name| - |dir| == 1 ==> r[|dir|] == '/')
  {
    if |name| > 0 && name[0] == '/' then name
    else if dir == [] || dir[|dir| - 1] == '/' then dir + name
    else dir + "/" + name
  }

  /** Joining a relative name onto a folder without a trailing '/' inserts exactly one '/'. */
  lemma JoinRelative(dir: string, name: string)
    requires |dir| > 0 && dir[|dir| - 1] != '/'
    requires |name| == 0 || name[0] != '/'
    ensures Join(dir, name) == dir + "/" + name
    ensures Join(dir, name)[0] == dir[0]
  {
  }

  /** The base name of a path ending in "/" + `name`, where `name` has no '/', is `name`. */
  lemma BasenameAfterSlash(dir: string, name: string)
    requires forall k :: 0 <= k < |name| ==> name[k] != '/'
    ensures Basename(dir + "/" + name) == name
  {
    var p := dir + "/" + name;
    assert forall k :: |dir| < k < |p| ==> p[k] == name[k - |dir| - 1];
    RFindUnique(p, '/', |dir|);
    assert p[|dir| + 1..] == name;
  }
}
