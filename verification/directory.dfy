/**
 * One directory as seen by the two tabs: a finite map from entry name to
 * entry, plus the order in which `os.listdir` reported the names, and the
 * POSIX path helpers `os.path.splitext` and `os.path.join`.
 */
module Directory {
  import opened Sequences

  /** A directory entry; `inode` stands for the object (and so the content) a name refers to. */
  datatype Entry = Entry(isFile: bool, inode: nat)

  type Dir = map<string, Entry>

  /** `names` is a listing of `dir`: every entry exactly once, in some order. */
  predicate IsListing(names: seq<string>, dir: Dir) {
    && Distinct(names)
    && (forall i :: 0 <= i < |names| ==> names[i] in dir)
    && (forall k :: k in dir ==> k in names)
  }

  /** `os.path.isfile`: false for a name that does not exist. */
  predicate IsRegularFile(dir: Dir, name: string) {
    name in dir && dir[name].isFile
  }

  /** Index of the last occurrence of `c` in `s`, or -1. */
  function LastIndexOf(s: string, c: char): (k: int)
    ensures -1 <= k < |s|
    ensures k >= 0 ==> s[k] == c
    ensures forall i :: k < i < |s| ==> s[i] != c
  {
    if |s| == 0 then -1
    else if s[|s| - 1] == c then |s| - 1
    else LastIndexOf(s[..|s| - 1], c)
  }

  /**
   * `posixpath.splitext`: the extension starts at the last '.' after the last
   * '/', provided some character other than '.' precedes it in the final
   * component (leading dots do not start an extension).
   */
  function SplitExt(p: string): (r: (string, string))
    ensures r.0 + r.1 == p
    ensures r.1 == "" || (r.1[0] == '.' && forall i :: 1 <= i < |r.1| ==> r.1[i] != '.' && r.1[i] != '/')
  {
    var sepIndex := LastIndexOf(p, '/');
    var dotIndex := LastIndexOf(p, '.');
    if dotIndex > sepIndex && exists i :: sepIndex < i < dotIndex && p[i] != '.' then
      assert p[..dotIndex] + p[dotIndex..] == p;
      (p[..dotIndex], p[dotIndex..])
    else (p, "")
  }

  function Ext(p: string): string { SplitExt(p).1 }

  /** `posixpath.join(directory, name)`. */
  function Join(directory: string, name: string): string {
    if |name| > 0 && name[0] == '/' then name
    else if directory == "" || directory[|directory| - 1] == '/' then directory + name
    else directory + "/" + name
  }
}
