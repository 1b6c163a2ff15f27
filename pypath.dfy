/**
  POSIX path handling as Python's `os.path` does it (`splitext`, two-argument `join`), and the
  file system reduced to the set of paths that exist when the program asks.
*/
module PyPath {

  /** Index of the last `c` in `s`, or -1 (`str.rfind`). */
  function LastIndex(s: string, c: char): (k: int)
    ensures -1 <= k < |s|
    ensures k >= 0 ==> s[k] == c
    ensures forall j | k < j < |s| :: s[j] != c
  {
    if s == [] then -1
    else if s[|s| - 1] == c then |s| - 1
    else LastIndex(s[..|s| - 1], c)
  }

  predicate AllDots(s: string)
  {
    forall i | 0 <= i < |s| :: s[i] == '.'
  }

  /** Where `os.path.splitext(p)` cuts: at the last dot of the last path component, unless
      that component is nothing but dots up to it (so `.bashrc` has no extension); `|p|` when
      there is no extension. */
  function ExtStart(p: string): (k: nat)
    ensures k <= |p|
    ensures k < |p| ==> p[k] == '.'
    ensures forall i | k < i < |p| :: p[i] != '/' && p[i] != '.'
  {
    var sep := LastIndex(p, '/');
    var dot := LastIndex(p, '.');
    if dot > sep && !AllDots(p[sep + 1..dot]) then dot else |p|
  }

  /** `os.path.splitext(p)`: (root, extension), which concatenate back to `p`. */
  function SplitExt(p: string): (r: (string, string))
    ensures r.0 + r.1 == p
  {
    var k := ExtStart(p);
    (p[..k], p[k..])
  }

  /** `os.path.join(a, b)` */
  function Join(a: string, b: string): (r: string)
    ensures '/' !in b && a != [] && a[|a| - 1] != '/' ==> r == a + "/" + b
  {
    if b != [] && b[0] == '/' then b
    else if a == [] || a[|a| - 1] == '/' then a + b
    else a + "/" + b
  }
}
