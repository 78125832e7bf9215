/**
 * The filesystem and path vocabulary shared by the converter, the tree walker
 * and the format probe.
 *
 * The filesystem is a map from normalised path strings (components separated by
 * '/', no trailing separator) to the kind of entry stored there.  A directory's
 * listing is the set of keys that are its direct children, so an empty
 * directory is a directory key with no child keys.
 */
module FileSystem {

  datatype Kind = File | Dir

  type FS = map<string, Kind>

  predicate IsDir(fs: FS, p: string) {
    p in fs && fs[p] == Dir
  }

  predicate IsFile(fs: FS, p: string) {
    p in fs && fs[p] == File
  }

  /** `q` names an entry directly inside directory `d`. */
  predicate IsChild(d: string, q: string) {
    |q| > |d| + 1 && q[..|d|] == d && q[|d|] == '/' && '/' !in q[|d| + 1..]
  }

  /** `os.listdir(d)` would return a non-empty list. */
  predicate HasChildren(fs: FS, d: string) {
    exists q | q in fs :: IsChild(d, q)
  }

  /** `os.path.join(d, name)` for a single component `name`. */
  function Join(d: string, name: string): (p: string)
    ensures '/' !in name && name != "" ==> IsChild(d, p)
    ensures |p| == |d| + 1 + |name| && p[|d| + 1..] == name
  {
    d + "/" + name
  }

  // ---------------------------------------------------------------------------
  // Characters and strings

  function LowerChar(c: char): char {
    if 'A' <= c <= 'Z' then (c as int + 32) as char else c
  }

  function UpperChar(c: char): char {
    if 'a' <= c <= 'z' then (c as int - 32) as char else c
  }

  /** Python's `str.lower()`, restricted to ASCII letters. */
  function Lower(s: string): (r: string)
    ensures |r| == |s| && forall i :: 0 <= i < |s| ==> r[i] == LowerChar(s[i])
  {
    seq(|s|, i requires 0 <= i < |s| => LowerChar(s[i]))
  }

  /** Python's `str.upper()`, restricted to ASCII letters. */
  function Upper(s: string): (r: string)
    ensures |r| == |s| && forall i :: 0 <= i < |s| ==> r[i] == UpperChar(s[i])
  {
    seq(|s|, i requires 0 <= i < |s| => UpperChar(s[i]))
  }

  predicate EndsWith(s: string, suffix: string) {
    |suffix| <= |s| && s[|s| - |suffix|..] == suffix
  }

  /** Python's `t in s` for strings. */
  predicate Contains(s: string, t: string) {
    exists i :: 0 <= i <= |s| - |t| && OccursAt(s, t, i)
  }

  predicate OccursAt(s: string, t: string, i: int) {
    0 <= i && i + |t| <= |s| && s[i..i + |t|] == t
  }

  /** Python's `s.rfind(c)`: the last index holding `c`, or -1. */
  function RFind(s: string, c: char): (r: int)
    ensures -1 <= r < |s|
    ensures r >= 0 ==> s[r] == c
    ensures forall j :: r < j < |s| ==> s[j] != c
  {
    if s == [] then -1
    else if s[|s| - 1] == c then |s| - 1
    else RFind(s[..|s| - 1], c)
  }

  /** `os.path.basename(p)`: what follows the last separator. */
  function BaseName(p: string): (r: string)
    ensures '/' !in r
    ensures EndsWith(p, r)
  {
    if p == [] || p[|p| - 1] == '/' then [] else BaseName(p[..|p| - 1]) + [p[|p| - 1]]
  }

  /**
   * `os.path.splitext(name)[0]`: the name without its last extension.  A dot
   * counts as an extension separator only when some character other than a
   * dot comes before it, so ".pub" has no extension.
   */
  function Stem(name: string): (r: string)
    ensures |r| <= |name| && name[..|r|] == r
  {
    var dot := RFind(name, '.');
    if dot > 0 && exists j :: 0 <= j < dot && name[j] != '.' then name[..dot] else name
  }

  /** `pathlib.PurePath(name).suffix.lower()` for a single component `name`. */
  function LowerSuffix(name: string): (r: string)
    ensures r == "" || (r[0] == '.' && EndsWith(Lower(name), r))
  {
    var i := RFind(name, '.');
    if 0 < i < |name| - 1 then Lower(name[i..]) else ""
  }

  /** Python's `name.lower().endswith('.pub')`. */
  predicate IsPubName(name: string) {
    EndsWith(Lower(name), ".pub")
  }

  function DigitChar(d: nat): char
    requires d < 10
  {
    "0123456789"[d]
  }

  /** Python's `str(n)` for a natural number. */
  function NatToString(n: nat): (r: string)
    ensures |r| >= 1
    ensures forall i :: 0 <= i < |r| ==> '0' <= r[i] <= '9'
  {
    if n < 10 then [DigitChar(n)] else NatToString(n / 10) + [DigitChar(n % 10)]
  }
}
