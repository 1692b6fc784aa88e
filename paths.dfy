/** `pathlib` as the pipeline uses it: the final component's suffix
    (`PurePath.suffix`), `relative_to`, and `str()` of a path. */
module Paths {
  import opened Wrappers
  import opened Text

  /** A resolved absolute path, as its components below the root `/`. */
  type Path = seq<string>

  /** `PurePath.name`: the final component, `""` for the root. */
  function Name(p: Path): string {
    if p == [] then "" else p[|p| - 1]
  }

  /** `str.rfind(c)`: the index of the last `c`, or -1. */
  function RFind(s: string, c: char): (i: int)
    ensures -1 <= i < |s|
    ensures i >= 0 ==> s[i] == c
    ensures forall j :: i < j < |s| ==> s[j] != c
  {
    if s == [] then -1
    else if s[|s| - 1] == c then |s| - 1
    else RFind(s[..|s| - 1], c)
  }

  /** `PurePath.suffix` of a final component: the text from its last dot, when
      that dot is neither the first nor the last character; otherwise `""`. */
  function Suffix(name: string): (r: string)
    ensures r != "" ==> 2 <= |r| < |name| && r == name[|name| - |r|..]
    ensures r != "" ==> r[0] == '.' && '.' !in r[1..]
    ensures '.' !in name ==> r == ""
    ensures |name| > 0 && name[|name| - 1] == '.' ==> r == ""
  {
    var i := RFind(name, '.');
    if 0 < i < |name| - 1 then name[i..] else ""
  }

  /** A name made of a non-empty stem and a dotted extension with no further
      dot has that extension as its suffix (and, by the contract of `Suffix`,
      every name with a suffix is made that way). */
  lemma SuffixOfStemAndExtension(stem: string, ext: string)
    requires stem != "" && |ext| >= 2 && ext[0] == '.' && '.' !in ext[1..]
    ensures Suffix(stem + ext) == ext
  {
    var name := stem + ext;
    var i := RFind(name, '.');
    assert name[|stem|] == '.';
    forall j | |stem| < j < |name| ensures name[j] != '.' {
      assert name[j] == ext[1..][j - |stem| - 1];
    }
    assert i == |stem|;
    assert name[i..] == ext;
  }

  lemma {:induction false} RFindIgnoresCase(a: string, b: string)
    requires Lower(a) == Lower(b)
    ensures RFind(a, '.') == RFind(b, '.')
  {
    if a != [] {
      LowerAt(a, |a| - 1);
      LowerAt(b, |b| - 1);
      assert LowerChar(a[|a| - 1]) == LowerChar(b[|b| - 1]);
      LowerSlice(a, 0, |a| - 1);
      LowerSlice(b, 0, |b| - 1);
      assert Lower(a[..|a| - 1]) == Lower(b[..|b| - 1]);
      RFindIgnoresCase(a[..|a| - 1], b[..|b| - 1]);
    }
  }

  /** The suffix test is case-insensitive: names that agree after lower-casing
      have suffixes that agree after lower-casing. */
  lemma SuffixIgnoresCase(a: string, b: string)
    requires Lower(a) == Lower(b)
    ensures Lower(Suffix(a)) == Lower(Suffix(b))
  {
    RFindIgnoresCase(a, b);
    var i := RFind(a, '.');
    if 0 < i < |a| - 1 {
      LowerSlice(a, i, |a|);
      LowerSlice(b, i, |b|);
      assert a[i..|a|] == a[i..] && b[i..|b|] == b[i..];
    }
  }

  /** `path.relative_to(base)`: the components after `base`, or the
      `ValueError` as `None` when `base` is not a prefix of `path`. */
  function RelativeTo(path: Path, base: Path): (r: Option<Path>)
    ensures r.Some? <==> |base| <= |path| && path[..|base|] == base
    ensures r.Some? ==> base + r.value == path
  {
    if |base| <= |path| && path[..|base|] == base then Some(path[|base|..]) else None
  }

  /** `str()` of an absolute path. */
  function AbsText(p: Path): string {
    if p == [] then "/" else "/" + Join(p, '/')
  }

  /** `str()` of a relative path; the empty one prints as `.`. */
  function RelText(p: Path): string {
    if p == [] then "." else Join(p, '/')
  }

  /** The text of a path below `base` is the text of `base`, a slash and the
      text of the relative part. */
  lemma AbsTextUnder(base: Path, rel: Path)
    requires rel != []
    ensures base == [] ==> AbsText(base + rel) == "/" + RelText(rel)
    ensures base != [] ==> AbsText(base + rel) == AbsText(base) + "/" + RelText(rel)
  {
    if base != [] {
      JoinAppend(base, rel, '/');
    } else {
      assert base + rel == rel;
    }
  }
}
