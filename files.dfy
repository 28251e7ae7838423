/** Uploaded file objects and the two `pathlib.PurePosixPath` accessors the
    upload pipeline uses: `.name` and `.stem`. */
module Files {
  import opened Wrappers

  newtype byte = x: int | 0 <= x < 256

  /** A file-like object: its optional `name` attribute and the bytes `read()` returns. */
  datatype FileObj = FileObj(name: Option<string>, content: seq<byte>)

  /** The path segment after the last `/` (the whole string when there is none). */
  function TrailingSegment(p: string): (r: string)
    ensures |r| <= |p| && r == p[|p| - |r|..]
    ensures '/' !in r
    ensures |r| < |p| ==> p[|p| - |r| - 1] == '/'
  {
    if p == [] || p[|p| - 1] == '/' then [] else TrailingSegment(p[..|p| - 1]) + [p[|p| - 1]]
  }

  /** `PurePosixPath(p).name`: the last component, where empty components and
      `.` components do not count; empty when there is none. */
  function BaseName(p: string): (r: string)
    ensures '/' !in r && r != "."
    ensures '/' !in p && p != "." ==> r == p
  {
    if p == [] then []
    else if p[|p| - 1] == '/' then BaseName(p[..|p| - 1])
    else if TrailingSegment(p) == "." then BaseName(p[..|p| - 1])
    else TrailingSegment(p)
  }

  /** `s.rfind(c)`. */
  function LastIndexOf(s: string, c: char): (r: Option<nat>)
    ensures r.Some? ==> r.value < |s| && s[r.value] == c
                        && forall j :: r.value < j < |s| ==> s[j] != c
    ensures r.None? ==> c !in s
  {
    if s == [] then None
    else if s[|s| - 1] == c then Some(|s| - 1)
    else LastIndexOf(s[..|s| - 1], c)
  }

  /** `PurePosixPath(name).stem` for a name without `/`: the name without its
      last suffix, where a suffix is a final `.xyz` that neither starts the
      name nor is a lone trailing dot. */
  function Stem(name: string): string
  {
    match LastIndexOf(name, '.')
    case Some(i) => if 0 < i < |name| - 1 then name[..i] else name
    case None => name
  }

  /** The stem is the name less a suffix `.x…` holding no further dot, or the
      whole name when it has no such suffix. */
  lemma StemSplitsSuffix(name: string)
    ensures var stem := Stem(name);
            |stem| <= |name| && stem == name[..|stem|]
            && (stem != name ==> 0 < |stem| && |name| - |stem| >= 2 && name[|stem|] == '.'
                                 && '.' !in name[|stem| + 1..])
    ensures (forall i :: 0 < i < |name| - 1 ==> name[i] != '.') ==> Stem(name) == name
    ensures forall i :: (0 < i < |name| - 1 && name[i] == '.' && '.' !in name[i + 1..])
                          ==> Stem(name) == name[..i]
  {
    forall i | 0 < i < |name| - 1 && name[i] == '.' && '.' !in name[i + 1..]
      ensures Stem(name) == name[..i]
    {
      forall k | i < k < |name| ensures name[k] != '.' {
        assert name[k] == name[i + 1..][k - i - 1];
      }
      assert LastIndexOf(name, '.') == Some(i);
    }
    match LastIndexOf(name, '.')
    case Some(i) =>
      if 0 < i < |name| - 1 {
        var rest := name[i + 1..];
        assert forall j :: 0 <= j < |rest| ==> rest[j] == name[i + 1 + j];
      }
    case None =>
  }

  /** `PurePosixPath(p).name` reads the last real component: a trailing `/`
      or `/.` is skipped, and after the last `/` a proper component is the
      answer. It never holds `/` and is never `.`. */
  lemma BaseNameComponents(p: string, q: string, s: string)
    ensures '/' !in BaseName(p) && BaseName(p) != "."
    ensures '/' !in p && p != "." ==> BaseName(p) == p
    ensures BaseName(p + "/") == BaseName(p)
    ensures BaseName(p + "/.") == BaseName(p)
    ensures '/' !in s && s != "" && s != "." ==> BaseName(q + "/" + s) == s
  {
    assert (p + "/")[..|p|] == p;
    var d := p + "/.";
    assert d[..|d| - 1] == p + "/";
    assert TrailingSegment(d) == TrailingSegment(p + "/") + ['.'];
    if '/' !in s && s != "" && s != "." {
      var x := q + "/" + s;
      var r := TrailingSegment(x);
      assert x[|x| - 1] == s[|s| - 1];
      assert x[|q|] == '/';
      forall k | |x| - |r| <= k < |x| ensures x[k] != '/' {
        assert x[k] == r[k - (|x| - |r|)];
      }
      forall k | |q| < k < |x| ensures x[k] != '/' {
        assert x[k] == s[k - |q| - 1];
      }
      assert |r| == |s|;
      assert r == x[|q| + 1..] == s;
    }
  }
}
