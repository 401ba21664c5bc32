/** `os.path.basename` and `pathlib.PurePath.suffix`, for POSIX paths. */
module PyPath {

  /** `s.rfind(c)`: the index of the last `c` in `s`, or -1. */
  function RFind(s: string, c: char): (i: int)
    ensures -1 <= i < |s|
    ensures 0 <= i ==> s[i] == c
    ensures forall j :: i < j < |s| ==> s[j] != c
    decreases |s|
  {
    if s == [] then -1 else if s[|s| - 1] == c then |s| - 1 else RFind(s[..|s| - 1], c)
  }

  /** `os.path.basename(path)`: everything after the last '/'. */
  function Basename(path: string): (r: string)
    ensures '/' !in r
    ensures |r| <= |path| && r == path[|path| - |r|..]
  {
    var i := RFind(path, '/');
    AfterLast(path, '/', i);
    path[i + 1..]
  }

  /** The base name is the whole path, or it starts right after a '/' (the last one, by Basename's contract). */
  lemma {:induction false} BasenameIsTail(path: string)
    ensures var r := Basename(path); |r| == |path| || path[|path| - |r| - 1] == '/'
  {
  }

  /** No `c` follows index `i` of `s` (an index from `RFind`). */
  lemma {:induction false} AfterLast(s: string, c: char, i: int)
    requires -1 <= i < |s|
    requires forall j :: i < j < |s| ==> s[j] != c
    ensures c !in s[i + 1..]
  {
    var r := s[i + 1..];
    forall k | 0 <= k < |r| ensures r[k] != c {
      assert r[k] == s[i + 1 + k];
    }
  }

  /** `pathlib.Path(name).suffix` for a name with no '/': from the last '.' on, provided that dot is neither the first nor the last character. */
  function Suffix(name: string): string {
    var i := RFind(name, '.');
    if 0 < i < |name| - 1 then name[i..] else []
  }

  /** A file is taken for a PDF exactly when its name ends in ".pdf", in that case, after at least one other character. */
  lemma {:induction false} SuffixIsPdf(name: string)
    ensures Suffix(name) == ".pdf" <==> |name| > 4 && name[|name| - 4..] == ".pdf"
  {
    var i := RFind(name, '.');
    if |name| > 4 && name[|name| - 4..] == ".pdf" {
      var n := |name|;
      assert name[n - 4] == '.' && name[n - 3] == 'p' && name[n - 2] == 'd' && name[n - 1] == 'f' by {
        assert name[n - 4..][0] == '.' && name[n - 4..][1] == 'p' && name[n - 4..][2] == 'd' && name[n - 4..][3] == 'f';
      }
      assert i == n - 4;
    }
    if Suffix(name) == ".pdf" {
      assert 0 < i < |name| - 1 && name[i..] == ".pdf";
      assert |name[i..]| == 4;
    }
  }
}
