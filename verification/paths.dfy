/** `System.IO.Path` as it behaves on Linux, where '/' is the only directory
    separator and a rooted path is one that starts with it. */
module Paths {
  import opened Wrappers

  const Separator: char := '/'

  /** The position of the last character of `s` that is in `cs`, if any. */
  function LastIndexOfAny(s: string, cs: set<char>): (r: Option<nat>)
    ensures r.Some? ==> r.value < |s| && s[r.value] in cs
    ensures r.Some? ==> forall j :: r.value < j < |s| ==> s[j] !in cs
    ensures r.None? ==> forall j :: 0 <= j < |s| ==> s[j] !in cs
  {
    if s == [] then None
    else if s[|s| - 1] in cs then Some(|s| - 1)
    else LastIndexOfAny(s[..|s| - 1], cs)
  }

  /** `Path.GetFileName`: what follows the last separator. */
  function GetFileName(path: string): (name: string)
    ensures Separator !in name
    ensures |name| <= |path| && name == path[|path| - |name|..]
    ensures |name| < |path| ==> path[|path| - |name| - 1] == Separator
  {
    match LastIndexOfAny(path, {Separator})
    case None => path
    case Some(i) => path[i + 1..]
  }

  /** `k` is where the extension of `path` starts: a '.' that is not the last
      character and after which there is neither a '.' nor a separator. */
  predicate ExtensionStart(path: string, k: int) {
    && 0 <= k < |path| - 1
    && path[k] == '.'
    && forall j :: k < j < |path| ==> path[j] != '.' && path[j] != Separator
  }

  /** `Path.GetExtension`: scanning back from the end, the first '.' found
      before any separator starts the extension, unless it is the last
      character. */
  function GetExtension(path: string): (ext: string)
    ensures ext != [] ==> ExtensionStart(path, |path| - |ext|) && ext == path[|path| - |ext|..]
    ensures ext == [] ==> forall k :: !ExtensionStart(path, k)
  {
    match LastIndexOfAny(path, {'.', Separator})
    case None => []
    case Some(i) =>
      if path[i] == '.' && i != |path| - 1 then path[i..] else []
  }

  /** `Path.IsPathRooted`. */
  predicate IsPathRooted(path: string) {
    |path| > 0 && path[0] == Separator
  }

  /** `Path.Combine` of two non-null parts. */
  function Combine(first: string, second: string): (r: string)
    ensures !IsPathRooted(second) && first != [] && second != [] && first[|first| - 1] == Separator ==>
              r == first + second
    ensures !IsPathRooted(second) && first != [] && second != [] && first[|first| - 1] != Separator ==>
              r == first + [Separator] + second
    ensures IsPathRooted(second) ==> r == second
    ensures second == [] ==> r == first
    ensures |second| <= |r| && r[|r| - |second|..] == second
  {
    if second == [] then first
    else if first == [] then second
    else if IsPathRooted(second) then second
    else if first[|first| - 1] == Separator then first + second
    else first + [Separator] + second
  }
}
