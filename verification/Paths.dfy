/** C strings and the path helpers: `memrchr`, `strlen`, `get_basename` and `get_dirname`. */
module Paths {
  import opened Wrappers

  /** The string that starts at s: its characters up to the first NUL. */
  function CStr(s: string): string
  {
    if s == "" || s[0] == '\0' then "" else [s[0]] + CStr(s[1..])
  }

  lemma {:induction false} CStrOfTerminated(s: string, rest: string)
    requires '\0' !in s
    ensures CStr(s + ['\0'] + rest) == s
  {
    var t := s + ['\0'] + rest;
    if s != "" {
      assert t[1..] == s[1..] + ['\0'] + rest;
      CStrOfTerminated(s[1..], rest);
    }
  }

  /** The last slash among the first n characters. */
  function LastSlash(s: string, n: nat): Option<nat>
    requires n <= |s|
  {
    if n == 0 then None
    else if s[n - 1] == '/' then Some(n - 1)
    else LastSlash(s, n - 1)
  }

  lemma {:induction false} LastSlashIs(s: string, n: nat, i: nat)
    requires n <= |s| && i < n && s[i] == '/'
    requires forall k :: i < k < n ==> s[k] != '/'
    ensures LastSlash(s, n) == Some(i)
  {
    if i < n - 1 {
      LastSlashIs(s, n - 1, i);
    }
  }

  lemma {:induction false} NoSlash(s: string, n: nat)
    requires n <= |s| && forall k :: 0 <= k < n ==> s[k] != '/'
    ensures LastSlash(s, n) == None
  {
    if n > 0 {
      NoSlash(s, n - 1);
    }
  }

  /** Where `get_basename` points: at the last slash that is not the final character, or at the start. */
  function BasenameStart(path: string): (i: nat)
    requires path != ""
    ensures i < |path|
  {
    match LastSlash(path, |path| - 1)
    case None => 0
    case Some(i) => SlashBelow(path, |path| - 1); i
  }

  lemma {:induction false} SlashBelow(s: string, n: nat)
    requires n <= |s|
    ensures LastSlash(s, n).Some? ==> LastSlash(s, n).value < n && s[LastSlash(s, n).value] == '/'
  {
    if n > 0 && s[n - 1] != '/' {
      SlashBelow(s, n - 1);
    }
  }

  function Dirname(path: string): string
    requires path != ""
  {
    path[..BasenameStart(path)]
  }

  // ---- names and paths ----

  predicate ValidName(n: string) { n != "" && '/' !in n && '\0' !in n }

  function Join(dir: string, name: string): string
  {
    if dir == "" then name else dir + "/" + name
  }

  /** The last slash of a joined path is the one before the name, with or without a trailing slash. */
  lemma BasenameOfJoin(dir: string, name: string, trailing: bool)
    requires ValidName(name)
    ensures var path := Join(dir, name) + (if trailing then "/" else "");
            BasenameStart(path) == |dir|
  {
    var path := Join(dir, name) + (if trailing then "/" else "");
    var n := |path| - 1;
    if dir == "" {
      forall k | 0 <= k < n ensures path[k] != '/'
      {
        assert path[k] == name[k] && name[k] in name;
      }
      NoSlash(path, n);
    } else {
      assert path[|dir|] == '/';
      forall k | |dir| < k < n ensures path[k] != '/'
      {
        assert path[k] == name[k - |dir| - 1] && name[k - |dir| - 1] in name;
      }
      LastSlashIs(path, n, |dir|);
    }
  }

  /** `get_dirname` undoes joining, and shortens. */
  lemma DirnameOfJoin(dir: string, name: string)
    requires ValidName(name)
    ensures Dirname(Join(dir, name)) == dir && |dir| < |Join(dir, name)|
  {
    BasenameOfJoin(dir, name, false);
    assert Join(dir, name) + "" == Join(dir, name);
  }

  // ---- the C functions ----

  /** `memrchr` for a slash. */
  method Memrchr(s: string, n: nat) returns (r: Option<nat>)
    requires n <= |s|
    ensures r == LastSlash(s, n)
  {
    var k: nat := n;
    while k != 0
      invariant k <= n && LastSlash(s, k) == LastSlash(s, n)
    {
      k := k - 1;
      if s[k] == '/' {
        return Some(k);
      }
    }
    r := None;
  }

  method GetBasename(path: string) returns (i: nat)
    requires path != ""
    ensures i == BasenameStart(path)
  {
    var r := Memrchr(path, |path| - 1);
    if r == None {
      i := 0;
    } else {
      i := r.value;
    }
  }

  /** The copy `get_dirname` fills. */
  method GetDirname(path: string) returns (d: string)
    requires path != ""
    ensures d == Dirname(path)
  {
    var i := GetBasename(path);
    d := path[..i];
  }
}
