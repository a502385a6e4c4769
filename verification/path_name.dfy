/**
 PHP's `dirname($path)` with one level and Unix separators: drop trailing
 slashes, drop the last component, drop the slashes before it. A path with
 no slash left has directory "."; a path of slashes only has directory "/";
 the empty path has directory "".
 */
module PathName {

  /** `s` without its trailing run of '/' characters. */
  function DropTrailingSlashes(s: string): (r: string)
    ensures |r| <= |s| && r == s[..|r|]
    ensures r == "" || r[|r| - 1] != '/'
    ensures forall i :: |r| <= i < |s| ==> s[i] == '/'
  {
    if s != "" && s[|s| - 1] == '/' then DropTrailingSlashes(s[..|s| - 1]) else s
  }

  /** `s` without its last path component (the trailing run of non-'/' characters). */
  function DropTrailingName(s: string): (r: string)
    ensures |r| <= |s| && r == s[..|r|]
    ensures r == "" || r[|r| - 1] == '/'
    ensures forall i :: |r| <= i < |s| ==> s[i] != '/'
  {
    if s != "" && s[|s| - 1] != '/' then DropTrailingName(s[..|s| - 1]) else s
  }

  function Dirname(path: string): (r: string)
    ensures r == "" <==> path == ""
    ensures r != "" && r != "." && r != "/" ==>
      && |r| < |path| && r == path[..|r|]
      && path[|r|] == '/' && r[|r| - 1] != '/'
  {
    if path == "" then ""
    else
      var a := DropTrailingSlashes(path);
      if a == "" then "/"
      else
        var b := DropTrailingName(a);
        if b == "" then "."
        else
          var c := DropTrailingSlashes(b);
          if c == "" then "/" else c
  }

  /** A name without separators lives in the current directory. */
  lemma DirnameOfBareName(name: string)
    requires name != "" && '/' !in name
    ensures Dirname(name) == "."
  {
    assert DropTrailingSlashes(name) == name;
  }

  /** The directory of `dir/name` is `dir`. */
  lemma DirnameOfFileInDirectory(dir: string, name: string)
    requires dir != "" && dir[|dir| - 1] != '/'
    requires name != "" && '/' !in name
    ensures Dirname(dir + "/" + name) == dir
  {
    var p := dir + "/" + name;
    assert p[|p| - 1] == name[|name| - 1];
    assert DropTrailingSlashes(p) == p;
    var b := DropTrailingName(p);
    assert p[|dir|] == '/';
    assert b == dir + "/";
    assert DropTrailingSlashes(b) == DropTrailingSlashes(dir) by {
      assert b[..|b| - 1] == dir;
    }
    assert DropTrailingSlashes(dir) == dir;
  }

  /** Trailing slashes do not change the directory, unless the path is nothing but slashes. */
  lemma DirnameIgnoresTrailingSlash(path: string)
    requires exists i :: 0 <= i < |path| && path[i] != '/'
    ensures Dirname(path + "/") == Dirname(path)
  {
    var p := path + "/";
    assert p[..|p| - 1] == path;
    assert DropTrailingSlashes(p) == DropTrailingSlashes(path);
    var i :| 0 <= i < |path| && path[i] != '/';
    assert DropTrailingSlashes(path) != "";
  }
}
