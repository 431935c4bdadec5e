/** The two properties of a POSIX `pathlib.PurePath` that the service reads
    from an uploaded file's name: its final component and its suffix. */
module PurePaths {
  import opened PyText

  /** `PurePosixPath(s).name`: the path is split on '/', empty and "."
      components are dropped (".." is kept), and the name is the last
      component left, or "" when none is. */
  function Name(s: string): (r: string)
    ensures '/' !in r && r != "."
    ensures |r| <= |s|
    decreases |s|
  {
    var k := RFind(s, '/');
    if k < 0 then (if s == "." then "" else s)
    else if s[k + 1..] == "" || s[k + 1..] == "." then Name(s[..k])
    else s[k + 1..]
  }

  /** A '/' followed by a proper name ends the path's name: directories in
      front of it do not matter. */
  lemma NameAfterDirectory(dir: string, name: string)
    requires '/' !in name && name != "" && name != "."
    ensures Name(dir + "/" + name) == name
  {
    var s := dir + "/" + name;
    assert s == (dir + "/") + name;
    assert '/' in dir + "/" by { assert (dir + "/")[|dir|] == '/'; }
    assert RFind(dir + "/", '/') == |dir|;
    assert s[|dir| + 1..] == name;
    assert RFind(s, '/') == |dir| by {
      assert s[|dir|] == '/';
    }
  }

  /** A trailing '/' does not change the name. */
  lemma NameIgnoresTrailingSlash(s: string)
    ensures Name(s + "/") == Name(s)
  {
    var t := s + "/";
    assert t[|s|] == '/';
    assert RFind(t, '/') == |s|;
    assert t[..|s|] == s;
  }

  /** A trailing "." component does not change the name. */
  lemma NameIgnoresDotComponent(s: string)
    ensures Name(s + "/.") == Name(s)
  {
    var t := s + "/.";
    assert t[|s|] == '/';
    assert RFind(t, '/') == |s|;
    assert t[..|s|] == s;
    assert t[|s| + 1..] == ".";
  }

  /** The path "." has no name. */
  lemma NameOfDot()
    ensures Name(".") == ""
  {
  }

  /** A directory part in front of a proper name leaves the suffix to the
      name: `photos/cat.png` has the suffix of `cat.png`. */
  lemma SuffixAfterDirectory(dir: string, name: string)
    requires '/' !in name && name != "" && name != "."
    ensures Suffix(dir + "/" + name) == Suffix(name)
  {
    NameAfterDirectory(dir, name);
    NameOfName(name);
  }

  /** A string that is already a proper name is its own name. */
  lemma NameOfName(s: string)
    requires '/' !in s && s != "."
    ensures Name(s) == s
  {
  }

  /** `PurePosixPath(s).suffix`: from the last '.' of the name to its end,
      or "" when the name has no '.', or its last '.' is its first or its
      last character. This is `pathlib` as of Python 3.13; from Python 3.14 a
      name ending in a single '.' has the suffix "." instead. */
  function Suffix(s: string): (r: string)
    ensures r == "" || (|r| >= 2 && r[0] == '.' && '.' !in r[1..] && '/' !in r)
    ensures r != "" ==> |r| < |Name(s)| && Name(s)[|Name(s)| - |r|..] == r
  {
    var name := Name(s);
    var i := RFind(name, '.');
    if 0 < i < |name| - 1 then name[i..] else ""
  }

  /** A suffix as Suffix can return it: a '.', then at least one character,
      none of them '.' or '/'. */
  predicate IsSuffixForm(ext: string) {
    |ext| >= 2 && ext[0] == '.' && '.' !in ext[1..] && '/' !in ext
  }

  /** A non-empty stem without '/' followed by a suffix-shaped extension has
      exactly that extension as its suffix, whatever dots the stem holds. */
  lemma SuffixOfStemAndExtension(stem: string, ext: string)
    requires stem != "" && '/' !in stem
    requires IsSuffixForm(ext)
    ensures Suffix(stem + ext) == ext
  {
    var s := stem + ext;
    assert '/' !in s by {
      forall k | 0 <= k < |s| ensures s[k] != '/' {
        if k < |stem| { assert s[k] == stem[k]; } else { assert s[k] == ext[k - |stem|]; }
      }
    }
    NameOfName(s);
    RFindAppend(stem, ext, '.');
    assert RFind(ext, '.') == 0 by {
      assert ext[0] == '.';
    }
    assert s[|stem|..] == ext;
  }

  /** A name whose only '.' is its first character (a hidden file such as
      ".bashrc"), or whose last character is a '.', has no suffix. */
  lemma NoSuffixAtEdgeDots(name: string)
    requires '/' !in name && name != "."
    requires (name != [] && name[0] == '.' && '.' !in name[1..])
             || (name != [] && name[|name| - 1] == '.')
    ensures Suffix(name) == ""
  {
    NameOfName(name);
    var i := RFind(name, '.');
    if name[|name| - 1] != '.' {
      assert i == 0;
    }
  }
}
