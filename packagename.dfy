/**
 * getPackageName (eq.go:144-171): the package path of the function at a
 * program counter, read off the function's qualified name
 * ("path/to/pkg.Func", "path/to/pkg.(*Type).Method").  The path ends at the
 * first dot after the last slash.  The runtime lookup (FuncForPC and Name)
 * is not part of this model: the function takes the name it gives, or None
 * for a program counter that names no function.
 */
module PackageName {
  import opened Wrappers

  /** strings.LastIndexByte: the last position of c in s, or -1. */
  function LastIndexByte(s: string, c: char): (r: int)
    ensures -1 <= r < |s|
    ensures r >= 0 ==> s[r] == c
    ensures forall k :: r < k < |s| ==> s[k] != c
  {
    if s == [] then -1
    else if s[|s| - 1] == c then |s| - 1
    else LastIndexByte(s[..|s| - 1], c)
  }

  /** strings.IndexByte: the first position of c in s, or -1. */
  function IndexByte(s: string, c: char): (r: int)
    ensures -1 <= r < |s|
    ensures r >= 0 ==> s[r] == c
    ensures forall k :: 0 <= k < |s| && (r < 0 || k < r) ==> s[k] != c
  {
    if s == [] then -1
    else if s[0] == c then 0
    else
      var r := IndexByte(s[1..], c);
      assert forall k :: 1 <= k < |s| ==> s[k] == s[1..][k - 1];
      if r < 0 then -1 else r + 1
  }

  /**
   * getPackageName: "" without a function, or when no dot follows the last
   * slash; otherwise the name up to that dot.
   */
  function PackageName(funcName: Option<string>): (p: string)
    ensures funcName.None? ==> p == ""
    ensures funcName.Some? ==> |p| <= |funcName.value| && funcName.value[..|p|] == p
    ensures funcName.Some? && p != "" ==>
      |p| < |funcName.value| && funcName.value[|p|] == '.' &&
      forall k :: |p| <= k < |funcName.value| ==> funcName.value[k] != '/'
    ensures LastElementUndotted(p)
  {
    match funcName
    case None => ""
    case Some(name) =>
      var lastSlash := LastIndexByte(name, '/');
      var start := if lastSlash >= 0 then lastSlash + 1 else 0;
      var dot := IndexByte(name[start..], '.');
      if dot < 0 then ""
      else
        assert name[start + dot] == name[start..][dot];
        var p := name[..start + dot];
        forall i | start <= i < start + dot ensures name[i] != '.' {
          assert name[i] == name[start..][i - start];
        }
        forall k | 0 <= k < |p| && p[k] == '.' ensures exists j :: k < j < |p| && p[j] == '/' {
          assert k < start && 0 <= lastSlash < |p|;
          assert p[lastSlash] == '/';
        }
        p
  }

  /** No dot in the last element of the path. */
  predicate LastElementUndotted(path: string) {
    forall k :: 0 <= k < |path| && path[k] == '.' ==> exists j :: k < j < |path| && path[j] == '/'
  }

  /**
   * A qualified name splits back into its package path: the runtime's names
   * are the path, a dot and a symbol without slashes, and the path's last
   * element carries no dot (the runtime writes one as %2e).
   */
  lemma {:induction false} PackageOfQualifiedName(path: string, symbol: string)
    requires LastElementUndotted(path)
    requires forall k :: 0 <= k < |symbol| ==> symbol[k] != '/'
    ensures PackageName(Some(path + "." + symbol)) == path
  {
    var name := path + "." + symbol;
    var lastSlash := LastIndexByte(name, '/');
    var start := if lastSlash >= 0 then lastSlash + 1 else 0;
    LastSlashInPath(path, symbol);
    FirstDotAfterPath(path, symbol, start);
    var dot := IndexByte(name[start..], '.');
    assert start + dot == |path|;
    assert PackageName(Some(name)) == name[..start + dot];
    assert name[..|path|] == path;
  }

  /** The symbol has no slash, so the last slash of the name lies inside the path. */
  lemma LastSlashInPath(path: string, symbol: string)
    requires forall k :: 0 <= k < |symbol| ==> symbol[k] != '/'
    ensures LastIndexByte(path + "." + symbol, '/') < |path|
  {
    NoSlashAfterPath(path, symbol);
    LastIndexBefore(path + "." + symbol, '/', |path|);
  }

  /** After the path come a dot and the symbol, neither of them a slash. */
  lemma NoSlashAfterPath(path: string, symbol: string)
    requires forall k :: 0 <= k < |symbol| ==> symbol[k] != '/'
    ensures forall k :: |path| <= k < |path + "." + symbol| ==> (path + "." + symbol)[k] != '/'
  {
    var name := path + "." + symbol;
    assert name[|path|] == '.';
    forall k | |path| < k < |name| ensures name[k] != '/' {
      assert name[k] == symbol[k - |path| - 1];
    }
  }

  /** Without c from position a on, the last c comes before a. */
  lemma LastIndexBefore(s: string, c: char, a: nat)
    requires a <= |s| && forall k :: a <= k < |s| ==> s[k] != c
    ensures LastIndexByte(s, c) < a
  {
  }

  /** From just past the path's last slash, the first dot is the one after the path. */
  lemma FirstDotAfterPath(path: string, symbol: string, start: nat)
    requires LastElementUndotted(path) && start <= |path|
    requires forall k :: start <= k < |path + "." + symbol| ==> (path + "." + symbol)[k] != '/'
    ensures IndexByte((path + "." + symbol)[start..], '.') == |path| - start
  {
    var name := path + "." + symbol;
    forall k | start <= k < |path| ensures path[k] != '/' {
      assert name[k] == path[k];
    }
    UndottedTail(path, start);
    var tail := name[start..];
    assert tail[|path| - start] == '.';
    forall k | 0 <= k < |path| - start ensures tail[k] != '.' {
      assert tail[k] == path[start + k];
    }
  }

  /** Past the last slash of a path whose last element is undotted, there is no dot. */
  lemma UndottedTail(path: string, start: nat)
    requires LastElementUndotted(path) && start <= |path|
    requires forall k :: start <= k < |path| ==> path[k] != '/'
    ensures forall k :: start <= k < |path| ==> path[k] != '.'
  {
  }

  /** Without a dot after the last slash there is no package path. */
  lemma NoDotNoPackage(name: string)
    requires LastElementUndotted(name)
    ensures PackageName(Some(name)) == ""
  {
    var lastSlash := LastIndexByte(name, '/');
    var start := if lastSlash >= 0 then lastSlash + 1 else 0;
    forall k | 0 <= k < |name| - start ensures name[start..][k] != '.' {
      assert name[start..][k] == name[start + k];
    }
  }

  /** A function of package main. */
  lemma MainPackageExample()
    ensures PackageName(Some("main.main")) == "main"
  {
    PackageOfQualifiedName("main", "main");
    assert "main" + "." + "main" == "main.main";
  }

  /** A path whose last element, after its final slash, has no dot. */
  lemma UndottedLast(dir: string, last: string)
    requires '.' !in last
    ensures LastElementUndotted(dir + "/" + last)
  {
    var path := dir + "/" + last;
    assert path[|dir|] == '/';
    forall i | |dir| < i < |path| ensures path[i] != '.' {
      assert path[i] == last[i - |dir| - 1];
    }
  }

  /** A method with a pointer receiver: the dots of the receiver come after the package's dot. */
  lemma MethodPackageExample(name: string)
    requires name == "x.io/m" + "." + "(*T).F"
    ensures PackageName(Some(name)) == "x.io/m"
  {
    var path, symbol := "x.io" + "/" + "m", "(*T).F";
    assert '/' !in symbol;
    UndottedLast("x.io", "m");
    PackageOfQualifiedName(path, symbol);
    assert path == "x.io/m";
  }

  /** A package whose last path element holds a dot, which the runtime writes as %2e. */
  lemma EscapedDotExample(name: string)
    requires name == "gopkg.in/yaml%2ev3" + "." + "Unmarshal"
    ensures PackageName(Some(name)) == "gopkg.in/yaml%2ev3"
  {
    var path, symbol := "gopkg.in" + "/" + "yaml%2ev3", "Unmarshal";
    assert '/' !in symbol;
    assert '.' !in "yaml%2ev3";
    UndottedLast("gopkg.in", "yaml%2ev3");
    PackageOfQualifiedName(path, symbol);
    assert path == "gopkg.in/yaml%2ev3";
  }
}
