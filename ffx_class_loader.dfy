// FFXClassLoader: the class loader that extracts Force Field X's extension
// jars once, loads the application packages itself, and lists the Groovy
// scripts found in the jars. Modelled: the string rules and the run-once
// bookkeeping; reading jars, temporary files and class definition are not.
module FFXClassLoaders {
  import opened Wrappers
  import opened JavaLang

  /** applicationPackages, in declaration order. */
  const APPLICATION_PACKAGES: seq<string> := [
    "ffx", "javax.media.j3d", "javax.vecmath", "javax.media.opengl", "com.sun.j3d", "info.picocli",
    "org.codehaus.groovy", "org.apache.commons.configuration2", "org.apache.commons.io",
    "org.apache.commons.lang3", "org.apache.commons.math3", "org.jogamp", "org.openscience.cdk",
    "edu.rit.pj", "edu.uiowa.jopenmm", "org.bridj", "it.unimi.dsi", "jcuda", "simtk"]

  // ------------------------------------------------------------ listScripts

  /** A jar entry listScripts considers: under ffx, a Groovy source. */
  predicate IsScriptEntry(entry: string)
  {
    StartsWith(entry, "ffx") && EndsWith(entry, ".groovy")
  }

  /** The listed name: slashes become dots, and every "ffx.scripts." and
      ".groovy" is removed. */
  function ScriptName(entry: string): string
  {
    ReplaceAll(ReplaceAll(ReplaceChar(entry, '/', '.'), "ffx.scripts.", ""), ".groovy", "")
  }

  predicate IsTestName(name: string)
  {
    Contains(ToUpper(name), "TEST")
  }

  /** The names listScripts collects from the entries, in entry order: the
      test scripts when they are asked for, the others otherwise. */
  function ScriptsOf(entries: seq<string>, listTestScripts: bool): (r: seq<string>)
    ensures forall x :: x in r <==>
      exists e :: e in entries && IsScriptEntry(e) && x == ScriptName(e) && IsTestName(x) == listTestScripts
  {
    if entries == [] then []
    else
      var init := entries[..|entries| - 1];
      var e := entries[|entries| - 1];
      assert entries == init + [e];
      var rest := ScriptsOf(init, listTestScripts);
      if IsScriptEntry(e) && IsTestName(ScriptName(e)) == listTestScripts then rest + [ScriptName(e)] else rest
  }

  /** String.compareTo(a, b) <= 0: character by character, a prefix first. */
  predicate StringLessEq(a: string, b: string)
    decreases |a|
  {
    |a| == 0 || (|b| > 0 && (a[0] < b[0] || (a[0] == b[0] && StringLessEq(a[1..], b[1..]))))
  }

  lemma {:induction false} StringLessEqTotal(a: string, b: string)
    ensures StringLessEq(a, b) || StringLessEq(b, a)
    decreases |a|
  {
    if |a| > 0 && |b| > 0 && a[0] == b[0] {
      StringLessEqTotal(a[1..], b[1..]);
    }
  }

  predicate Sorted(s: seq<string>)
  {
    forall i :: 0 < i < |s| ==> StringLessEq(s[i - 1], s[i])
  }

  /** x put in its place in a sorted sequence. */
  function Insert(x: string, s: seq<string>): (r: seq<string>)
    requires Sorted(s)
    ensures Sorted(r) && multiset(r) == multiset(s) + multiset{x}
    ensures |r| == |s| + 1 && (r[0] == x || (|s| > 0 && r[0] == s[0]))
  {
    if s == [] then [x]
    else if StringLessEq(x, s[0]) then [x] + s
    else
      StringLessEqTotal(x, s[0]);
      var rest := Insert(x, s[1..]);
      assert s == [s[0]] + s[1..];
      [s[0]] + rest
  }

  /** Arrays.sort on the script names: sorted, and the same names. */
  function SortStrings(s: seq<string>): (r: seq<string>)
    ensures Sorted(r) && multiset(r) == multiset(s)
  {
    if s == [] then []
    else
      assert s == s[..|s| - 1] + [s[|s| - 1]];
      Insert(s[|s| - 1], SortStrings(s[..|s| - 1]))
  }

  // ------------------------------------------------------- loadExtensions

  /** The temporary-file base name of an extension jar: from after the last
      '/' to the first ".jar"; None when those bounds cross, where substring
      throws. */
  function JarBaseName(entry: string): (r: Option<string>)
    ensures r.Some? <==> 0 <= LastIndexOfChar(entry, '/') + 1 <= IndexOf(entry, ".jar")
    ensures r.Some? ==> forall i :: 0 <= i < |r.value| ==> r.value[i] != '/'
  {
    var start := LastIndexOfChar(entry, '/') + 1;
    var end := IndexOf(entry, ".jar");
    if 0 <= start <= end then
      assert end + 4 <= |entry|;
      Some(entry[start..end])
    else None
  }

  /** A path dir/base.jar whose only ".jar" is its suffix yields base. */
  lemma JarBaseNameOfPath(dir: string, base: string)
    requires forall i :: 0 <= i < |base| ==> base[i] != '/'
    requires forall i :: 0 <= i < |dir| + 1 + |base| ==> !OccursAt(dir + "/" + base + ".jar", ".jar", i)
    ensures JarBaseName(dir + "/" + base + ".jar") == Some(base)
  {
    var entry := dir + "/" + base + ".jar";
    var end := |dir| + 1 + |base|;
    assert entry[end..] == ".jar";
    assert OccursAt(entry, ".jar", end);
    assert IndexOf(entry, ".jar") == end;
    assert entry[|dir|] == '/';
    assert forall i :: |dir| < i < |entry| ==> entry[i] != '/' by {
      forall i | |dir| < i < |entry|
        ensures entry[i] != '/'
      {
        if i < end {
          assert entry[i] == base[i - |dir| - 1];
        } else {
          assert entry[i] == ".jar"[i - end];
        }
      }
    }
    assert LastIndexOfChar(entry, '/') == |dir|;
    assert entry[|dir| + 1..end] == base;
  }

  /** The base names of the found ".jar" entries, in order; None when a
      base name cannot be cut out. */
  function JarNames(files: seq<string>, found: string -> bool): (r: Option<seq<string>>)
    ensures r.Some? ==> |r.value| <= |files|
  {
    if files == [] then Some([])
    else
      var f := files[|files| - 1];
      match JarNames(files[..|files| - 1], found)
      case None => None
      case Some(names) =>
        if found(f) && EndsWith(f, ".jar") then
          match JarBaseName(f)
          case None => None
          case Some(n) => Some(names + [n])
        else Some(names)
  }

  /** A base name that cannot be cut out stops the whole collection. */
  lemma {:induction false} JarNamesFailureSticks(files: seq<string>, found: string -> bool, n: nat)
    requires n <= |files| && JarNames(files[..n], found).None?
    ensures JarNames(files, found).None?
    decreases |files|
  {
    if n < |files| {
      var init := files[..|files| - 1];
      assert init[..n] == files[..n];
      JarNamesFailureSticks(init, found, n);
    } else {
      assert files[..n] == files;
    }
  }

  // ------------------------------------------------------------ loadClass

  /** A package the class belongs to: the empty package takes names that
      start with '.', any other package the names it prefixes. */
  predicate InPackage(name: string, pkg: string)
  {
    (|pkg| == 0 && IndexOf(name, ".") == 0) || (|pkg| > 0 && StartsWith(name, pkg))
  }

  /** The position of the first package, from i on, that the name belongs
      to, or the number of packages. */
  function FirstPackage(name: string, packages: seq<string>, i: nat): (k: nat)
    requires i <= |packages|
    ensures i <= k <= |packages|
    ensures k < |packages| ==> InPackage(name, packages[k])
    ensures forall j :: i <= j < k ==> !InPackage(name, packages[j])
    decreases |packages| - i
  {
    if i == |packages| then i
    else if InPackage(name, packages[i]) then i
    else FirstPackage(name, packages, i + 1)
  }

  /** Where loadClass sends a class. */
  datatype Route = ParentLoader | AlreadyLoaded | Local(packageIndex: nat)

  /** With no extension jars the parent loads everything; otherwise a class
      not yet loaded is found locally when its name starts with an
      application package (the parent is tried if that fails), and by the
      parent otherwise. */
  function LoadRoute(hasJars: bool, alreadyLoaded: bool, name: string): (r: Route)
    ensures r.Local? ==>
              hasJars && !alreadyLoaded && r.packageIndex < |APPLICATION_PACKAGES| &&
              StartsWith(name, APPLICATION_PACKAGES[r.packageIndex])
    ensures hasJars && !alreadyLoaded && (exists p :: p in APPLICATION_PACKAGES && StartsWith(name, p)) ==> r.Local?
    ensures !hasJars ==> r == ParentLoader
  {
    if !hasJars then ParentLoader
    else if alreadyLoaded then AlreadyLoaded
    else
      var k := FirstPackage(name, APPLICATION_PACKAGES, 0);
      ApplicationPackagesNonEmpty();
      FirstPackageFinds(name, APPLICATION_PACKAGES);
      if k < |APPLICATION_PACKAGES| then Local(k) else ParentLoader
  }

  /** No application package is the empty one. */
  lemma ApplicationPackagesNonEmpty()
    ensures forall j :: 0 <= j < |APPLICATION_PACKAGES| ==> |APPLICATION_PACKAGES[j]| > 0
  {
  }

  /** Among non-empty packages, the search finds one whenever some package
      prefixes the name. */
  lemma FirstPackageFinds(name: string, packages: seq<string>)
    requires forall j :: 0 <= j < |packages| ==> |packages[j]| > 0
    ensures (exists p :: p in packages && StartsWith(name, p)) ==> FirstPackage(name, packages, 0) < |packages|
  {
    if p :| p in packages && StartsWith(name, p) {
      var j :| 0 <= j < |packages| && packages[j] == p;
      assert InPackage(name, packages[j]);
    }
  }

  /** An ffx class is loaded locally, by the first package. */
  lemma RouteExample()
    ensures LoadRoute(true, false, "ffx.Main") == Local(0)
  {
    assert StartsWith("ffx.Main", APPLICATION_PACKAGES[0]);
  }

  /** The class-file path findClass looks up: dots to slashes, plus ".class". */
  function ClassFile(name: string): (path: string)
    ensures |path| == |name| + 6 && EndsWith(path, ".class")
    ensures forall i :: 0 <= i < |name| ==> path[i] != '.'
  {
    ReplaceChar(name, '.', '/') + ".class"
  }

  /** A class name without slashes is recovered from its class-file path. */
  lemma ClassFileRoundTrip(name: string)
    requires forall i :: 0 <= i < |name| ==> name[i] != '/'
    ensures ReplaceChar(ClassFile(name)[..|name|], '/', '.') == name
  {
    var path := ClassFile(name);
    assert path[..|name|] == ReplaceChar(name, '.', '/');
  }

  class FFXClassLoader {
    var extensionsLoaded: bool
    /** extensionJars: the base names of the extracted jars, standing for the
        JarFiles; None while it is null. */
    var extensionJars: Option<seq<string>>
    /** How often loadExtensions did its work. */
    ghost var loadRuns: nat

    ghost predicate Valid()
      reads this
    {
      loadRuns <= 1 && (loadRuns == 1 <==> extensionsLoaded) &&
      (extensionJars.Some? ==> extensionsLoaded && |extensionJars.value| > 0)
    }

    constructor ()
      ensures Valid() && !extensionsLoaded && extensionJars == None && loadRuns == 0
    {
      extensionsLoaded := false;
      extensionJars := None;
      loadRuns := 0;
    }

    /** loadExtensions: the first call marks the extensions loaded and
        collects the base names of the found ".jar" files (`found` says
        which resources exist); the list is kept only when it is not empty.
        Every later call does nothing. */
    method LoadExtensions(files: seq<string>, found: string -> bool) returns (r: Result<()>)
      requires Valid()
      modifies this
      ensures Valid() && extensionsLoaded && loadRuns == 1
      ensures old(extensionsLoaded) ==> r.Ok? && extensionJars == old(extensionJars)
      ensures !old(extensionsLoaded) ==>
        match JarNames(files, found)
        case None => r.Err? && extensionJars == None
        case Some(names) => r.Ok? && extensionJars == (if |names| > 0 then Some(names) else None)
    {
      if extensionsLoaded {
        return Ok(());
      }
      extensionsLoaded := true;
      loadRuns := loadRuns + 1;
      var jarList: seq<string> := [];
      var j := 0;
      while j < |files|
        invariant 0 <= j <= |files| && JarNames(files[..j], found) == Some(jarList)
        invariant extensionsLoaded && loadRuns == 1 && extensionJars == old(extensionJars)
      {
        var f := files[j];
        assert files[..j + 1][..j] == files[..j];
        if found(f) {
          if EndsWith(f, ".jar") {
            var name := JarBaseName(f);
            if name.None? {
              JarNamesFailureSticks(files, found, j + 1);
              return Err("StringIndexOutOfBoundsException");
            }
            jarList := jarList + [name.value];
          }
        }
        j := j + 1;
      }
      assert files[..j] == files;
      if |jarList| > 0 {
        extensionJars := Some(jarList);
      }
      r := Ok(());
    }

    /** loadClass: load the extensions if that has not happened yet, then
        route the class. */
    method LoadClass(name: string, alreadyLoaded: bool, files: seq<string>, found: string -> bool) returns (r: Result<Route>)
      requires Valid()
      modifies this
      ensures Valid() && extensionsLoaded && loadRuns == 1
      ensures old(extensionsLoaded) ==> extensionJars == old(extensionJars) && r.Ok?
      ensures !old(extensionsLoaded) ==>
        match JarNames(files, found)
        case None => r.Err? && extensionJars == None
        case Some(names) => r.Ok? && extensionJars == (if |names| > 0 then Some(names) else None)
      ensures r.Ok? ==> r.value == LoadRoute(extensionJars.Some?, alreadyLoaded, name)
    {
      var loaded := LoadExtensions(files, found);
      if loaded.Err? {
        return Err(loaded.error);
      }
      if extensionJars.None? {
        return Ok(ParentLoader);
      }
      if alreadyLoaded {
        return Ok(AlreadyLoaded);
      }
      var k := 0;
      while k < |APPLICATION_PACKAGES|
        invariant 0 <= k <= |APPLICATION_PACKAGES|
        invariant FirstPackage(name, APPLICATION_PACKAGES, 0) == FirstPackage(name, APPLICATION_PACKAGES, k)
      {
        var pkg := APPLICATION_PACKAGES[k];
        if (|pkg| == 0 && IndexOf(name, ".") == 0) || (|pkg| > 0 && StartsWith(name, pkg)) {
          return Ok(Local(k));
        }
        k := k + 1;
      }
      r := Ok(ParentLoader);
    }

    /** listScripts: with extension jars, the script names of their entries
        (all entries of all jars, in order) filtered by the test flag and
        sorted; without, nothing is listed. */
    method ListScripts(entries: seq<string>, listTestScripts: bool) returns (printed: Option<seq<string>>)
      ensures extensionJars.None? <==> printed.None?
      ensures printed.Some? ==> Sorted(printed.value) && multiset(printed.value) == multiset(ScriptsOf(entries, listTestScripts))
    {
      if extensionJars.None? {
        return None;
      }
      var scripts: seq<string> := [];
      var j := 0;
      while j < |entries|
        invariant 0 <= j <= |entries| && scripts == ScriptsOf(entries[..j], listTestScripts)
      {
        var name := entries[j];
        assert entries[..j + 1][..j] == entries[..j];
        if StartsWith(name, "ffx") && EndsWith(name, ".groovy") {
          name := ReplaceChar(name, '/', '.');
          name := ReplaceAll(name, "ffx.scripts.", "");
          name := ReplaceAll(name, ".groovy", "");
          if IsTestName(name) {
            if listTestScripts {
              scripts := scripts + [name];
            }
          } else {
            if !listTestScripts {
              scripts := scripts + [name];
            }
          }
        }
        j := j + 1;
      }
      assert entries[..j] == entries;
      printed := Some(SortStrings(scripts));
    }
  }
}
