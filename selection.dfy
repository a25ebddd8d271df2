/**
 * The plugin's configuration and its choice of which classes to decompile.
 * The context menus build one of three regular expressions (a quoted class
 * name, a quoted package followed by `/.*`, or `.*`) and keep the class
 * names of the resource that the expression matches as a whole; the result
 * is handed on as a `TreeSet`. The three shapes are modelled directly
 * instead of through a regular-expression engine.
 */
module Selection {
  import opened JavaText

  /** The plugin's configurable fields. */
  datatype Config = Config(minimumThreads: int, classTimeout: int, usePreferredDecompiler: bool)

  /** The values the fields start with: two threads, ten seconds per class, the global decompiler. */
  function DefaultConfig(): (c: Config)
    ensures c.minimumThreads == 2 && c.classTimeout == 10 && !c.usePreferredDecompiler
  {
    Config(2, 10, false)
  }

  /**
   * The three patterns the menus build: `Pattern.quote(name)` for a class,
   * `Pattern.quote(name) + "/.*"` for a package, `".*"` for a whole resource.
   */
  datatype NamePattern = ClassPattern(className: string) | PackagePattern(packageName: string) | AllPattern

  /** The characters that `.` does not match: `\n`, `\r`, U+0085, U+2028 and U+2029. */
  predicate IsLineTerminator(c: char)
  {
    c == '\n' || c == '\r' || c == '\U{85}' || c == '\U{2028}' || c == '\U{2029}'
  }

  /** `.*` matches `s` as a whole exactly when `s` holds no line terminator. */
  predicate DotStarMatches(s: string)
  {
    forall i :: 0 <= i < |s| ==> !IsLineTerminator(s[i])
  }

  /** `name.matches(pattern)`: the whole name is matched, a quoted part literally. */
  predicate Matches(p: NamePattern, name: string)
  {
    match p
    case ClassPattern(c) => name == c
    case PackagePattern(pkg) => pkg + "/" <= name && DotStarMatches(name[|pkg| + 1..])
    case AllPattern => DotStarMatches(name)
  }

  /** The class names of the resource that the pattern matches. */
  function Select(classNames: set<string>, p: NamePattern): (r: set<string>)
    ensures r <= classNames
    ensures forall n :: n in classNames && Matches(p, n) ==> n in r
  {
    set n | n in classNames && Matches(p, n)
  }

  /** "Decompile all" takes every class name free of line terminators, so all of them in practice. */
  lemma SelectAll(classNames: set<string>)
    ensures forall n :: n in Select(classNames, AllPattern) <==> n in classNames && DotStarMatches(n)
    ensures (forall n :: n in classNames ==> DotStarMatches(n)) ==> Select(classNames, AllPattern) == classNames
  {
  }

  /** "Decompile class" takes the class itself if the resource has it, and nothing else. */
  lemma SelectClass(classNames: set<string>, name: string)
    ensures name in classNames ==> Select(classNames, ClassPattern(name)) == {name}
    ensures name !in classNames ==> Select(classNames, ClassPattern(name)) == {}
  {
    if name in classNames {
      assert name in Select(classNames, ClassPattern(name));
    }
  }

  /**
   * "Decompile package" takes exactly the classes whose names continue the
   * package name with a `/`: those of the package and of all its sub-packages.
   */
  lemma SelectPackage(classNames: set<string>, pkg: string, n: string)
    ensures n in Select(classNames, PackagePattern(pkg)) <==>
      n in classNames && |n| > |pkg| && n[..|pkg|] == pkg && n[|pkg|] == '/' && DotStarMatches(n[|pkg| + 1..])
  {
    if n in classNames && |n| > |pkg| && n[..|pkg|] == pkg && n[|pkg|] == '/' {
      assert n[..|pkg| + 1] == pkg + "/";
    }
    if pkg + "/" <= n {
      assert n[..|pkg|] == (pkg + "/")[..|pkg|];
      assert n[|pkg|] == (pkg + "/")[|pkg|];
    }
  }

  /** A class of a sub-package is taken along with its parent package. */
  lemma SelectSubPackage(classNames: set<string>, pkg: string, rest: string)
    requires pkg + "/" + rest in classNames && DotStarMatches(rest)
    ensures pkg + "/" + rest in Select(classNames, PackagePattern(pkg))
  {
    var n := pkg + "/" + rest;
    assert n[..|pkg| + 1] == pkg + "/";
    assert n[|pkg| + 1..] == rest;
  }

  /**
   * The package pattern takes neither a class named like the package itself
   * nor one in a package whose name merely starts with the same letters.
   */
  lemma SelectPackageExcludes(classNames: set<string>, pkg: string, suffix: string)
    requires suffix == [] || suffix[0] != '/'
    ensures pkg + suffix !in Select(classNames, PackagePattern(pkg))
  {
    var n := pkg + suffix;
    if suffix != [] {
      assert n[|pkg|] == suffix[0] != (pkg + "/")[|pkg|];
    }
    assert !(pkg + "/" <= n);
  }
}
