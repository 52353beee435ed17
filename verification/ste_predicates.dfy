/**
 * StePredicates: the predicates over one stack frame that trace
 * transforms are built from. Each is a test on the frame's class name,
 * method name, their "class.method" site, or the JDK's rendering of the
 * whole frame; the regular-expression forms need a match of the whole
 * string.
 */
module StePredicates {
  import opened JavaLang

  datatype StePredicate =
    | ContainsText(n: string)     // contains(n)
    | UnderPackage(n: string)
    | InPackage(n: string)
    | ClassEq(n: string)
    | MethodEq(n: string)
    | SiteEq(n: string)
    | ClassContains(n: string)
    | MethodContains(n: string)
    | SiteContains(n: string)
    | ClassRe(n: string)
    | MethodRe(n: string)
    | SiteRe(n: string)

  /** "class.method", the string the site predicates look at. */
  function Site(ste: StackTraceElement): string {
    ste.className + "." + ste.methodName
  }

  /** Predicate.apply of each predicate kind. */
  function Holds(lib: Library, p: StePredicate, ste: StackTraceElement): bool {
    match p
    case ContainsText(n) => Contains(lib.steToString(ste), n)
    case UnderPackage(n) => StartsWith(ste.className, n + ".")
    case InPackage(n) =>
      // exactly one identifier after the prefix
      StartsWith(ste.className, n + ".") && !Contains(ste.className[|n + "."|..], ".")
    case ClassEq(n) => ste.className == n
    case MethodEq(n) => ste.methodName == n
    case SiteEq(n) => Site(ste) == n
    case ClassContains(n) => Contains(ste.className, n)
    case MethodContains(n) => Contains(ste.methodName, n)
    case SiteContains(n) => Contains(Site(ste), n)
    case ClassRe(n) => lib.fullMatch(n, ste.className)
    case MethodRe(n) => lib.fullMatch(n, ste.methodName)
    case SiteRe(n) => lib.fullMatch(n, Site(ste))
  }

  /** A string contains "." exactly when one of its chars is '.'. */
  lemma ContainsDot(s: string)
    ensures Contains(s, ".") <==> '.' in s
  {
    if '.' in s {
      var i :| 0 <= i < |s| && s[i] == '.';
      assert s[i..i + 1] == ".";
      assert OccursAt(s, ".", i);
    }
    if Contains(s, ".") {
      var i :| 0 <= i <= |s| - 1 && OccursAt(s, ".", i);
      assert s[i] == s[i..i + 1][0];
    }
  }

  /** underPackage(n): the class is `n.` followed by anything. */
  lemma UnderPackageShape(lib: Library, n: string, ste: StackTraceElement)
    ensures Holds(lib, UnderPackage(n), ste) <==> exists rest :: ste.className == n + "." + rest
  {
    var c := ste.className;
    if StartsWith(c, n + ".") {
      assert c == n + "." + c[|n| + 1..];
    }
    if exists rest :: c == n + "." + rest {
      var rest :| c == n + "." + rest;
      assert c[..|n| + 1] == n + ".";
    }
  }

  /** inPackage(n): the class is `n.` followed by one identifier without a further '.'. */
  lemma InPackageShape(lib: Library, n: string, ste: StackTraceElement)
    ensures Holds(lib, InPackage(n), ste) <==> exists rest :: ste.className == n + "." + rest && '.' !in rest
  {
    var c := ste.className;
    if StartsWith(c, n + ".") {
      var rest := c[|n| + 1..];
      assert c == n + "." + rest;
      ContainsDot(rest);
    }
    if exists rest :: c == n + "." + rest && '.' !in rest {
      var rest :| c == n + "." + rest && '.' !in rest;
      assert c[..|n| + 1] == n + ".";
      assert c[|n| + 1..] == rest;
      ContainsDot(rest);
    }
  }

  /** Every frame directly in a package is under it. */
  lemma InPackageIsUnderPackage(lib: Library, n: string, ste: StackTraceElement)
    ensures Holds(lib, InPackage(n), ste) ==> Holds(lib, UnderPackage(n), ste)
  {
  }

  /** Each equality predicate implies the matching containment predicate. */
  lemma EqualityImpliesContainment(lib: Library, n: string, ste: StackTraceElement)
    ensures Holds(lib, ClassEq(n), ste) ==> Holds(lib, ClassContains(n), ste)
    ensures Holds(lib, MethodEq(n), ste) ==> Holds(lib, MethodContains(n), ste)
    ensures Holds(lib, SiteEq(n), ste) ==> Holds(lib, SiteContains(n), ste)
  {
    ContainsItself(n);
  }
}
