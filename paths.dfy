/**
 * The parts of Rust's `std::path::Path` (through camino's `Utf8Path`) that
 * the GC-root code uses, on Unix: the component view of a path, `file_name`,
 * `parent`, the component-wise `starts_with`, and the component-wise ordering
 * that `Ord` and `PartialEq` on paths follow.
 */
module Paths {
  import opened Wrappers
  import opened Strings

  /** `std::path::Component` without the Windows-only prefix, in the order `Ord` ranks them. */
  datatype Component = RootDir | CurDir | ParentDir | Normal(name: string)

  /** A '/'-separated piece that names something (not empty and not "."). */
  predicate IsNormalName(x: string)
  {
    x != "" && x != "." && x != ".." && '/' !in x
  }

  /** The components of the pieces after the optional leading root or ".". */
  function BodyComponents(parts: seq<string>): (r: seq<Component>)
    ensures forall i :: 0 <= i < |r| ==> r[i].ParentDir? || r[i].Normal?
    ensures forall i :: 0 <= i < |r| && r[i].Normal? ==>
      r[i].name in parts && r[i].name != "" && r[i].name != "." && r[i].name != ".."
  {
    if parts == [] then []
    else
      var last := parts[|parts| - 1];
      BodyComponents(parts[..|parts| - 1]) +
        (if last == "" || last == "." then []
         else if last == ".." then [ParentDir]
         else [Normal(last)])
  }

  predicate HasRoot(p: string)
  {
    |p| > 0 && p[0] == '/'
  }

  /** A relative path that starts with the piece "." keeps it as a `CurDir` component. */
  predicate HasLeadingCurDir(p: string)
  {
    !HasRoot(p) && |p| > 0 && p[0] == '.' && (|p| == 1 || p[1] == '/')
  }

  /**
   * `Path::components`: an optional root or leading ".", then every piece
   * between separators except the empty ones (repeated or trailing '/')
   * and the "." ones.
   */
  function Components(p: string): (r: seq<Component>)
    ensures forall i :: 0 < i < |r| ==> r[i].ParentDir? || r[i].Normal?
  {
    (if HasRoot(p) then [RootDir] else if HasLeadingCurDir(p) then [CurDir] else [])
      + BodyComponents(Split(p, '/'))
  }

  /** `Path::file_name`: the last component when it is a normal name. */
  function FileName(p: string): (r: Option<string>)
    ensures r.Some? ==> IsNormalName(r.value)
  {
    var cs := Components(p);
    if cs != [] && cs[|cs| - 1].Normal? then
      var name := cs[|cs| - 1].name;
      NameFromPieces(p, cs);
      Some(name)
    else
      None
  }

  lemma NameFromPieces(p: string, cs: seq<Component>)
    requires cs == Components(p) && cs != [] && cs[|cs| - 1].Normal?
    ensures IsNormalName(cs[|cs| - 1].name) && multiset(cs[|cs| - 1].name) <= multiset(p)
  {
    var parts := Split(p, '/');
    var body := BodyComponents(parts);
    var pre := if HasRoot(p) then [RootDir] else if HasLeadingCurDir(p) then [CurDir] else [];
    assert cs == pre + body;
    assert body != [] && cs[|cs| - 1] == body[|body| - 1];
    var k :| 0 <= k < |parts| && parts[k] == body[|body| - 1].name;
    SplitPiecesWithin(p, '/', k);
  }

  /** The file name is made of characters of the path. */
  lemma FileNameWithin(p: string)
    requires FileName(p).Some?
    ensures multiset(FileName(p).value) <= multiset(p)
  {
    NameFromPieces(p, Components(p));
  }

  /** Appending a name piece to a path only lengthens its last piece. */
  lemma FileNameAppend(s: string, t: string)
    requires '/' !in t && '-' in t
    ensures var parts := Split(s, '/');
      FileName(s + t) == Some(parts[|parts| - 1] + t)
  {
    var parts := Split(s, '/');
    SplitAppend(s, '/', t);
    var last := parts[|parts| - 1] + t;
    assert last != "" && last != "." && last != ".." by {
      assert '-' in last;
    }
    FileNameOfLastPiece(s + t, parts[..|parts| - 1], last);
  }

  /** A path whose last '/'-piece is a proper name has that name as its file name. */
  lemma FileNameOfLastPiece(p: string, init: seq<string>, last: string)
    requires Split(p, '/') == init + [last]
    requires last != "" && last != "." && last != ".."
    ensures FileName(p) == Some(last)
  {
    BodyAppend(init, last);
    var cs := Components(p);
    assert cs[|cs| - 1] == Normal(last);
  }

  lemma BodyAppend(parts: seq<string>, x: string)
    requires x != "" && x != "." && x != ".."
    ensures BodyComponents(parts + [x]) == BodyComponents(parts) + [Normal(x)]
  {
    assert (parts + [x])[..|parts|] == parts;
  }

  /**
   * `Path::parent`: the components before the last one, absent for the root
   * alone and for the empty path.
   */
  function Parent(p: string): (r: Option<seq<Component>>)
    ensures r.Some? ==> |r.value| + 1 == |Components(p)| && r.value == Components(p)[..|r.value|]
  {
    var cs := Components(p);
    if cs == [] || cs[|cs| - 1] == RootDir then None else Some(cs[..|cs| - 1])
  }

  /** `Path::starts_with`: the components of `base` begin the components of `p`. */
  predicate PathStartsWith(p: string, base: string)
  {
    var b, c := Components(base), Components(p);
    |b| <= |c| && c[..|b|] == b
  }

  /** "/run" is the root followed by one component, and so is "/proc". */
  lemma AbsoluteComponents(name: string)
    requires IsNormalName(name)
    ensures Components("/" + name) == [RootDir, Normal(name)]
  {
    var p := "/" + name;
    assert p == [] + ['/'] + name;
    LastIndexOfCut([], '/', name);
    assert p[..0] == [];
    assert p[1..] == name;
    assert Split([], '/') == [[]];
    assert Split(p, '/') == [[], name];
    assert BodyComponents([[], name]) == BodyComponents([[]]) + [Normal(name)];
  }

  lemma RunAndProcComponents()
    ensures Components("/run") == [RootDir, Normal("run")]
    ensures Components("/proc") == [RootDir, Normal("proc")]
  {
    AbsoluteComponents("run");
    AbsoluteComponents("proc");
    RunAndProcSpelling();
  }

  /** The first two components of `p` are the root and the normal name `name`. */
  predicate UnderTop(p: string, name: string)
  {
    var cs := Components(p);
    |cs| >= 2 && cs[0] == RootDir && cs[1] == Normal(name)
  }

  /** A path starts with "/run" ("/proc") when its first two components are the root and "run" ("proc"). */
  lemma StartsWithRunOrProc(p: string)
    ensures PathStartsWith(p, "/run") <==> UnderTop(p, "run")
    ensures PathStartsWith(p, "/proc") <==> UnderTop(p, "proc")
  {
    RunAndProcComponents();
    PrefixOfTwo(Components(p), RootDir, Normal("run"));
    PrefixOfTwo(Components(p), RootDir, Normal("proc"));
  }

  lemma PrefixOfTwo(cs: seq<Component>, x: Component, y: Component)
    ensures (2 <= |cs| && cs[..2] == [x, y]) <==> (|cs| >= 2 && cs[0] == x && cs[1] == y)
  {
    if |cs| >= 2 {
      assert cs[..2] == [cs[0], cs[1]];
    }
  }

  lemma RunAndProcSpelling()
    ensures "/run" == "/" + "run" && "/proc" == "/" + "proc"
  {
  }

  // ---- Ordering -------------------------------------------------------

  /** Lexicographic order on strings by code point, the same as the order on their UTF-8 bytes. */
  predicate StrLess(a: string, b: string)
  {
    if a == [] then b != []
    else b != [] && (a[0] < b[0] || (a[0] == b[0] && StrLess(a[1..], b[1..])))
  }

  function Rank(c: Component): nat
  {
    match c
    case RootDir => 0
    case CurDir => 1
    case ParentDir => 2
    case Normal(_) => 3
  }

  /** The derived `Ord` of `Component`: by variant, then normal names by their bytes. */
  predicate ComponentLess(a: Component, b: Component)
  {
    Rank(a) < Rank(b) || (a.Normal? && b.Normal? && StrLess(a.name, b.name))
  }

  /** Lexicographic order on component sequences. */
  predicate ComponentsLess(a: seq<Component>, b: seq<Component>)
  {
    if a == [] then b != []
    else b != [] && (ComponentLess(a[0], b[0]) || (a[0] == b[0] && ComponentsLess(a[1..], b[1..])))
  }

  /** `Ord for Path`: paths compare by their components, not by their spelling. */
  predicate PathLess(a: string, b: string)
  {
    ComponentsLess(Components(a), Components(b))
  }

  /** `PartialEq for Path`: equal components, whatever the spelling. */
  predicate SamePath(a: string, b: string)
  {
    Components(a) == Components(b)
  }

  lemma {:induction false} StrLessStrict(a: string, b: string, c: string)
    ensures !StrLess(a, a)
    ensures StrLess(a, b) ==> !StrLess(b, a)
    ensures StrLess(a, b) && StrLess(b, c) ==> StrLess(a, c)
    ensures a != b ==> StrLess(a, b) || StrLess(b, a)
  {
    if a != [] {
      StrLessStrict(a[1..], if b != [] then b[1..] else [], if c != [] then c[1..] else []);
      if b != [] && a[0] == b[0] && a != b {
        assert a == [a[0]] + a[1..] && b == [b[0]] + b[1..];
      }
    }
  }

  lemma ComponentLessStrict(a: Component, b: Component, c: Component)
    ensures !ComponentLess(a, a)
    ensures ComponentLess(a, b) ==> !ComponentLess(b, a)
    ensures ComponentLess(a, b) && ComponentLess(b, c) ==> ComponentLess(a, c)
    ensures a != b ==> ComponentLess(a, b) || ComponentLess(b, a)
  {
    if a.Normal? && b.Normal? && c.Normal? {
      StrLessStrict(a.name, b.name, c.name);
    } else if a.Normal? && b.Normal? {
      StrLessStrict(a.name, b.name, b.name);
    } else if a.Normal? {
      StrLessStrict(a.name, a.name, a.name);
    }
  }

  /** Component order is a strict total order on component sequences. */
  lemma {:induction false} ComponentsLessStrict(a: seq<Component>, b: seq<Component>, c: seq<Component>)
    ensures !ComponentsLess(a, a)
    ensures ComponentsLess(a, b) ==> !ComponentsLess(b, a)
    ensures ComponentsLess(a, b) && ComponentsLess(b, c) ==> ComponentsLess(a, c)
    ensures a != b ==> ComponentsLess(a, b) || ComponentsLess(b, a)
  {
    if a != [] {
      var b0 := if b != [] then b[0] else a[0];
      var c0 := if c != [] then c[0] else b0;
      ComponentLessStrict(a[0], b0, c0);
      ComponentsLessStrict(a[1..], if b != [] then b[1..] else [], if c != [] then c[1..] else []);
      if b != [] && a[0] == b[0] && a != b {
        assert a == [a[0]] + a[1..] && b == [b[0]] + b[1..];
      }
    }
  }

  /** Paths are totally ordered up to `SamePath`. */
  lemma PathLessStrict(a: string, b: string, c: string)
    ensures !PathLess(a, a)
    ensures PathLess(a, b) ==> !PathLess(b, a)
    ensures PathLess(a, b) && PathLess(b, c) ==> PathLess(a, c)
    ensures !SamePath(a, b) ==> PathLess(a, b) || PathLess(b, a)
  {
    ComponentsLessStrict(Components(a), Components(b), Components(c));
  }
}
