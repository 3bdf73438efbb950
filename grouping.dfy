/**
 * `GCRoots` in src/gcroot.rs: reading the store's root listing, discovering
 * the profiles among the roots, and sorting every root either into its
 * profile's generation map or into the standalone list.
 */
module Grouping {
  import opened Wrappers
  import opened Strings
  import opened Numbers
  import opened Paths
  import opened Sorting
  import opened Roots
  import opened Profiles

  /** Reading a profile symlink failed after its permission check passed. */
  datatype Error = ReadLinkFailed(path: string)

  /** The profiles, ordered by path, and the roots that belong to none of them. */
  datatype GCRoots = GCRoots(profiles: seq<Profile>, standalone: seq<GCRoot>)

  // ---- Line parser --------------------------------------------------------

  predicate HasArrow(s: string)
  {
    exists j: nat | j <= |s| :: OccursAt(s, Arrow, j)
  }

  /**
   * A listed path that is not kept: one that starts with the text "/proc"
   * (a process's transient root) or a `{...}` placeholder.
   */
  predicate Excluded(path: string)
  {
    StartsWith(path, "/proc") || (|path| > 0 && path[0] == '{' && path[|path| - 1] == '}')
  }

  /**
   * A target that the parser reads back whole: " -> " occurs neither in it
   * nor across its start (a target starting with "-> " would be cut there).
   */
  predicate ArrowFree(target: string)
  {
    !HasArrow([' '] + target)
  }

  /** The line cut at its last " -> " (`str::rsplit_once`). */
  function CutAt(line: string): (string, string)
    requires HasArrow(line)
  {
    var i := LastOccurrence(line, Arrow).value;
    (line[..i], line[i + |Arrow|..])
  }

  /**
   * `GCRoots::parse_nix_store_gc_line`: an excluded path yields nothing.
   * A line without " -> " makes the source panic, so callers must not pass one.
   */
  function ParseLine(line: string): Option<GCRoot>
    requires HasArrow(line)
  {
    var (path, target) := CutAt(line);
    if Excluded(path) then None else Some(GCRoot(path, target))
  }

  /** An occurrence inside a suffix is an occurrence in the whole. */
  lemma OccursInSuffix(s: string, k: nat, pat: string, j: nat)
    requires k <= |s| && OccursAt(s[k..], pat, j)
    ensures OccursAt(s, pat, k + j)
  {
    assert s[k + j..k + j + |pat|] == s[k..][j..j + |pat|];
  }

  lemma ArrowSpelling()
    ensures |Arrow| == 4 && Arrow[0] == ' ' && Arrow[1] == '-' && Arrow[2] == '>' && Arrow[3] == ' '
  {
  }

  /** The two halves of a cut line join back into it, and the right half is arrow free. */
  lemma CutAtRejoins(line: string)
    requires HasArrow(line)
    ensures CutAt(line).0 + Arrow + CutAt(line).1 == line
    ensures ArrowFree(CutAt(line).1)
  {
    var i := LastOccurrence(line, Arrow).value;
    assert line == line[..i] + Arrow + line[i + |Arrow|..];
    AfterLastArrow(line, i);
  }

  /** What follows the last arrow of a line is arrow free. */
  lemma AfterLastArrow(line: string, i: nat)
    requires OccursAt(line, Arrow, i)
    requires forall j: nat :: i < j ==> !OccursAt(line, Arrow, j)
    ensures ArrowFree(line[i + |Arrow|..])
  {
    var target := line[i + |Arrow|..];
    ArrowSpelling();
    assert [' '] + target == line[i + 3..];
    if j: nat :| j <= |[' '] + target| && OccursAt([' '] + target, Arrow, j) {
      OccursInSuffix(line, i + 3, Arrow, j);
    }
  }

  /** After the arrow a printed root puts between path and target, no other arrow starts. */
  lemma NoLaterArrow(path: string, target: string, j: nat)
    requires ArrowFree(target) && |path| < j
    ensures !OccursAt(path + Arrow + target, Arrow, j)
  {
    var line := path + Arrow + target;
    var i := |path|;
    ArrowSpelling();
    if OccursAt(line, Arrow, j) {
      assert line[j] == ' ';
      if j >= i + 3 {
        assert line[i + 3..] == [' '] + target;
        assert line[i + 3..][j - i - 3..j - i - 3 + |Arrow|] == line[j..j + |Arrow|];
        assert OccursAt(line[i + 3..], Arrow, j - i - 3);
      }
    }
  }

  /** A line built from a path and an arrow-free target is cut back into them. */
  lemma CutAtPrinted(path: string, target: string)
    requires ArrowFree(target)
    ensures HasArrow(path + Arrow + target)
    ensures CutAt(path + Arrow + target) == (path, target)
  {
    var line := path + Arrow + target;
    var i := |path|;
    assert line[i..i + |Arrow|] == Arrow;
    assert OccursAt(line, Arrow, i);
    var last := LastOccurrence(line, Arrow).value;
    if last > i {
      NoLaterArrow(path, target, last);
    }
    assert line[..i] == path && line[i + |Arrow|..] == target;
  }

  /** A parsed root prints back as the line it came from, and its target is arrow free. */
  lemma ParsedRootPrintsLine(line: string)
    requires HasArrow(line) && ParseLine(line).Some?
    ensures Roots.Text(ParseLine(line).value) == line
    ensures ArrowFree(ParseLine(line).value.target) && !Excluded(ParseLine(line).value.path)
  {
    CutAtRejoins(line);
  }

  /**
   * Conversely every root with an arrow-free target is read back from its
   * printed line, unless its path is excluded: the parser is the inverse of
   * `Display for GCRoot`, and lines are dropped exactly for excluded paths.
   */
  lemma ParseOfPrintedRoot(r: GCRoot)
    requires ArrowFree(r.target)
    ensures HasArrow(Roots.Text(r))
    ensures ParseLine(Roots.Text(r)) == if Excluded(r.path) then None else Some(r)
  {
    CutAtPrinted(r.path, r.target);
  }

  /**
   * The arrow-free condition is needed: a root whose target starts with
   * "-> " prints as a line that is cut at the later arrow, so it is read
   * back as a different root.
   */
  lemma TargetStartingWithArrow()
    ensures Roots.Text(GCRoot("a", "-> b")) == "a -> -> b"
    ensures !ArrowFree("-> b")
    ensures HasArrow("a -> -> b") && ParseLine("a -> -> b") == Some(GCRoot("a ->", "b"))
  {
    var line := "a -> -> b";
    ArrowSpelling();
    assert line[4..8] == Arrow;
    var t := [' '] + "-> b";
    assert t[0..4] == Arrow;
    assert OccursAt(t, Arrow, 0);
    var i := LastOccurrence(line, Arrow).value;
    assert i == 4;
    assert line[..4] == "a ->" && line[8..] == "b";
  }

  /** The roots of a listing, already cut into lines (`filter_map` over `str::lines`). */
  function ParseLines(lines: seq<string>): seq<GCRoot>
    requires forall k :: 0 <= k < |lines| ==> HasArrow(lines[k])
  {
    if lines == [] then []
    else
      var last := lines[|lines| - 1];
      ParseLines(lines[..|lines| - 1]) + match ParseLine(last) { case Some(r) => [r] case None => [] }
  }

  /** The lines whose path is not excluded, in order. */
  function KeptLines(lines: seq<string>): seq<string>
    requires forall k :: 0 <= k < |lines| ==> HasArrow(lines[k])
  {
    if lines == [] then []
    else
      var last := lines[|lines| - 1];
      KeptLines(lines[..|lines| - 1]) + if ParseLine(last).Some? then [last] else []
  }

  function Texts(roots: seq<GCRoot>): (ts: seq<string>)
    ensures |ts| == |roots|
  {
    seq(|roots|, i requires 0 <= i < |roots| => Roots.Text(roots[i]))
  }

  /** Printing the parsed roots gives back exactly the kept lines of the listing, in order. */
  lemma {:induction false} ParseLinesPrintsKeptLines(lines: seq<string>)
    requires forall k :: 0 <= k < |lines| ==> HasArrow(lines[k])
    ensures Texts(ParseLines(lines)) == KeptLines(lines)
  {
    if lines != [] {
      var init, last := lines[..|lines| - 1], lines[|lines| - 1];
      ParseLinesPrintsKeptLines(init);
      if ParseLine(last).Some? {
        var r := ParseLine(last).value;
        ParsedRootPrintsLine(last);
        assert ParseLines(lines) == ParseLines(init) + [r];
        TextsSnoc(ParseLines(init), r);
        assert KeptLines(lines) == KeptLines(init) + [last];
      } else {
        assert ParseLines(lines) == ParseLines(init);
        assert KeptLines(lines) == KeptLines(init);
      }
    }
  }

  lemma TextsSnoc(rs: seq<GCRoot>, r: GCRoot)
    ensures Texts(rs + [r]) == Texts(rs) + [Roots.Text(r)]
  {
  }

  // ---- Profile discovery -------------------------------------------------

  /** `GCRoot::get_profile_path` of every root, in order. */
  function ProfilePaths(roots: seq<GCRoot>): (names: seq<Option<string>>)
    ensures |names| == |roots|
  {
    seq(|roots|, k requires 0 <= k < |roots| => ProfilePath(roots[k]))
  }

  /** The present names that are symlinks, in order and with repeats. */
  function KeepSymlinks(names: seq<Option<string>>, symlinks: set<string>): (cs: seq<string>)
    ensures |cs| <= |names|
  {
    if names == [] then []
    else
      var last := names[|names| - 1];
      KeepSymlinks(names[..|names| - 1], symlinks) + if last.Some? && last.value in symlinks then [last.value] else []
  }

  lemma {:induction false} KeepSymlinksIff(names: seq<Option<string>>, symlinks: set<string>, c: string)
    ensures c in KeepSymlinks(names, symlinks) <==>
      exists k :: 0 <= k < |names| && names[k] == Some(c) && c in symlinks
  {
    if names != [] {
      var init := names[..|names| - 1];
      KeepSymlinksIff(init, symlinks, c);
      assert forall k :: 0 <= k < |init| ==> init[k] == names[k];
    }
  }

  /**
   * The profile paths named by the roots that are symlinks, in root order
   * and with repeats: the `map`, `filter_map` and `filter` that start
   * `GCRoots::create_profiles`.
   */
  function Candidates(roots: seq<GCRoot>, fs: FileSystem): seq<string>
  {
    KeepSymlinks(ProfilePaths(roots), fs.symlinks)
  }

  /** A candidate is exactly the profile path of some root that is a symlink. */
  lemma CandidateIff(roots: seq<GCRoot>, fs: FileSystem, c: string)
    ensures c in Candidates(roots, fs) <==>
      exists k :: 0 <= k < |roots| && ProfilePath(roots[k]) == Some(c) && c in fs.symlinks
  {
    var names := ProfilePaths(roots);
    KeepSymlinksIff(names, fs.symlinks, c);
    if c in Candidates(roots, fs) {
      var k :| 0 <= k < |names| && names[k] == Some(c) && c in fs.symlinks;
      assert ProfilePath(roots[k]) == Some(c);
    }
    if k :| 0 <= k < |roots| && ProfilePath(roots[k]) == Some(c) && c in fs.symlinks {
      assert names[k] == Some(c);
    }
  }

  /**
   * `GCRoots::read_active_gen`: an unreadable profile has no known active
   * generation; for a readable one a failing `read_link` is an error, and
   * otherwise the generation is read from the link target's file name.
   */
  function ReadActiveGeneration(fs: FileSystem, profile: string): (r: Result<Option<u64>, Error>)
    ensures r.Failure? <==> profile in fs.readable && profile !in fs.links
    ensures r.Failure? ==> r.error == ReadLinkFailed(profile)
    ensures profile !in fs.readable ==> r == Success(None)
  {
    if profile !in fs.readable then Success(None)
    else if profile !in fs.links then Failure(ReadLinkFailed(profile))
    else Success(LinkGeneration(fs.links[profile]))
  }

  /**
   * A readable profile pointing at a generation link as Nix names them,
   * `<profile>-<n>-link`, has generation n active.
   */
  lemma ActiveGenerationOfGenerationLink(fs: FileSystem, profile: string, base: string, n: u64)
    requires profile in fs.readable && profile in fs.links
    requires fs.links[profile] == base + "-" + Decimal(n) + "-link"
    ensures ReadActiveGeneration(fs, profile) == Success(Some(n))
  {
    LinkGenerationOfGenerationLink(base, n);
  }

  /** `Ord for Path` as a "not greater than" relation. */
  predicate PathLe(a: string, b: string)
  {
    !PathLess(b, a)
  }

  /** `Ord for Path` is total and agrees with `PartialEq for Path`. */
  lemma PathOrder()
    ensures TotalPreorder(PathLe)
    ensures StrictOrderUpTo(PathLess, SamePath)
  {
    forall a, b ensures PathLe(a, b) || PathLe(b, a) {
      PathLessStrict(a, b, b);
    }
    forall a, b, c | PathLe(a, b) && PathLe(b, c) ensures PathLe(a, c) {
      PathLessStrict(a, b, c);
      PathLessStrict(c, a, b);
    }
    forall a, b | !SamePath(a, b) ensures PathLess(a, b) || PathLess(b, a) {
      PathLessStrict(a, b, b);
    }
    forall a, b, c | PathLess(a, b) && PathLess(b, c) ensures PathLess(a, c) {
      PathLessStrict(a, b, c);
    }
  }

  /** `Profile::cmp` on paths, as `create_profiles` sorts its result. */
  predicate ProfileLe(a: Profile, b: Profile)
  {
    PathLe(a.path, b.path)
  }

  lemma ProfileLeTotalPreorder()
    ensures TotalPreorder(ProfileLe)
  {
    PathOrder();
    forall a: Profile, b: Profile ensures ProfileLe(a, b) || ProfileLe(b, a) {
      assert PathLe(a.path, b.path) || PathLe(b.path, a.path);
    }
    forall a: Profile, b: Profile, c: Profile | ProfileLe(a, b) && ProfileLe(b, c)
      ensures ProfileLe(a, c)
    {
      assert PathLe(a.path, b.path) && PathLe(b.path, c.path);
    }
  }

  /**
   * What `create_profiles` returns on success: one profile per distinct
   * candidate path, strictly ordered by path, each with the active
   * generation read from disk and no generations yet.
   */
  ghost predicate Discovered(ps: seq<Profile>, roots: seq<GCRoot>, fs: FileSystem)
  {
    && (forall i, j :: 0 <= i < j < |ps| ==> PathLess(ps[i].path, ps[j].path))
    && (forall i :: 0 <= i < |ps| ==> ps[i].path in Candidates(roots, fs))
    && (forall i :: 0 <= i < |ps| ==> ps[i].generations == map[])
    && (forall i :: 0 <= i < |ps| ==>
          ReadActiveGeneration(fs, ps[i].path) == Success(ps[i].activeGeneration))
    && (forall c :: c in Candidates(roots, fs) ==>
          exists i :: 0 <= i < |ps| && SamePath(ps[i].path, c))
  }

  /**
   * `sort_unstable` then `dedup` on the candidate paths: one path per
   * distinct candidate, strictly increasing.
   */
  method SortDedupPaths(paths: seq<string>) returns (unique: seq<string>)
    ensures forall i, j :: 0 <= i < j < |unique| ==> PathLess(unique[i], unique[j])
    ensures forall x :: x in unique ==> x in paths
    ensures forall c :: c in paths ==> exists i :: 0 <= i < |unique| && SamePath(unique[i], c)
  {
    PathOrder();
    var sorted := Sort(paths, PathLe);
    assert forall x :: x in sorted <==> x in paths by {
      forall x ensures x in sorted <==> x in paths {
        assert x in sorted <==> x in multiset(sorted);
        assert x in paths <==> x in multiset(paths);
      }
    }
    unique := Dedup(sorted, PathLess, SamePath);
    forall c | c in paths ensures exists i :: 0 <= i < |unique| && SamePath(unique[i], c) {
      var m :| 0 <= m < |sorted| && sorted[m] == c;
      var i :| 0 <= i < |unique| && SamePath(unique[i], sorted[m]);
    }
  }

  /**
   * The closing `sort_unstable_by` on paths: the profiles arrive strictly
   * ordered by path, so it leaves them as they are.
   */
  method SortProfilesByPath(profiles: seq<Profile>) returns (ordered: seq<Profile>)
    requires forall i, j :: 0 <= i < j < |profiles| ==> PathLess(profiles[i].path, profiles[j].path)
    ensures ordered == profiles
  {
    ProfileLeTotalPreorder();
    ordered := Sort(profiles, ProfileLe);
    StrictlySortedIsFixed(profiles, ordered, ProfileLe);
  }

  /** Profiles built one per path of a strictly increasing cover of the candidates are discovered. */
  lemma DiscoveredFromPaths(ps: seq<Profile>, unique: seq<string>, roots: seq<GCRoot>, fs: FileSystem)
    requires |ps| == |unique|
    requires forall i, j :: 0 <= i < j < |unique| ==> PathLess(unique[i], unique[j])
    requires forall x :: x in unique ==> x in Candidates(roots, fs)
    requires forall c :: c in Candidates(roots, fs) ==>
      exists i :: 0 <= i < |unique| && SamePath(unique[i], c)
    requires forall i :: 0 <= i < |ps| ==> ps[i].path == unique[i] && ps[i].generations == map[]
    requires forall i :: 0 <= i < |ps| ==>
      ReadActiveGeneration(fs, unique[i]) == Success(ps[i].activeGeneration)
    ensures Discovered(ps, roots, fs)
  {
    forall c | c in Candidates(roots, fs) ensures exists i :: 0 <= i < |ps| && SamePath(ps[i].path, c) {
      var i :| 0 <= i < |unique| && SamePath(unique[i], c);
      assert ps[i].path == unique[i];
    }
  }

  /**
   * The `for` loop of `GCRoots::create_profiles`: one profile per path, in
   * order, with the active generation read from disk and no generations;
   * the first failing read ends the loop with its error.
   */
  method ReadProfiles(paths: seq<string>, fs: FileSystem) returns (r: Result<seq<Profile>, Error>)
    ensures r.Success? ==> |r.value| == |paths|
    ensures r.Success? ==> forall i :: 0 <= i < |paths| ==>
      r.value[i].path == paths[i] && r.value[i].generations == map[] &&
      ReadActiveGeneration(fs, paths[i]) == Success(r.value[i].activeGeneration)
    ensures r.Failure? ==> exists i :: 0 <= i < |paths| && ReadActiveGeneration(fs, paths[i]) == Failure(r.error)
  {
    var profiles: seq<Profile> := [];
    var k := 0;
    while k < |paths|
      invariant k <= |paths| && |profiles| == k
      invariant forall i :: 0 <= i < k ==>
        profiles[i].path == paths[i] && profiles[i].generations == map[] &&
        ReadActiveGeneration(fs, paths[i]) == Success(profiles[i].activeGeneration)
    {
      var active := ReadActiveGeneration(fs, paths[k]);
      if active.Failure? {
        assert 0 <= k < |paths| && ReadActiveGeneration(fs, paths[k]) == Failure(active.error);
        return Failure(active.error);
      }
      profiles := profiles + [Profile(paths[k], active.value, map[])];
      k := k + 1;
    }
    assert forall i :: 0 <= i < |paths| ==> ReadActiveGeneration(fs, paths[i]).Success?;
    r := Success(profiles);
  }

  /** A read that fails on a path drawn from the candidates fails on a candidate. */
  lemma FailedRead(roots: seq<GCRoot>, fs: FileSystem, unique: seq<string>, e: Error)
    requires forall x :: x in unique ==> x in Candidates(roots, fs)
    requires exists i :: 0 <= i < |unique| && ReadActiveGeneration(fs, unique[i]) == Failure(e)
    ensures exists c :: c in Candidates(roots, fs) && ReadActiveGeneration(fs, c) == Failure(e)
    ensures !(forall c :: c in Candidates(roots, fs) ==> ReadActiveGeneration(fs, c).Success?)
  {
    var i :| 0 <= i < |unique| && ReadActiveGeneration(fs, unique[i]) == Failure(e);
    assert unique[i] in Candidates(roots, fs);
  }

  /** `GCRoots::create_profiles`. */
  method CreateProfiles(roots: seq<GCRoot>, fs: FileSystem) returns (r: Result<seq<Profile>, Error>)
    ensures r.Success? ==> Discovered(r.value, roots, fs)
    ensures r.Failure? ==>
      exists c :: c in Candidates(roots, fs) && ReadActiveGeneration(fs, c) == Failure(r.error)
    ensures (forall c :: c in Candidates(roots, fs) ==> ReadActiveGeneration(fs, c).Success?) ==>
      r.Success?
  {
    var paths := Candidates(roots, fs);
    var unique := SortDedupPaths(paths);
    var read := ReadProfiles(unique, fs);
    if read.Failure? {
      FailedRead(roots, fs, unique, read.error);
      return Failure(read.error);
    }
    DiscoveredFromPaths(read.value, unique, roots, fs);
    var ordered := SortProfilesByPath(read.value);
    r := Success(ordered);
  }

  // ---- Placing roots into profiles -----------------------------------------

  function PathsOf(ps: seq<Profile>): (paths: seq<string>)
    ensures |paths| == |ps| && forall j :: 0 <= j < |ps| ==> paths[j] == ps[j].path
  {
    seq(|ps|, j requires 0 <= j < |ps| => ps[j].path)
  }

  /**
   * `iter_mut().find` with `p.path.as_str() == profile_path`: the first
   * profile whose path is spelled exactly `pp` (by text, not by components).
   */
  function FindProfile(paths: seq<string>, pp: string): (r: Option<nat>)
    ensures r.Some? ==> r.value < |paths| && paths[r.value] == pp
    ensures r.Some? ==> forall i :: 0 <= i < r.value ==> paths[i] != pp
    ensures r.None? <==> pp !in paths
  {
    if paths == [] then None
    else if paths[0] == pp then Some(0)
    else
      match FindProfile(paths[1..], pp)
      case None => None
      case Some(i) => Some(i + 1)
  }

  /**
   * Where `populate_profiles` files a root: the index of its profile and its
   * generation number, or nothing when it names no generation or its
   * profile path is not among the profiles.
   */
  function Slot(r: GCRoot, paths: seq<string>): (s: Option<(nat, u64)>)
    ensures s.Some? ==> s.value.0 < |paths|
  {
    match ProfilePath(r)
    case None => None
    case Some(pp) =>
      match FindProfile(paths, pp)
      case None => None
      case Some(j) =>
        match ProfileGeneration(r)
        case None => None
        case Some(gen) => Some((j, gen))
  }

  /**
   * A root is filed exactly when it names a generation and its profile path
   * is spelled as one of the profiles' paths; it goes to the first such
   * profile under its generation number.
   */
  lemma SlotMeaning(r: GCRoot, paths: seq<string>)
    ensures Slot(r, paths).Some? <==> ProfilePath(r).Some? && ProfilePath(r).value in paths
    ensures Slot(r, paths).Some? ==>
      var (j, gen) := Slot(r, paths).value;
      ProfilePath(r) == Some(paths[j]) && ProfileGeneration(r) == Some(gen) &&
      forall i :: 0 <= i < j ==> paths[i] != paths[j]
  {
  }

  /**
   * The link Nix makes for generation n of a profile whose path is listed
   * at index j, and nowhere before, is filed under (j, n).
   */
  lemma GenerationLinkSlot(paths: seq<string>, j: nat, n: u64, target: string)
    requires j < |paths| && forall i :: 0 <= i < j ==> paths[i] != paths[j]
    ensures Slot(GCRoot(paths[j] + "-" + Decimal(n) + "-link", target), paths) == Some((j, n))
  {
    var r := GCRoot(paths[j] + "-" + Decimal(n) + "-link", target);
    GenerationLinkClassified(paths[j], n, target);
    assert ProfilePath(r) == Some(paths[j]) && ProfileGeneration(r) == Some(n);
    assert FindProfile(paths, paths[j]) == Some(j);
  }

  lemma OneAndZeroOne()
    ensures ParseU64("1") == Some(1) && ParseU64("01") == Some(1)
  {
    assert Decimal(1) == "1";
    ParseDecimal(1);
    ParseLeadingZero("1");
    assert "0" + "1" == "01";
  }

  /** A generation link of profile j, however its number is spelled, is filed under (j, number). */
  lemma SpelledLinkSlot(paths: seq<string>, j: nat, digits: string, target: string)
    requires j < |paths| && forall i :: 0 <= i < j ==> paths[i] != paths[j]
    requires ParseU64(digits).Some?
    ensures Slot(GCRoot(paths[j] + "-" + digits + "-link", target), paths) == Some((j, ParseU64(digits).value))
  {
    GenerationLinkSpelled(paths[j], digits, target);
    assert FindProfile(paths, paths[j]) == Some(j);
  }

  /**
   * "<p>-1-link" and "<p>-01-link" both name generation 1 of profile p, so
   * they are filed under the same slot and the later one replaces the
   * earlier (see `PopulateGenerations`).
   */
  lemma SpellingsShareSlot(paths: seq<string>, j: nat, t1: string, t2: string)
    requires j < |paths| && forall i :: 0 <= i < j ==> paths[i] != paths[j]
    ensures Slot(GCRoot(paths[j] + "-" + "1" + "-link", t1), paths) == Some((j, 1))
    ensures Slot(GCRoot(paths[j] + "-" + "01" + "-link", t2), paths) == Some((j, 1))
  {
    OneAndZeroOne();
    SpelledLinkSlot(paths, j, "1", t1);
    SpelledLinkSlot(paths, j, "01", t2);
  }

  /** `Slot` of every root, in order. */
  function SlotsOf(roots: seq<GCRoot>, paths: seq<string>): (slots: seq<Option<(nat, u64)>>)
    ensures |slots| == |roots|
    ensures forall k :: 0 <= k < |slots| && slots[k].Some? ==> slots[k].value.0 < |paths|
  {
    seq(|roots|, k requires 0 <= k < |roots| => Slot(roots[k], paths))
  }

  /** Every filed root names one of the profiles. */
  predicate SlotsFit(slots: seq<Option<(nat, u64)>>, count: nat)
  {
    forall k :: 0 <= k < |slots| && slots[k].Some? ==> slots[k].value.0 < count
  }

  /** Only the generation maps change; paths and active generations stay. */
  predicate SameProfiles(a: seq<Profile>, b: seq<Profile>)
  {
    |a| == |b| &&
    forall j :: 0 <= j < |a| ==> a[j].path == b[j].path && a[j].activeGeneration == b[j].activeGeneration
  }

  /**
   * The result of `populate_profiles` when the k-th root goes to
   * `slots[k]`: each filed root is inserted into its profile's generation
   * map (replacing an earlier root of the same generation), every other
   * root is appended to the standalone list.
   */
  function PopulateWith(roots: seq<GCRoot>, slots: seq<Option<(nat, u64)>>, ps: seq<Profile>): (g: GCRoots)
    requires |slots| == |roots| && SlotsFit(slots, |ps|)
    ensures SameProfiles(g.profiles, ps)
    decreases |roots|
  {
    if roots == [] then GCRoots(ps, [])
    else
      var n := |roots| - 1;
      var g := PopulateWith(roots[..n], slots[..n], ps);
      match slots[n]
      case None => GCRoots(g.profiles, g.standalone + [roots[n]])
      case Some((j, gen)) =>
        var p := g.profiles[j];
        GCRoots(g.profiles[j := p.(generations := p.generations[gen := roots[n]])], g.standalone)
  }

  /** `GCRoots::populate_profiles` as a function of its inputs. */
  function Populate(roots: seq<GCRoot>, ps: seq<Profile>): GCRoots
  {
    PopulateWith(roots, SlotsOf(roots, PathsOf(ps)), ps)
  }

  /** The roots with no slot, in order. */
  function Unplaced(roots: seq<GCRoot>, slots: seq<Option<(nat, u64)>>): (u: seq<GCRoot>)
    requires |slots| == |roots|
    ensures |u| <= |roots|
  {
    if roots == [] then []
    else
      var n := |roots| - 1;
      Unplaced(roots[..n], slots[..n]) + if slots[n].None? then [roots[n]] else []
  }

  /** The standalone list is exactly the roots with no slot, in their input order. */
  lemma {:induction false} PopulateStandalone(roots: seq<GCRoot>, slots: seq<Option<(nat, u64)>>, ps: seq<Profile>)
    requires |slots| == |roots| && SlotsFit(slots, |ps|)
    ensures PopulateWith(roots, slots, ps).standalone == Unplaced(roots, slots)
    decreases |roots|
  {
    if roots != [] {
      var n := |roots| - 1;
      PopulateStandalone(roots[..n], slots[..n], ps);
    }
  }

  /** The k-th root is the last one filed under (j, gen). */
  predicate LastFiled(slots: seq<Option<(nat, u64)>>, k: int, j: nat, gen: u64)
  {
    0 <= k < |slots| && slots[k] == Some((j, gen)) &&
    forall k' :: k < k' < |slots| ==> slots[k'] != Some((j, gen))
  }

  /**
   * Profile j holds generation gen afterwards exactly when it held it
   * before or some root is filed under (j, gen); the entry is the last root
   * filed there, or the old entry when none is.
   */
  lemma {:induction false} PopulateGenerations(roots: seq<GCRoot>, slots: seq<Option<(nat, u64)>>, ps: seq<Profile>, j: nat, gen: u64)
    requires |slots| == |roots| && SlotsFit(slots, |ps|) && j < |ps|
    ensures var gens := PopulateWith(roots, slots, ps).profiles[j].generations;
      gen in gens <==> gen in ps[j].generations || exists k :: 0 <= k < |roots| && slots[k] == Some((j, gen))
    ensures var gens := PopulateWith(roots, slots, ps).profiles[j].generations;
      forall k :: LastFiled(slots, k, j, gen) ==> gens[gen] == roots[k]
    ensures var gens := PopulateWith(roots, slots, ps).profiles[j].generations;
      (forall k :: 0 <= k < |roots| ==> slots[k] != Some((j, gen))) && gen in ps[j].generations ==>
        gens[gen] == ps[j].generations[gen]
    decreases |roots|
  {
    if roots != [] {
      var n := |roots| - 1;
      var init := slots[..n];
      PopulateGenerations(roots[..n], init, ps, j, gen);
      assert forall k :: 0 <= k < n ==> init[k] == slots[k];
      forall k | LastFiled(slots, k, j, gen) && k < n
        ensures LastFiled(init, k, j, gen)
      {
        assert slots[n] != Some((j, gen));
      }
    }
  }

  /** The number of generations over all profiles. */
  function TotalGenerations(ps: seq<Profile>): nat
  {
    if ps == [] then 0 else TotalGenerations(ps[..|ps| - 1]) + |ps[|ps| - 1].generations|
  }

  lemma {:induction false} TotalGenerationsUpdate(ps: seq<Profile>, j: nat, m: map<u64, GCRoot>)
    requires j < |ps|
    ensures TotalGenerations(ps[j := ps[j].(generations := m)]) ==
      TotalGenerations(ps) - |ps[j].generations| + |m|
    decreases |ps|
  {
    var n := |ps| - 1;
    var qs := ps[j := ps[j].(generations := m)];
    assert qs[..n] == if j < n then ps[..n][j := ps[j].(generations := m)] else ps[..n];
    if j < n {
      TotalGenerationsUpdate(ps[..n], j, m);
    }
  }

  lemma {:induction false} TotalGenerationsEmpty(ps: seq<Profile>)
    requires forall j :: 0 <= j < |ps| ==> ps[j].generations == map[]
    ensures TotalGenerations(ps) == 0
  {
    if ps != [] {
      TotalGenerationsEmpty(ps[..|ps| - 1]);
    }
  }

  /** Filing a root under a generation its profile lacks adds one generation. */
  lemma FilingAddsOne(ps: seq<Profile>, j: nat, gen: u64, r: GCRoot)
    requires j < |ps| && gen !in ps[j].generations
    ensures var p := ps[j];
      TotalGenerations(ps[j := p.(generations := p.generations[gen := r])]) == TotalGenerations(ps) + 1
  {
    var m := ps[j].generations[gen := r];
    assert |m| == |ps[j].generations| + 1;
    TotalGenerationsUpdate(ps, j, m);
  }

  /** No two roots are filed under the same profile and generation. */
  predicate NoSharedSlot(slots: seq<Option<(nat, u64)>>)
  {
    forall k, k' :: 0 <= k < k' < |slots| && slots[k].Some? ==> slots[k] != slots[k']
  }

  /** Placing the last root adds one to the generations or to the standalone roots. */
  lemma PlacingAddsOne(roots: seq<GCRoot>, slots: seq<Option<(nat, u64)>>, ps: seq<Profile>)
    requires |slots| == |roots| > 0 && SlotsFit(slots, |ps|) && NoSharedSlot(slots)
    requires forall j :: 0 <= j < |ps| ==> ps[j].generations == map[]
    ensures var n := |roots| - 1;
      var g, h := PopulateWith(roots, slots, ps), PopulateWith(roots[..n], slots[..n], ps);
      TotalGenerations(g.profiles) + |g.standalone| == TotalGenerations(h.profiles) + |h.standalone| + 1
  {
    var n := |roots| - 1;
    var init := slots[..n];
    var h := PopulateWith(roots[..n], init, ps);
    match slots[n]
    case None =>
    case Some((j, gen)) =>
      PopulateGenerations(roots[..n], init, ps, j, gen);
      assert forall k :: 0 <= k < n ==> init[k] != Some((j, gen));
      FilingAddsOne(h.profiles, j, gen, roots[n]);
  }

  /**
   * Starting from empty generation maps, and with no two roots filed under
   * the same profile and generation, every root ends up in exactly one
   * place: the generations and the standalone roots add up to the roots.
   */
  lemma {:induction false} PopulateKeepsEveryRoot(roots: seq<GCRoot>, slots: seq<Option<(nat, u64)>>, ps: seq<Profile>)
    requires |slots| == |roots| && SlotsFit(slots, |ps|) && NoSharedSlot(slots)
    requires forall j :: 0 <= j < |ps| ==> ps[j].generations == map[]
    ensures var g := PopulateWith(roots, slots, ps);
      TotalGenerations(g.profiles) + |g.standalone| == |roots|
    decreases |roots|
  {
    if roots == [] {
      TotalGenerationsEmpty(ps);
    } else {
      var n := |roots| - 1;
      var init := slots[..n];
      assert forall k :: 0 <= k < n ==> init[k] == slots[k];
      PopulateKeepsEveryRoot(roots[..n], init, ps);
      PlacingAddsOne(roots, slots, ps);
    }
  }

  /** Profiles that differ only in their generation maps have the same paths. */
  lemma SamePaths(a: seq<Profile>, b: seq<Profile>)
    requires SameProfiles(a, b)
    ensures PathsOf(a) == PathsOf(b)
  {
  }

  /** Filing the roots up to k + 1 is filing them up to k, then placing root k. */
  lemma PopulateStep(roots: seq<GCRoot>, slots: seq<Option<(nat, u64)>>, ps: seq<Profile>, k: nat)
    requires |slots| == |roots| && SlotsFit(slots, |ps|) && k < |roots|
    ensures var g := PopulateWith(roots[..k], slots[..k], ps);
      PopulateWith(roots[..k + 1], slots[..k + 1], ps) ==
        match slots[k]
        case None => GCRoots(g.profiles, g.standalone + [roots[k]])
        case Some((j, gen)) =>
          var p := g.profiles[j];
          GCRoots(g.profiles[j := p.(generations := p.generations[gen := roots[k]])], g.standalone)
  {
    assert roots[..k + 1][..k] == roots[..k] && slots[..k + 1][..k] == slots[..k];
  }

  /**
   * `GCRoots::populate_profiles`: files the roots into the profiles in
   * place and returns, in input order, the roots that belong to none.
   */
  method PopulateProfiles(roots: seq<GCRoot>, profiles: array<Profile>) returns (standalone: seq<GCRoot>)
    modifies profiles
    ensures var g := Populate(roots, old(profiles[..]));
      profiles[..] == g.profiles && standalone == g.standalone
  {
    ghost var ps := profiles[..];
    ghost var slots := SlotsOf(roots, PathsOf(ps));
    standalone := [];
    var k := 0;
    while k < |roots|
      invariant k <= |roots|
      invariant PopulateWith(roots[..k], slots[..k], ps) == GCRoots(profiles[..], standalone)
    {
      SamePaths(profiles[..], ps);
      var slot := Slot(roots[k], PathsOf(profiles[..]));
      PopulateStep(roots, slots, ps, k);
      if slot.None? {
        standalone := standalone + [roots[k]];
      } else {
        var (j, gen) := slot.value;
        var p := profiles[j];
        profiles[j] := p.(generations := p.generations[gen := roots[k]]);
      }
      k := k + 1;
    }
    assert roots[..k] == roots && slots[..k] == slots;
  }

  // ---- Grouping ----------------------------------------------------------

  /** The derived `Ord for GCRoot`: by path, then by target, each component-wise. */
  predicate RootLess(a: GCRoot, b: GCRoot)
  {
    PathLess(a.path, b.path) || (SamePath(a.path, b.path) && PathLess(a.target, b.target))
  }

  predicate RootLe(a: GCRoot, b: GCRoot)
  {
    !RootLess(b, a)
  }

  /** Roots are totally ordered up to equal paths and equal targets. */
  lemma RootLessStrict(a: GCRoot, b: GCRoot, c: GCRoot)
    ensures RootLess(a, b) && RootLess(b, c) ==> RootLess(a, c)
    ensures RootLess(a, b) ==> !RootLess(b, a)
    ensures !RootLess(a, b) && !RootLess(b, a) ==> SamePath(a.path, b.path) && SamePath(a.target, b.target)
  {
    PathLessStrict(a.path, b.path, c.path);
    PathLessStrict(a.target, b.target, c.target);
  }

  lemma RootOrder()
    ensures TotalPreorder(RootLe)
  {
    forall a, b ensures RootLe(a, b) || RootLe(b, a) {
      RootLessStrict(a, b, b);
    }
    forall a, b, c | RootLe(a, b) && RootLe(b, c) ensures RootLe(a, c) {
      if RootLess(c, a) {
        RootLessStrict(c, a, b);
        if RootLess(a, b) {
          RootLessStrict(c, a, b);
        } else {
          RootLessStrict(a, b, b);
        }
      }
    }
  }

  /** `sort_unstable` on the standalone roots. */
  method SortRoots(roots: seq<GCRoot>) returns (sorted: seq<GCRoot>)
    ensures Sorted(sorted, RootLe) && multiset(sorted) == multiset(roots)
  {
    RootOrder();
    sorted := Sort(roots, RootLe);
  }

  /** The discovered profiles as `create_profiles` returned them: generations not yet filed. */
  function Cleared(ps: seq<Profile>): (qs: seq<Profile>)
    ensures SameProfiles(qs, ps)
    ensures forall j :: 0 <= j < |qs| ==> qs[j].generations == map[]
  {
    seq(|ps|, j requires 0 <= j < |ps| => ps[j].(generations := map[]))
  }

  /**
   * What `group_gcroots` returns: profiles discovered from the roots, each
   * root filed into them as `populate_profiles` does, and the rest sorted.
   */
  ghost predicate Grouped(g: GCRoots, roots: seq<GCRoot>, fs: FileSystem)
  {
    var ps := Cleared(g.profiles);
    var p := Populate(roots, ps);
    && Discovered(ps, roots, fs)
    && g.profiles == p.profiles
    && Sorted(g.standalone, RootLe)
    && multiset(g.standalone) == multiset(p.standalone)
  }

  /** Filing roots into profiles with empty generation maps and clearing the maps again gives them back. */
  lemma ClearedPopulated(roots: seq<GCRoot>, ps: seq<Profile>)
    requires forall j :: 0 <= j < |ps| ==> ps[j].generations == map[]
    ensures Cleared(Populate(roots, ps).profiles) == ps
  {
  }

  /** The profiles in a fresh array, for `populate_profiles` to update in place. */
  method ToArray(ps: seq<Profile>) returns (a: array<Profile>)
    ensures fresh(a) && a[..] == ps
  {
    a := new Profile[|ps|](j requires 0 <= j < |ps| => ps[j]);
  }

  /** `GCRoots::group_gcroots`. */
  method GroupGCRoots(roots: seq<GCRoot>, fs: FileSystem) returns (r: Result<GCRoots, Error>)
    ensures r.Failure? ==>
      exists c :: c in Candidates(roots, fs) && ReadActiveGeneration(fs, c) == Failure(r.error)
    ensures (forall c :: c in Candidates(roots, fs) ==> ReadActiveGeneration(fs, c).Success?) ==>
      r.Success?
    ensures r.Success? ==> Grouped(r.value, roots, fs)
  {
    var created := CreateProfiles(roots, fs);
    if created.Failure? {
      return Failure(created.error);
    }
    var ps := created.value;
    var profiles := ToArray(ps);
    var standalone := PopulateProfiles(roots, profiles);
    ClearedPopulated(roots, ps);
    standalone := SortRoots(standalone);
    r := Success(GCRoots(profiles[..], standalone));
  }

  /** A root has no slot exactly when it is listed by `Unplaced`. */
  lemma {:induction false} UnplacedIff(roots: seq<GCRoot>, slots: seq<Option<(nat, u64)>>, x: GCRoot)
    requires |slots| == |roots|
    ensures x in Unplaced(roots, slots) <==> exists k :: 0 <= k < |roots| && roots[k] == x && slots[k].None?
    decreases |roots|
  {
    if roots != [] {
      var n := |roots| - 1;
      UnplacedIff(roots[..n], slots[..n], x);
      assert forall k :: 0 <= k < n ==> roots[..n][k] == roots[k] && slots[..n][k] == slots[k];
    }
  }

  /** The discovered profiles are the grouped ones with their generations cleared, same paths. */
  lemma GroupedPaths(g: GCRoots, roots: seq<GCRoot>, fs: FileSystem)
    requires Grouped(g, roots, fs)
    ensures PathsOf(Cleared(g.profiles)) == PathsOf(g.profiles)
    ensures forall j :: 0 <= j < |g.profiles| ==> Cleared(g.profiles)[j].generations == map[]
    ensures g.profiles == PopulateWith(roots, SlotsOf(roots, PathsOf(g.profiles)), Cleared(g.profiles)).profiles
  {
  }

  /**
   * A grouped root is standalone exactly when it is filed nowhere: it names
   * no generation, or its profile path is not spelled as a profile's path.
   */
  lemma GroupedStandalone(g: GCRoots, roots: seq<GCRoot>, fs: FileSystem, x: GCRoot)
    requires Grouped(g, roots, fs)
    ensures x in g.standalone <==>
      exists k :: 0 <= k < |roots| && roots[k] == x && Slot(roots[k], PathsOf(g.profiles)).None?
  {
    var ps := Cleared(g.profiles);
    GroupedPaths(g, roots, fs);
    var slots := SlotsOf(roots, PathsOf(ps));
    PopulateStandalone(roots, slots, ps);
    UnplacedIff(roots, slots, x);
    assert x in g.standalone <==> x in multiset(g.standalone);
    assert x in Unplaced(roots, slots) <==> x in multiset(Unplaced(roots, slots));
  }

  /**
   * Profile j of a grouping holds generation gen exactly when some root is
   * filed under (j, gen), and then holds the last such root.
   */
  lemma GroupedGenerations(g: GCRoots, roots: seq<GCRoot>, fs: FileSystem, j: nat, gen: u64)
    requires Grouped(g, roots, fs) && j < |g.profiles|
    ensures var slots := SlotsOf(roots, PathsOf(g.profiles));
      gen in g.profiles[j].generations <==> exists k :: 0 <= k < |roots| && slots[k] == Some((j, gen))
    ensures forall k :: LastFiled(SlotsOf(roots, PathsOf(g.profiles)), k, j, gen) ==>
      gen in g.profiles[j].generations && g.profiles[j].generations[gen] == roots[k]
  {
    GroupedPaths(g, roots, fs);
    PopulateGenerations(roots, SlotsOf(roots, PathsOf(g.profiles)), Cleared(g.profiles), j, gen);
  }

  /**
   * With no two roots filed under the same profile and generation, nothing
   * is lost: the generations and the standalone roots add up to the roots.
   */
  lemma GroupedKeepsEveryRoot(g: GCRoots, roots: seq<GCRoot>, fs: FileSystem)
    requires Grouped(g, roots, fs)
    requires NoSharedSlot(SlotsOf(roots, PathsOf(g.profiles)))
    ensures TotalGenerations(g.profiles) + |g.standalone| == |roots|
  {
    var ps := Cleared(g.profiles);
    GroupedPaths(g, roots, fs);
    var slots := SlotsOf(roots, PathsOf(ps));
    PopulateKeepsEveryRoot(roots, slots, ps);
    assert |g.standalone| == |multiset(g.standalone)|;
  }

  /**
   * The link Nix makes for generation n of a grouped profile, spelled with
   * the profile's own path, is filed in that profile under n.
   */
  lemma GroupedGenerationLink(g: GCRoots, roots: seq<GCRoot>, fs: FileSystem, j: nat, n: u64, k: nat)
    requires Grouped(g, roots, fs) && j < |g.profiles| && k < |roots|
    requires roots[k].path == g.profiles[j].path + "-" + Decimal(n) + "-link"
    ensures n in g.profiles[j].generations
  {
    var paths := PathsOf(g.profiles);
    GroupedPaths(g, roots, fs);
    forall i | 0 <= i < j ensures paths[i] != paths[j] {
      PathLessStrict(paths[j], paths[j], paths[j]);
      assert PathLess(Cleared(g.profiles)[i].path, Cleared(g.profiles)[j].path);
    }
    GenerationLinkSlot(paths, j, n, roots[k].target);
    assert roots[k] == GCRoot(paths[j] + "-" + Decimal(n) + "-link", roots[k].target);
    GroupedGenerations(g, roots, fs, j, n);
  }

  // ---- Display -------------------------------------------------------------

  /**
   * `Display for GCRoots`: the profiles separated by blank lines, then,
   * when there are standalone roots, a blank line and one line per root.
   */
  function Text(g: GCRoots): string
  {
    Join(ProfileTexts(g.profiles), "\n\n") + (if |g.standalone| > 0 then "\n\n" else "") + Join(Texts(g.standalone), "\n")
  }

  /** The lines of the profiles, one empty line between consecutive profiles. */
  function ProfileLines(ps: seq<Profile>): (ls: seq<string>)
    ensures ps != [] ==> ls != []
  {
    if |ps| == 0 then []
    else if |ps| == 1 then Lines(ps[0])
    else ProfileLines(ps[..|ps| - 1]) + [""] + Lines(ps[|ps| - 1])
  }

  /**
   * The printed listing line by line, when there is a profile: the
   * profiles' lines with an empty line between two profiles, then, when
   * there are standalone roots, an empty line and one line per root.
   */
  function Listing(g: GCRoots): seq<string>
  {
    ProfileLines(g.profiles) + if |g.standalone| > 0 then [""] + Texts(g.standalone) else []
  }

  /** Joining two non-empty runs of lines puts one separator between them. */
  lemma {:induction false} JoinConcat(a: seq<string>, b: seq<string>, sep: string)
    requires a != [] && b != []
    ensures Join(a + b, sep) == Join(a, sep) + sep + Join(b, sep)
    decreases |b|
  {
    if |b| > 1 {
      var n := |b| - 1;
      JoinConcat(a, b[..n], sep);
      assert (a + b)[..|a + b| - 1] == a + b[..n];
    } else {
      assert (a + b)[..|a + b| - 1] == a;
    }
  }

  /** Consecutive profile blocks are separated by one blank line. */
  lemma {:induction false} ProfileBlocks(ps: seq<Profile>)
    requires ps != []
    ensures Join(ProfileTexts(ps), "\n\n") == Join(ProfileLines(ps), "\n")
    decreases |ps|
  {
    if |ps| > 1 {
      var n := |ps| - 1;
      var init, last := ProfileLines(ps[..n]), Lines(ps[n]);
      var ts := ProfileTexts(ps);
      ProfileBlocks(ps[..n]);
      assert ts[..n] == ProfileTexts(ps[..n]);
      assert Join(ts, "\n\n") == Join(init, "\n") + "\n\n" + Join(last, "\n");
      assert ProfileLines(ps) == (init + [""]) + last;
      JoinConcat(init + [""], last, "\n");
      JoinConcat(init, [""], "\n");
      assert Join([""], "\n") == "";
      BlankLine(Join(init, "\n"), Join(last, "\n"));
    }
  }

  /** A newline, an empty line and a newline make one blank line. */
  lemma BlankLine(a: string, b: string)
    ensures (a + "\n" + "") + "\n" + b == a + "\n\n" + b
  {
    assert (a + "\n" + "") + "\n" + b == a + ("\n" + "\n") + b;
  }

  function ProfileTexts(ps: seq<Profile>): (ts: seq<string>)
    ensures |ts| == |ps| && forall i :: 0 <= i < |ps| ==> ts[i] == Profiles.Text(ps[i])
  {
    seq(|ps|, i requires 0 <= i < |ps| => Profiles.Text(ps[i]))
  }

  /**
   * When there is a profile, the printed text is exactly the lines of
   * `Listing` joined by newlines: one blank line between two profiles, and
   * one blank line before the standalone roots, each on a line of its own.
   */
  lemma TextIsListing(g: GCRoots)
    requires g.profiles != []
    ensures Text(g) == Join(Listing(g), "\n")
  {
    ProfileBlocks(g.profiles);
    Assemble(Join(ProfileTexts(g.profiles), "\n\n"), ProfileLines(g.profiles), Texts(g.standalone));
  }

  /** The profile text followed by the standalone lines, after a blank line when there are any. */
  lemma Assemble(head: string, ls: seq<string>, ts: seq<string>)
    requires ls != [] && head == Join(ls, "\n")
    ensures head + (if |ts| > 0 then "\n\n" else "") + Join(ts, "\n")
      == Join(ls + if |ts| > 0 then [""] + ts else [], "\n")
  {
    if |ts| > 0 {
      BlankBetween(ls, ts);
    } else {
      assert ls + [] == ls;
      assert head + "" + "" == head;
    }
  }

  /** Two runs of lines joined with an empty line between them are two texts with a blank line between them. */
  lemma BlankBetween(a: seq<string>, b: seq<string>)
    requires a != [] && b != []
    ensures Join(a + ([""] + b), "\n") == Join(a, "\n") + "\n\n" + Join(b, "\n")
  {
    assert a + ([""] + b) == (a + [""]) + b;
    JoinConcat(a + [""], b, "\n");
    JoinConcat(a, [""], "\n");
    assert Join([""], "\n") == "";
    BlankLine(Join(a, "\n"), Join(b, "\n"));
  }

  /** With no profiles, the standalone roots still start after a blank line. */
  lemma NoProfilesLeadingBlank(g: GCRoots)
    requires g.profiles == [] && g.standalone != []
    ensures Text(g) == "\n\n" + Join(Texts(g.standalone), "\n")
  {
  }
}
