/**
 * A Nix garbage-collection root (`GCRoot` in src/gcroot.rs): the symlink's
 * own path and the store path it keeps alive; the naming convention that
 * marks a root as a numbered generation of a profile; and the policy that
 * says whether the root may be removed.
 */
module Roots {
  import opened Wrappers
  import opened Strings
  import opened Numbers
  import opened Paths

  datatype GCRoot = GCRoot(path: string, target: string)

  /** The separator between a root's path and its target in the store's listing. */
  const Arrow: string := " -> "

  /** `Display for GCRoot`: "<path> -> <target>". */
  function Text(r: GCRoot): string
  {
    r.path + Arrow + r.target
  }

  // ---- Naming convention of profile generations ------------------------

  /** The literal spellings used below, as concatenations of single separators. */
  lemma Dashes(a: string, b: string, c: string)
    ensures a + "-" + b + "-" + c == a + ['-'] + b + ['-'] + c
    ensures a + "-" + b + "-link" == a + ['-'] + b + ['-'] + "link"
    ensures a + "-" + b == a + ['-'] + b
  {
  }

  lemma PrefixedLinkName(prefix: string, base: string, digits: string)
    ensures prefix + (base + "-" + digits + "-link") == (prefix + base) + "-" + digits + "-link"
    ensures base + ("-" + digits + "-link") == base + "-" + digits + "-link"
    ensures '/' !in digits ==> '/' !in "-" + digits + "-link" && '-' in "-" + digits + "-link"
  {
  }

  /**
   * The generation number in a file name of the form
   * "<name>-<generation>-link": at least two '-', the last piece exactly
   * "link", the piece before it a u64.
   */
  function GenerationOfName(fileName: string): Option<u64>
  {
    if Count(fileName, '-') >= 2 then
      RSplit3Count(fileName, '-');
      var pieces := RSplit3(fileName, '-');
      if pieces[0] == "link" then ParseU64(pieces[1]) else None
    else
      None
  }

  /** `GCRoot::get_profile_gen`: the generation number the root's file name carries. */
  function ProfileGeneration(r: GCRoot): Option<u64>
  {
    match FileName(r.path)
    case None => None
    case Some(name) => GenerationOfName(name)
  }

  /** A root that names a generation has two '-' in its file name, so in its path. */
  lemma PathHasTwoDashes(r: GCRoot)
    requires ProfileGeneration(r).Some?
    ensures |RSplit3(r.path, '-')| == 3
  {
    var name := FileName(r.path).value;
    RSplit3Count(name, '-');
    FileNameWithin(r.path);
    assert Count(name, '-') <= Count(r.path, '-');
    RSplit3Count(r.path, '-');
  }

  /**
   * `GCRoot::get_profile_path`: the root's whole path with its last two
   * '-'-pieces cut off, for a root that names a generation.
   */
  function ProfilePath(r: GCRoot): (p: Option<string>)
    ensures p.Some? <==> ProfileGeneration(r).Some?
  {
    if ProfileGeneration(r).Some? then
      PathHasTwoDashes(r);
      Some(RSplit3(r.path, '-')[2])
    else
      None
  }

  /**
   * A file name is classified as a generation exactly when it is
   * "<name>-<n>-link" with `n` a u64: every accepted name has this shape ...
   */
  lemma GenerationNameShape(fileName: string) returns (base: string, digits: string)
    requires GenerationOfName(fileName).Some?
    ensures fileName == base + "-" + digits + "-link"
    ensures ParseU64(digits) == GenerationOfName(fileName)
  {
    RSplit3Count(fileName, '-');
    var pieces := RSplit3(fileName, '-');
    base, digits := pieces[2], pieces[1];
    Dashes(base, digits, "link");
  }

  /** ... and every name of this shape is accepted, with that number. */
  lemma GenerationOfShapedName(base: string, digits: string)
    requires ParseU64(digits).Some?
    ensures GenerationOfName(base + "-" + digits + "-link") == ParseU64(digits)
  {
    var name := base + "-" + digits + "-link";
    Dashes(base, digits, "link");
    RSplit3Cut(base, '-', digits, "link");
    RSplit3Count(name, '-');
  }

  /** The same two facts for a root, through its file name. */
  lemma ProfileGenerationShape(r: GCRoot) returns (name: string, base: string, digits: string)
    requires ProfileGeneration(r).Some?
    ensures FileName(r.path) == Some(name)
    ensures name == base + "-" + digits + "-link"
    ensures ParseU64(digits) == ProfileGeneration(r)
  {
    name := FileName(r.path).value;
    base, digits := GenerationNameShape(name);
  }

  lemma ProfileGenerationOfShape(r: GCRoot, base: string, digits: string)
    requires FileName(r.path) == Some(base + "-" + digits + "-link")
    requires ParseU64(digits).Some?
    ensures ProfileGeneration(r) == ParseU64(digits)
  {
    GenerationOfShapedName(base, digits);
  }

  /**
   * The profile path and the generation are the two halves of the root's
   * path: the path is the profile path, '-', a piece, '-', a piece.
   */
  lemma ProfilePathSplit(r: GCRoot) returns (middle: string, last: string)
    requires ProfilePath(r).Some?
    ensures r.path == ProfilePath(r).value + "-" + middle + "-" + last
    ensures '-' !in middle && '-' !in last
  {
    PathHasTwoDashes(r);
    var pieces := RSplit3(r.path, '-');
    middle, last := pieces[1], pieces[0];
    Dashes(ProfilePath(r).value, middle, last);
  }

  /**
   * When the path ends with its own file name (no trailing '/' or "/."),
   * profile path + "-" + generation text + "-link" gives back the path.
   */
  lemma ProfilePathRoundTrip(r: GCRoot, prefix: string) returns (digits: string)
    requires ProfilePath(r).Some?
    requires r.path == prefix + FileName(r.path).value
    ensures r.path == ProfilePath(r).value + "-" + digits + "-link"
    ensures ParseU64(digits) == ProfileGeneration(r)
  {
    var name, base, ds := ProfileGenerationShape(r);
    digits := ds;
    PrefixedLinkName(prefix, base, digits);
    Dashes(prefix + base, digits, "link");
    RSplit3Cut(prefix + base, '-', digits, "link");
  }

  /**
   * The link Nix creates for generation `n` of the profile at `profile`,
   * "<profile>-<n>-link", is classified back as generation `n` of `profile`.
   */
  lemma GenerationLinkClassified(profile: string, n: u64, target: string)
    ensures var r := GCRoot(profile + "-" + Decimal(n) + "-link", target);
      ProfileGeneration(r) == Some(n) && ProfilePath(r) == Some(profile)
  {
    var r := GCRoot(profile + "-" + Decimal(n) + "-link", target);
    GenerationLinkNumber(profile, n, target);
    Dashes(profile, Decimal(n), "link");
    RSplit3Cut(profile, '-', Decimal(n), "link");
  }

  /** Any spelling of the generation number, leading zeros or '+' included, is classified the same way. */
  lemma GenerationLinkSpelled(profile: string, digits: string, target: string)
    requires ParseU64(digits).Some?
    ensures var r := GCRoot(profile + "-" + digits + "-link", target);
      ProfileGeneration(r) == ParseU64(digits) && ProfilePath(r) == Some(profile)
  {
    var head := LinkFileName(profile, digits);
    GenerationOfShapedName(head, digits);
    Dashes(profile, digits, "link");
    RSplit3Cut(profile, '-', digits, "link");
  }

  lemma GenerationLinkNumber(profile: string, n: u64, target: string)
    ensures ProfileGeneration(GCRoot(profile + "-" + Decimal(n) + "-link", target)) == Some(n)
  {
    ParseDecimal(n);
    var head := LinkFileName(profile, Decimal(n));
    GenerationOfShapedName(head, Decimal(n));
  }

  lemma LinkFileName(profile: string, digits: string) returns (head: string)
    requires '/' !in digits
    ensures FileName(profile + "-" + digits + "-link") == Some(head + "-" + digits + "-link")
  {
    PrefixedLinkName([], profile, digits);
    FileNameAppend(profile, "-" + digits + "-link");
    var pieces := Split(profile, '/');
    head := pieces[|pieces| - 1];
    PrefixedLinkName([], head, digits);
  }

  // ---- Active generation ------------------------------------------------

  /**
   * The name parse in `GCRoots::read_active_gen`: the second '-'-piece from
   * the right of the link target's file name, read as a u64.  Unlike
   * `GenerationOfName` it does not look at the last piece.
   */
  function ActiveGenerationOfName(fileName: string): Option<u64>
  {
    var pieces := RSplit3(fileName, '-');
    if |pieces| >= 2 then ParseU64(pieces[1]) else None
  }

  /** The generation a profile symlink's target names, if any. */
  function LinkGeneration(link: string): Option<u64>
  {
    match FileName(link)
    case None => None
    case Some(name) => ActiveGenerationOfName(name)
  }

  /** Both parses agree on every file name the generation classifier accepts. */
  lemma ActiveGenerationAgrees(fileName: string)
    requires GenerationOfName(fileName).Some?
    ensures ActiveGenerationOfName(fileName) == GenerationOfName(fileName)
  {
    RSplit3Count(fileName, '-');
  }

  /**
   * With two or more '-', the active-generation parse reads the middle piece
   * whatever the last one is ("x-3-foo" gives 3), while the generation
   * classifier demands "link".
   */
  lemma ActiveGenerationTwoDashes(base: string, digits: string, last: string)
    requires '-' !in digits && '-' !in last
    ensures ActiveGenerationOfName(base + "-" + digits + "-" + last) == ParseU64(digits)
    ensures GenerationOfName(base + "-" + digits + "-" + last) ==
      if last == "link" then ParseU64(digits) else None
  {
    var name := base + "-" + digits + "-" + last;
    Dashes(base, digits, last);
    RSplit3Cut(base, '-', digits, last);
    RSplit3Count(name, '-');
  }

  /** With a single '-', the active-generation parse reads the piece before it ("5-x" gives 5). */
  lemma ActiveGenerationOneDash(first: string, last: string)
    requires '-' !in first && '-' !in last
    ensures ActiveGenerationOfName(first + "-" + last) == ParseU64(first)
    ensures GenerationOfName(first + "-" + last) == None
  {
    var name := first + "-" + last;
    Dashes(first, last, last);
    LastIndexOfCut(first, '-', last);
    assert name[..|first|] == first;
    assert name[|first| + 1..] == last;
    RSplit3Count(name, '-');
  }

  /** A symlink to a generation link as Nix names them, `<profile>-<n>-link`, names generation n. */
  lemma LinkGenerationOfGenerationLink(profile: string, n: u64)
    ensures LinkGeneration(profile + "-" + Decimal(n) + "-link") == Some(n)
  {
    ParseDecimal(n);
    var head := LinkFileName(profile, Decimal(n));
    GenerationOfShapedName(head, Decimal(n));
    ActiveGenerationAgrees(head + "-" + Decimal(n) + "-link");
  }

  // ---- Deletion policy ---------------------------------------------------

  /**
   * What the operating system answers for the calls the code makes:
   * `is_symlink`, `access(R_OK)`, `read_link` (a path absent from `links`
   * fails) and `access(W_OK)` on a parent directory, keyed by its components.
   */
  datatype FileSystem = FileSystem(
    symlinks: set<string>,
    readable: set<string>,
    links: map<string, string>,
    writableDirs: set<seq<Component>>)

  /** `GCRoot::can_delete_file`: the root has a parent directory and it is writable. */
  function CanDeleteFile(fs: FileSystem, path: string): bool
  {
    match Parent(path)
    case None => false
    case Some(dir) => dir in fs.writableDirs
  }

  /** `GCRoot::deletable`: not under "/run" or "/proc" (by components) and removable. */
  function Deletable(fs: FileSystem, r: GCRoot): bool
  {
    !PathStartsWith(r.path, "/run") && !PathStartsWith(r.path, "/proc") && CanDeleteFile(fs, r.path)
  }

  /** A path whose first component below the root is "run" or "proc". */
  predicate UnderRunOrProc(path: string)
  {
    UnderTop(path, "run") || UnderTop(path, "proc")
  }

  /**
   * A root is deletable exactly when it is not under "/run" or "/proc" and its
   * parent directory is writable; in particular never under those two,
   * whatever the permissions, and whether or not it is an active generation.
   */
  lemma DeletableExactlyWhen(fs: FileSystem, r: GCRoot)
    ensures Deletable(fs, r) <==>
      !UnderRunOrProc(r.path) && Parent(r.path).Some? && Parent(r.path).value in fs.writableDirs
  {
    StartsWithRunOrProc(r.path);
  }
}
