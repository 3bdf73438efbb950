# gcrs garbage-collection roots, modelled in Dafny

gcrs lists the garbage-collection roots of a Nix store. It reads the lines of
`nix-store --gc --print-roots` ("<path> -> <target>"), recognises the roots
that are numbered generations of a profile ("<profile>-<n>-link"), groups
them under their profiles, and prints each profile with its generations, the
active one marked, followed by the roots that belong to no profile. It also
decides whether a root may be deleted. All of this lives in `src/gcroot.rs`,
which this project models.

Modules, one concept each:

- `Wrappers`: `Option` and `Result`.
- `Strings`: the `str` operations the code uses, on `seq<char>`: `rsplitn(3, c)` and `rsplit_once`. Also `Split` and `Join`, which the code does not call: `Split` at '/' is how `Paths` computes `Path::components`, and `Join` is how the `Display` implementations are assembled from their lines.
- `Numbers`: `u64`, `str::parse::<u64>`, `{}` formatting, `checked_ilog10` and right-aligned padding.
- `Paths`: the Unix behaviour of `camino::Utf8Path`: components, `file_name`, `parent`, component-wise `starts_with`, and the component-wise `Ord`/`PartialEq`.
- `Sorting`: `sort_unstable` (sorted and a permutation) and `Vec::dedup` on a sorted vector.
- `Roots`: `GCRoot`, its generation classifier (`get_profile_gen`, `get_profile_path`), the name parse of `read_active_gen`, and `deletable`.
- `Profiles`: `Profile` and its `Display`.
- `Grouping`: the line parser, `create_profiles`, `populate_profiles`, `group_gcroots` and `Display for GCRoots`.

The file system is a value, `Roots.FileSystem`, that holds the answers the
operating system would give:

- which paths are symlinks (`is_symlink`);
- which are readable (`access(R_OK)`);
- what `read_link` returns (a path missing from the map makes it fail);
- which parent directories are writable (`access(W_OK)`).

`populate_profiles` updates the profiles in place through `&mut [Profile]`.
It is modelled as a method on an `array<Profile>`, proved against the
function `Grouping.Populate`. The other imperative steps are methods with
loops proved against functions and predicates:

- sorting and de-duplicating the profile paths;
- the `for` loop that reads each profile's active generation;
- the final sorts.

The iterator chain that collects the profile paths (`map`, `filter_map`,
`filter`, `collect`) builds a value without updating anything, so it is the
recursive function `Grouping.KeepSymlinks` over the roots' profile paths.

## Model

| member | source | states |
|---|---|---|
| Strings.LastIndexOf | src/gcroot.rs:34 | the index of the last `c`, or none exactly when `c` does not occur |
| Strings.RSplit3 | src/gcroot.rs:34 | `rsplitn(3, c)`: one to three pieces, rightmost first, that rejoin with `c` into the text; the two right pieces contain no `c` |
| Strings.RSplit3Count | src/gcroot.rs:33-34 | there are three pieces exactly when `c` occurs at least twice |
| Strings.RSplit3Cut | src/gcroot.rs:34 | a text `a c b c z`, with `c` absent from `b` and `z`, splits into `[z, b, a]` |
| Strings.LastOccurrence | src/gcroot.rs:137-138 | `rsplit_once` finds the last occurrence of the pattern: it occurs there and at no later position, and none is found only when it occurs nowhere |
| Strings.Join | src/gcroot.rs:223-245 | the pieces with the separator between consecutive ones, as both `Display` implementations print their lines; `Strings.SplitJoin` makes it the inverse of `Split` |
| Strings.Split | src/gcroot.rs:32 | the pieces between the separators, from which `Paths.Components` builds the components behind `file_name`: at least one piece, none containing the separator |
| Strings.SplitJoin | src/gcroot.rs:32 | joining the pieces of `Split` with the separator gives the text back, so the components lose nothing of the path |
| Strings.SplitPiecesWithin | src/gcroot.rs:32 | every piece is made of characters of the text |
| Strings.SplitAppend | src/gcroot.rs:32 | appending text without the separator only extends the last piece |
| Numbers.ParseU64 | src/gcroot.rs:36 | `parse::<u64>` accepts exactly an optional '+' followed by a non-empty run of ASCII digits whose value is at most 2^64 - 1, and returns that value; accepted text holds no '-' or '/' |
| Numbers.Decimal | src/gcroot.rs:90 | `{}` formatting of a number is a non-empty digit string with no sign |
| Numbers.ValueOfDecimal | src/gcroot.rs:90 | the digits of the formatted number denote that number |
| Numbers.ParseDecimal | src/gcroot.rs:36 | parsing inverts formatting on every u64, with or without a leading '+' |
| Numbers.ParseRejectsOverflow | src/gcroot.rs:36 | a number above 2^64 - 1 is rejected, not wrapped |
| Numbers.ParseLeadingZero | src/gcroot.rs:36 | leading zeros are accepted and do not change the value |
| Numbers.DecimalLength | src/gcroot.rs:81-86 | a positive number has `1 + checked_ilog10` digits |
| Numbers.DecimalLengthMonotonic | src/gcroot.rs:81-86 | a smaller number never has more digits |
| Numbers.PadLeft | src/gcroot.rs:90-92 | `{: >w$}`: the text right-aligned with spaces in a field at least `w` wide |
| Paths.Components | src/gcroot.rs:32 | after the first component come only `..` and normal names |
| Paths.FileName | src/gcroot.rs:32 | a file name, when present, is a proper name: non-empty, not `.` or `..`, no '/' |
| Paths.FileNameWithin | src/gcroot.rs:32 | the file name is made of characters of the path |
| Paths.FileNameAppend | src/gcroot.rs:32 | appending a '/'-free piece containing '-' extends the last piece, which becomes the file name |
| Paths.FileNameOfLastPiece | src/gcroot.rs:32 | a path whose last piece is a proper name has that name as its file name |
| Paths.PathStartsWith | src/gcroot.rs:49-50 | `Path::starts_with`: the components of the base are a prefix of the path's components; `Paths.StartsWithRunOrProc` states what it means for "/run" and "/proc" |
| Paths.PathLess | src/gcroot.rs:168 | `Ord for Path`: lexicographic order on components; `Paths.PathLessStrict` proves it a strict total order up to `Paths.SamePath` |
| Paths.SamePath | src/gcroot.rs:169 | `PartialEq for Path`, which `dedup` uses: equal component lists ("a//b" equals "a/b") |
| Paths.Parent | src/gcroot.rs:55 | the parent is the component list without its last component |
| Paths.AbsoluteComponents | src/gcroot.rs:49-50 | "/run" and "/proc" are the root followed by one normal component |
| Paths.StartsWithRunOrProc | src/gcroot.rs:49-50 | `starts_with("/run")` (`"/proc"`) holds exactly when the first two components are the root and `run` (`proc`) |
| Paths.StrLessStrict | src/gcroot.rs:168 | byte order on names is a strict total order |
| Paths.ComponentsLessStrict | src/gcroot.rs:168 | component order is a strict total order on component lists |
| Paths.PathLessStrict | src/gcroot.rs:168 | `Ord for Path` is a strict total order up to `PartialEq for Path` (equal components) |
| Roots.Text | src/gcroot.rs:61-65 | `Display for GCRoot`: path, " -> ", target; `Grouping.ParseOfPrintedRoot` reads it back |
| Roots.GenerationOfName | src/gcroot.rs:33-43 | the classifier on a file name: with at least two '-', the last piece must be "link" and the middle piece parses as the generation; `Roots.GenerationNameShape` and `Roots.GenerationOfShapedName` state the accepted names in both directions |
| Roots.ProfileGeneration | src/gcroot.rs:31-44 | `get_profile_gen`: `GenerationOfName` of the path's file name, none without a file name; `Roots.ProfileGenerationShape` and `Roots.ProfileGenerationOfShape` state it in both directions |
| Roots.PathHasTwoDashes | src/gcroot.rs:24-27 | a root that names a generation has at least two '-' in its whole path, so `rsplitn(3, '-')` on the path yields three pieces |
| Roots.ProfilePath | src/gcroot.rs:24-27 | `get_profile_path` is present exactly when `get_profile_gen` is |
| Roots.GenerationNameShape | src/gcroot.rs:31-44 | every accepted file name is `<base>-<digits>-link` with the generation parsed from `digits` |
| Roots.GenerationOfShapedName | src/gcroot.rs:31-44 | every `<base>-<digits>-link` whose digits parse is accepted with that number |
| Roots.ProfileGenerationShape | src/gcroot.rs:31-44 | the same for a root, through its path's file name |
| Roots.ProfileGenerationOfShape | src/gcroot.rs:31-44 | a root whose file name has the shape is classified with the parsed number |
| Roots.ProfilePathSplit | src/gcroot.rs:24-27 | the path is the profile path, '-', a '-'-free piece, '-', a '-'-free piece |
| Roots.ProfilePathRoundTrip | src/gcroot.rs:24-27 | when the path ends in its file name, profile path + "-" + generation digits + "-link" is the path |
| Roots.GenerationLinkClassified | src/gcroot.rs:24-44 | the link Nix makes for generation n of a profile is classified as generation n of that profile |
| Roots.GenerationLinkSpelled | src/gcroot.rs:24-44 | the same for any spelling of the number that parses, e.g. with leading zeros |
| Roots.GenerationLinkNumber | src/gcroot.rs:31-44 | the generation of `<profile>-<n>-link` is n |
| Roots.LinkFileName | src/gcroot.rs:32 | the file name of `<profile>-<digits>-link` ends with `-<digits>-link` |
| Roots.ActiveGenerationOfName | src/gcroot.rs:187-188 | the second piece of `rsplitn(3, '-')` parsed as a number, none without a '-'; `Roots.ActiveGenerationAgrees`, `Roots.ActiveGenerationTwoDashes` and `Roots.ActiveGenerationOneDash` compare it with the classifier |
| Roots.LinkGeneration | src/gcroot.rs:186-188 | the file name of the link target, then `ActiveGenerationOfName`; none without a file name; `Roots.LinkGenerationOfGenerationLink` states it for Nix's generation links |
| Roots.ActiveGenerationAgrees | src/gcroot.rs:186-188 | the active-generation parse gives the same number as `get_profile_gen` on every name the latter accepts |
| Roots.ActiveGenerationTwoDashes | src/gcroot.rs:186-188 | with two '-', the active parse reads the middle piece whatever the last one is ("x-3-foo" gives 3); the classifier demands "link" |
| Roots.ActiveGenerationOneDash | src/gcroot.rs:186-188 | with one '-', the active parse reads the piece before it, which the classifier rejects |
| Roots.LinkGenerationOfGenerationLink | src/gcroot.rs:185-188 | a profile symlink pointing at `<profile>-<n>-link` has generation n active |
| Roots.CanDeleteFile | src/gcroot.rs:54-58 | the path has a parent and that parent is writable; false without a parent |
| Roots.Deletable | src/gcroot.rs:48-52 | not under "/run" or "/proc" by components, and `CanDeleteFile`; `Roots.DeletableExactlyWhen` states it as an equivalence |
| Roots.DeletableExactlyWhen | src/gcroot.rs:48-58 | a root is deletable exactly when it is not under "/run" or "/proc" by components and has a writable parent; the active generation is not consulted |
| Profiles.Max | src/gcroot.rs:81-85 | the largest key is a key and bounds all keys |
| Profiles.Descending | src/gcroot.rs:87 | `iter().rev()` visits every key once, strictly decreasing |
| Profiles.Width | src/gcroot.rs:81-86 | `1 + checked_ilog10` of the largest generation, 1 with no generation or a largest of 0; `Profiles.WidthFits` makes it the digit count of the largest |
| Profiles.WidthFits | src/gcroot.rs:81-86 | every generation number fits the padding width, and the largest fills it |
| Profiles.GenerationLine | src/gcroot.rs:88-93 | one generation's line: marker, the number right-aligned to `Width`, " -> ", the target; `Profiles.GenerationLineLayout`, `Profiles.GenerationLineNumber` and `Profiles.MarkedIffActive` state its layout |
| Profiles.GenerationLines | src/gcroot.rs:87-94 | one line per given generation, in the given order |
| Profiles.Lines | src/gcroot.rs:78-97 | the path, then the lines of the generations from the largest down; `Profiles.LineAt` and `Profiles.AtMostOneMarked` state them |
| Profiles.Text | src/gcroot.rs:78-97 | `Display for Profile`: `Lines` joined by newlines, with no trailing newline |
| Profiles.GenerationLineLayout | src/gcroot.rs:87-93 | each generation line is a 2-character marker, a field exactly the width whose padding is spaces, the arrow, then the target; so the arrows line up |
| Profiles.GenerationLineNumber | src/gcroot.rs:87-93 | the number's digits fit the width and end the field, right before the arrow (right alignment) |
| Profiles.MarkedIffActive | src/gcroot.rs:89-93 | a line starts with "> " exactly when its generation is the active one |
| Profiles.LineAt | src/gcroot.rs:80-94 | line i after the path belongs to the i-th largest generation and is marked exactly when that generation is active |
| Profiles.AtMostOneMarked | src/gcroot.rs:78-97 | the rendering is the path plus one line per generation, and at most one line is marked |
| Profiles.MarkedWhenActivePresent | src/gcroot.rs:78-97 | a line is marked exactly when the active generation is among the profile's roots |
| Sorting.Sort | src/gcroot.rs:154 | `sort_unstable`: the result is sorted and a permutation of the input |
| Sorting.Insert | src/gcroot.rs:154 | inserting into a sorted sequence keeps it sorted and adds exactly the element |
| Sorting.InsertSorted | src/gcroot.rs:154 | an element placed after everything not greater and before everything not smaller leaves the sequence sorted |
| Sorting.StrictlySortedIsFixed | src/gcroot.rs:179 | a strictly ordered sequence is its own only sorted permutation |
| Sorting.Dedup | src/gcroot.rs:169 | `dedup` on a sorted vector yields a strictly increasing subsequence that has an equal of every input element |
| Grouping.CutAt | src/gcroot.rs:137-139 | the line cut at its last " -> " (`rsplit_once`); defined only for lines holding the arrow, where the source panics otherwise; `Grouping.CutAtRejoins` and `Grouping.CutAtPrinted` state the cut both ways |
| Grouping.Excluded | src/gcroot.rs:141 | the paths the parser drops: text starting with "/proc", or starting with '{' and ending with '}' |
| Grouping.ParseLine | src/gcroot.rs:136-149 | `parse_nix_store_gc_line`: the cut line as a root, or nothing for an excluded path; `Grouping.ParsedRootPrintsLine` and `Grouping.ParseOfPrintedRoot` make it the inverse of `Roots.Text` |
| Grouping.ParseLines | src/gcroot.rs:129-133 | the roots of the lines, in order, dropping those `ParseLine` rejects; `Grouping.ParseLinesPrintsKeptLines` states what survives |
| Grouping.CutAtRejoins | src/gcroot.rs:137-138 | the two halves of a cut line rejoin with " -> " into the line, and the target holds no further arrow |
| Grouping.NoLaterArrow | src/gcroot.rs:137-138 | a printed root with an arrow-free target has no arrow after the one between path and target |
| Grouping.CutAtPrinted | src/gcroot.rs:137-138 | a line printed from a path and an arrow-free target is cut back into them |
| Grouping.ParsedRootPrintsLine | src/gcroot.rs:136-149 | a parsed root's `Display` reproduces the line; its target is arrow free and its path is not excluded |
| Grouping.ParseOfPrintedRoot | src/gcroot.rs:61-65 | parsing a printed root gives it back, and gives nothing exactly when its path starts with "/proc" or is `{...}` |
| Grouping.TargetStartingWithArrow | src/gcroot.rs:136-149 | a target starting with "-> " is not read back: "a -> -> b" parses as path "a ->" and target "b" |
| Grouping.ParseLinesPrintsKeptLines | src/gcroot.rs:129-133 | printing the parsed roots of a listing gives exactly its non-excluded lines, in order |
| Grouping.KeepSymlinks | src/gcroot.rs:164-167 | the present profile paths that are symlinks, in order and with repeats (`filter_map`, `filter`, `collect`); `Grouping.KeepSymlinksIff` states membership |
| Grouping.Candidates | src/gcroot.rs:162-167 | `KeepSymlinks` over `get_profile_path` of every root; `Grouping.CandidateIff` states membership |
| Grouping.KeepSymlinksIff | src/gcroot.rs:165-166 | a name is kept exactly when some present entry is that name and it is a symlink |
| Grouping.CandidateIff | src/gcroot.rs:162-167 | a candidate is exactly the profile path of some root that is a symlink |
| Grouping.ReadActiveGeneration | src/gcroot.rs:183-192 | fails exactly when the profile is readable and `read_link` fails, with that path; an unreadable profile has no known active generation |
| Grouping.ActiveGenerationOfGenerationLink | src/gcroot.rs:183-192 | a readable profile pointing at its generation-n link has generation n active |
| Grouping.PathOrder | src/gcroot.rs:168-169 | the path order sorts (total preorder) and dedups (strict order up to path equality) |
| Grouping.ProfileLeTotalPreorder | src/gcroot.rs:179 | ordering profiles by path is a total preorder |
| Grouping.SortDedupPaths | src/gcroot.rs:168-169 | the sorted and deduplicated paths are strictly increasing, all candidates, and have an equal of every candidate |
| Grouping.SortProfilesByPath | src/gcroot.rs:179 | the closing sort by path leaves the strictly ordered profiles unchanged |
| Grouping.DiscoveredFromPaths | src/gcroot.rs:170-178 | one profile per deduplicated path, with empty maps and the read active generation, is what `create_profiles` promises |
| Grouping.ReadProfiles | src/gcroot.rs:170-178 | on success one profile per path, in order, with empty maps and the read active generation, so every read succeeded; a failure carries the error of a failing read |
| Grouping.CreateProfiles | src/gcroot.rs:161-181 | on success the profiles are strictly ordered by path, each a candidate, maps empty, active generation read from disk, and every candidate has an equal path among them; a failure is a failing candidate read, and none fails means success |
| Grouping.FindProfile | src/gcroot.rs:204-207 | `find` returns the first profile whose path is spelled exactly as the profile path, and none when no path is |
| Grouping.Slot | src/gcroot.rs:201-212 | a filed root names one of the profiles |
| Grouping.SlotMeaning | src/gcroot.rs:201-212 | a root is filed exactly when it names a generation and its profile path is spelled as a profile's path; it goes to the first such profile under its generation |
| Grouping.GenerationLinkSlot | src/gcroot.rs:201-212 | the generation-n link of profile j is filed under (j, n) |
| Grouping.SpelledLinkSlot | src/gcroot.rs:201-212 | so is a link whose number is spelled differently, under the parsed number |
| Grouping.SpellingsShareSlot | src/gcroot.rs:213-214 | "<p>-1-link" and "<p>-01-link" are filed under the same slot, so the later replaces the earlier |
| Grouping.SlotsOf | src/gcroot.rs:200-212 | one slot per root, each naming one of the profiles |
| Grouping.PopulateWith | src/gcroot.rs:198-220 | filing roots changes only the generation maps: paths and active generations stay |
| Grouping.Unplaced | src/gcroot.rs:215-216 | the unfiled roots are no more than the roots |
| Grouping.PopulateStandalone | src/gcroot.rs:215-216 | the standalone list is exactly the unfiled roots in input order |
| Grouping.PopulateGenerations | src/gcroot.rs:213-214 | a profile holds a generation afterwards exactly when it held it or a root was filed there; it holds the last root filed there, or its old entry when none was |
| Grouping.TotalGenerationsUpdate | src/gcroot.rs:214 | replacing one map changes the total generation count by the difference of sizes |
| Grouping.TotalGenerationsEmpty | src/gcroot.rs:176 | profiles with empty maps hold no generations |
| Grouping.FilingAddsOne | src/gcroot.rs:214 | inserting a new generation adds one to the total |
| Grouping.PlacingAddsOne | src/gcroot.rs:200-219 | with no shared slot, each further root adds exactly one to generations plus standalone roots |
| Grouping.PopulateKeepsEveryRoot | src/gcroot.rs:198-220 | from empty maps, with no two roots in one slot, generations plus standalone roots number the roots |
| Grouping.Populate | src/gcroot.rs:198-220 | `populate_profiles` as a function: every root filed at its `Slot` among the profiles' paths, in input order; `Grouping.PopulateWith`, `Grouping.PopulateStandalone` and `Grouping.PopulateGenerations` state its result |
| Grouping.PopulateProfiles | src/gcroot.rs:198-220 | the profiles array and the returned standalone list are what `Populate` gives for the roots and the old profiles |
| Grouping.RootLess | src/gcroot.rs:12 | the derived `Ord for GCRoot`: by path, then by target, each component-wise; `Grouping.RootLessStrict` proves it a strict order |
| Grouping.RootLessStrict | src/gcroot.rs:12 | the derived `Ord for GCRoot` (path, then target) is a strict order, total up to equal paths and targets |
| Grouping.RootOrder | src/gcroot.rs:154 | the root order is a total preorder, so `sort_unstable` applies |
| Grouping.SortRoots | src/gcroot.rs:154 | the standalone roots come out sorted and as a permutation |
| Grouping.Cleared | src/gcroot.rs:173-177 | the profiles as `create_profiles` builds them from populated ones: the same number, each path and active generation kept, every generation map empty |
| Grouping.ClearedPopulated | src/gcroot.rs:152-153 | filing roots into empty profiles and clearing the maps gives the profiles back |
| Grouping.GroupGCRoots | src/gcroot.rs:151-159 | on success the profiles are discovered and populated and the standalone roots are sorted and a permutation of the unfiled ones; a failure is a failing candidate read, and none fails means success |
| Grouping.UnplacedIff | src/gcroot.rs:215-216 | a root is unplaced exactly when it occurs with no slot |
| Grouping.GroupedStandalone | src/gcroot.rs:151-159 | a root is standalone exactly when it is not filed into any profile |
| Grouping.GroupedGenerations | src/gcroot.rs:151-159 | a profile holds a generation exactly when some root is filed under that profile and generation, and it holds the last such root |
| Grouping.GroupedKeepsEveryRoot | src/gcroot.rs:151-159 | with no shared slots, generations plus standalone roots number the input roots |
| Grouping.GroupedGenerationLink | src/gcroot.rs:151-159 | the generation-n link spelled with a grouped profile's own path is among that profile's generations under n |
| Grouping.Text | src/gcroot.rs:223-245 | `Display for GCRoots`: the profiles' texts joined by blank lines, then, with standalone roots, a blank line and the roots one per line; `Grouping.TextIsListing` and `Grouping.NoProfilesLeadingBlank` state it line by line |
| Grouping.ProfileLines | src/gcroot.rs:225-234 | the profiles' lines with one empty line between consecutive profiles; non-empty when there is a profile |
| Grouping.Listing | src/gcroot.rs:223-245 | the expected listing line by line: `ProfileLines`, then an empty line and one line per standalone root when there are any |
| Grouping.ProfileBlocks | src/gcroot.rs:225-234 | joining the profiles' texts with a blank line between them is joining all their lines by newlines, an empty line between two profiles |
| Grouping.TextIsListing | src/gcroot.rs:223-245 | with at least one profile, the printed text is exactly `Listing` joined by newlines: one blank line between profiles, one blank line before the standalone roots, one root per line, no trailing newline |
| Grouping.NoProfilesLeadingBlank | src/gcroot.rs:223-245 | with no profiles, the standalone roots are still preceded by a blank line |

## Left out

- Running `nix-store --gc --print-roots`, its exit status and the UTF-8 decoding of its output (src/gcroot.rs:109-128) are I/O. `Grouping.ParseLines` takes the output already cut into lines; `str::lines` itself is not modelled.
- The file-system calls `is_symlink`, `access(R_OK)`, `access(W_OK)` and `read_link_utf8` are foreign OS calls. They are answers held in `Roots.FileSystem`. The writable-directory answer is keyed by the parent's components.
- `Rc<Utf8Path>` sharing is a memory-management detail; paths are plain strings.
- `eyre` error details are not modelled: a failing `read_link` is `ReadLinkFailed(path)` and nothing more.
- src/lib.rs, src/args.rs and src/main.rs are command-line dispatch and printing, with no logic of their own. They are not part of this model.
- Strings are sequences of Unicode scalar values, not UTF-8 bytes. The byte order that `Ord` uses on names is modelled as code-point order, which agrees with it.
- Grouping.ParseOfPrintedRoot: requires the target to be arrow free. The source reads a target that starts with "-> " or contains " -> " differently (`Grouping.TargetStartingWithArrow`), so the round trip holds only for such targets.
- Grouping.CreateProfiles: does not say which spelling survives when two candidate paths have equal components but different text (e.g. "a//b" and "a/b"). `sort_unstable` does not fix their order. The contract states only that some equal path is kept.
- Grouping.GroupGCRoots: the standalone roots are stated to be sorted and a permutation, not a specific order among roots with equal components. That is all `sort_unstable` promises.
- Sorting.Dedup: states that the result is strictly increasing, drawn from the input and covering it up to equality. It does not say that the first of each run is the one kept.
- Grouping.Text and Profiles.Text (`Display`) are modelled as functions returning the whole text; the `Formatter` and its write errors are not modelled. Their content is stated line by line through `Profiles.Lines` with the layout lemmas, `Grouping.TextIsListing` and `Grouping.NoProfilesLeadingBlank`.

Behaviour of the code that a reader might not expect, modelled as written:

- `read_active_gen` takes the file name of the raw link target; a relative target is not resolved against the profile's directory.
- `deletable` does not look at whether a generation is active.
- The active-generation parse accepts names that do not end in "link", and names with a single '-' (`Roots.ActiveGenerationTwoDashes`, `Roots.ActiveGenerationOneDash`).
- The parser drops paths that start with the text "/proc" (so "/procfoo" too). `deletable` checks "/proc" and "/run" by components.
- A root whose profile path is spelled differently from the profile's kept path goes to the standalone list, because `populate_profiles` compares text.
- Roots whose numbers parse to the same generation of one profile share a slot ("-1-link" and "-01-link"); the later replaces the earlier.
- With no profiles, `Display for GCRoots` starts the standalone list with a blank line.
