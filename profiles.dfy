/**
 * A Nix profile (`Profile` in src/gcroot.rs): the stable symlink, the
 * generation it currently points to when that could be read, and its
 * generation roots keyed by generation number; and how a profile is
 * rendered for display.
 */
module Profiles {
  import opened Wrappers
  import opened Strings
  import opened Numbers
  import opened Roots

  datatype Profile = Profile(
    path: string,
    activeGeneration: Option<u64>,
    generations: map<u64, GCRoot>)

  predicate IsMax(m: u64, s: set<u64>)
  {
    m in s && forall x :: x in s ==> x <= m
  }

  lemma SetHasMax(s: set<u64>)
    requires s != {}
    ensures exists m :: IsMax(m, s)
  {
    var x :| x in s;
    if forall y :: y in s ==> y <= x {
      assert IsMax(x, s);
    } else {
      var y :| y in s && y > x;
      var rest := s - {x};
      assert y in rest;
      SetHasMax(rest);
      var m :| IsMax(m, rest);
      forall z | z in s
        ensures z <= m
      {
        if z != x {
          assert z in rest;
        } else {
          assert y <= m;
        }
      }
      assert IsMax(m, s);
    }
  }

  /** The largest of a non-empty set of generation numbers. */
  function Max(s: set<u64>): (m: u64)
    requires s != {}
    ensures m in s && forall x :: x in s ==> x <= m
  {
    SetHasMax(s);
    var m :| IsMax(m, s);
    m
  }

  /** The generation numbers from the largest down, the order `BTreeMap::iter().rev()` visits them. */
  function Descending(keys: set<u64>): (ks: seq<u64>)
    ensures forall i, j :: 0 <= i < j < |ks| ==> ks[i] > ks[j]
    ensures forall k :: k in ks <==> k in keys
    ensures |ks| == |keys|
    decreases keys
  {
    if keys == {} then []
    else
      var m := Max(keys);
      var rest := Descending(keys - {m});
      assert |keys - {m}| == |keys| - 1;
      [m] + rest
  }

  /**
   * The width generation numbers are padded to: one more than the base-10
   * logarithm of the largest generation, and 1 when there is none or it is 0.
   */
  function Width(p: Profile): nat
  {
    if p.generations == map[] then 1
    else
      var m := Max(p.generations.Keys);
      1 + (if m == 0 then 0 else ILog10(m))
  }

  /** The width is the digit count of the largest generation, so every generation number fits. */
  lemma WidthFits(p: Profile, id: u64)
    requires id in p.generations
    ensures |Decimal(id)| <= Width(p)
    ensures id == Max(p.generations.Keys) ==> |Decimal(id)| == Width(p)
  {
    var m := Max(p.generations.Keys);
    DecimalLengthMonotonic(id, m);
    if m != 0 {
      DecimalLength(m);
    }
  }

  /** "> " marks the active generation, two spaces every other one. */
  function Marker(p: Profile, id: u64): string
  {
    if p.activeGeneration == Some(id) then "> " else "  "
  }

  /** One generation: marker, the number right-aligned to `Width`, the arrow, the target. */
  function GenerationLine(p: Profile, id: u64): string
    requires id in p.generations
  {
    Marker(p, id) + PadLeft(Decimal(id), Width(p)) + Arrow + p.generations[id].target
  }

  /** The lines of the generations `ks`, in that order. */
  function GenerationLines(p: Profile, ks: seq<u64>): (ls: seq<string>)
    requires forall k :: k in ks ==> k in p.generations
    ensures |ls| == |ks| && forall j :: 0 <= j < |ks| ==> ls[j] == GenerationLine(p, ks[j])
  {
    seq(|ks|, j requires 0 <= j < |ks| => GenerationLine(p, ks[j]))
  }

  /** The profile path, then one line per generation from the newest down. */
  function Lines(p: Profile): seq<string>
  {
    [p.path] + GenerationLines(p, Descending(p.generations.Keys))
  }

  /** `Display for Profile`: the lines joined by newlines. */
  function Text(p: Profile): string
  {
    Join(Lines(p), "\n")
  }

  /**
   * Every generation line has the same layout: a two-character marker, the
   * number right-aligned in a field exactly `Width` wide, the arrow, then the
   * target; so the arrows of one profile line up.
   */
  lemma GenerationLineLayout(p: Profile, id: u64)
    requires id in p.generations
    ensures var w, line := Width(p), GenerationLine(p, id);
      && |line| == w + 6 + |p.generations[id].target|
      && line[2 + w..6 + w] == Arrow
      && line[6 + w..] == p.generations[id].target
      && forall i :: 2 <= i < 2 + w - |Decimal(id)| ==> line[i] == ' '
  {
    WidthFits(p, id);
    Layout(GenerationLine(p, id), Marker(p, id), Decimal(id), Width(p), p.generations[id].target);
  }

  /** The number itself ends the field, just before the arrow. */
  lemma GenerationLineNumber(p: Profile, id: u64)
    requires id in p.generations
    ensures var w, line := Width(p), GenerationLine(p, id);
      |Decimal(id)| <= w && line[2 + w - |Decimal(id)|..2 + w] == Decimal(id)
  {
    WidthFits(p, id);
    NumberField(GenerationLine(p, id), Marker(p, id), Decimal(id), Width(p), p.generations[id].target);
  }

  /** The layout of a marker, a number padded to `w`, the arrow and a target. */
  lemma Layout(line: string, marker: string, d: string, w: nat, t: string)
    requires |marker| == 2 && |d| <= w
    requires line == marker + PadLeft(d, w) + Arrow + t
    ensures && |line| == w + 6 + |t|
      && line[2 + w..6 + w] == Arrow
      && line[6 + w..] == t
      && forall i :: 2 <= i < 2 + w - |d| ==> line[i] == ' '
  {
    var field := PadLeft(d, w);
    Pieces(marker, field, Arrow, t);
    forall i | 2 <= i < 2 + w - |d|
      ensures line[i] == ' '
    {
      assert line[i] == field[i - 2];
    }
  }

  lemma NumberField(line: string, marker: string, d: string, w: nat, t: string)
    requires |marker| == 2 && |d| <= w
    requires line == marker + PadLeft(d, w) + Arrow + t
    ensures line[2 + w - |d|..2 + w] == d
  {
    var field := PadLeft(d, w);
    Pieces(marker, field, Arrow, t);
    SliceOfSlice(line, 2, 2 + w, w - |d|, w);
  }

  /** Where each of four joined pieces sits in the whole. */
  lemma Pieces<T>(a: seq<T>, b: seq<T>, c: seq<T>, d: seq<T>)
    ensures var s := a + b + c + d;
      && |s| == |a| + |b| + |c| + |d|
      && s[|a|..|a| + |b|] == b
      && s[|a| + |b|..|a| + |b| + |c|] == c
      && s[|a| + |b| + |c|..] == d
  {
  }

  lemma SliceOfSlice<T>(s: seq<T>, i: nat, j: nat, k: nat, l: nat)
    requires i <= j <= |s| && k <= l <= j - i
    ensures s[i..j][k..l] == s[i + k..i + l]
  {
    forall m | 0 <= m < l - k
      ensures s[i..j][k..l][m] == s[i + k..i + l][m]
    {
      assert s[i..j][k..l][m] == s[i..j][k + m] == s[i + k + m];
    }
  }

  /** A generation line starts with "> " exactly when it is the active generation's. */
  lemma MarkedIffActive(p: Profile, id: u64)
    requires id in p.generations
    ensures StartsWith(GenerationLine(p, id), "> ") <==> p.activeGeneration == Some(id)
  {
    var line := GenerationLine(p, id);
    assert line[..2] == Marker(p, id);
  }

  /** Line `i` after the path, among the lines of `ks`, is marked exactly when `ks[i - 1]` is active. */
  lemma GenerationLinesMarked(p: Profile, ks: seq<u64>, i: nat)
    requires (forall k :: k in ks ==> k in p.generations) && 1 <= i <= |ks|
    ensures StartsWith(([p.path] + GenerationLines(p, ks))[i], "> ") <==> p.activeGeneration == Some(ks[i - 1])
  {
    assert ks[i - 1] in ks;
    AfterHead(p.path, GenerationLines(p, ks), i);
    MarkedIffActive(p, ks[i - 1]);
  }

  lemma AfterHead<T>(x: T, s: seq<T>, i: nat)
    requires 1 <= i <= |s|
    ensures ([x] + s)[i] == s[i - 1]
  {
  }

  /**
   * Line `i` after the path belongs to the `i`-th largest generation, and it
   * is marked exactly when that generation is active.
   */
  lemma LineAt(p: Profile, i: nat)
    requires 1 <= i < |Lines(p)|
    ensures var ks := Descending(p.generations.Keys);
      |ks| == |Lines(p)| - 1 && ks[i - 1] in p.generations
    ensures var ks := Descending(p.generations.Keys);
      StartsWith(Lines(p)[i], "> ") <==> p.activeGeneration == Some(ks[i - 1])
  {
    var ks := Descending(p.generations.Keys);
    assert ks[i - 1] in ks;
    GenerationLinesMarked(p, ks, i);
  }

  /**
   * The rendering has the path line and one line per generation; at most one
   * line is marked active ...
   */
  lemma AtMostOneMarked(p: Profile)
    ensures |Lines(p)| == |p.generations| + 1 && Lines(p)[0] == p.path
    ensures forall i, j :: 1 <= i < j < |Lines(p)| ==>
      !(StartsWith(Lines(p)[i], "> ") && StartsWith(Lines(p)[j], "> "))
  {
    assert |p.generations.Keys| == |p.generations|;
    forall i, j | 1 <= i < j < |Lines(p)|
      ensures !(StartsWith(Lines(p)[i], "> ") && StartsWith(Lines(p)[j], "> "))
    {
      LineAt(p, i);
      LineAt(p, j);
    }
  }

  /** ... and one is, exactly when the active generation is among the profile's roots. */
  lemma MarkedWhenActivePresent(p: Profile)
    ensures (exists i :: 1 <= i < |Lines(p)| && StartsWith(Lines(p)[i], "> ")) <==>
      (p.activeGeneration.Some? && p.activeGeneration.value in p.generations)
  {
    var ks := Descending(p.generations.Keys);
    if i :| 1 <= i < |Lines(p)| && StartsWith(Lines(p)[i], "> ") {
      LineAt(p, i);
    }
    if p.activeGeneration.Some? && p.activeGeneration.value in p.generations {
      var a := p.activeGeneration.value;
      assert a in ks;
      var k :| 0 <= k < |ks| && ks[k] == a;
      LineAt(p, k + 1);
    }
  }
}
