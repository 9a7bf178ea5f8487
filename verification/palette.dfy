/**
  The world palette of a session: the three lists the world-builder call
  returns, cut down to their target sizes by a random choice of distinct
  positions, and the target sizes derived from the configuration sliders.
 */
module Palette {
  import opened Schema

  datatype Palette = Palette(
    personas: seq<string>,
    occupations: seq<string>,
    entities: seq<MotivatingEntity>)

  /** Requested size of each list of the palette. */
  datatype Targets = Targets(personas: nat, occupations: nat, entities: nat)

  /** The random choice made for each list: the positions kept, in the order drawn. */
  datatype Picks = Picks(personas: seq<nat>, occupations: seq<nat>, entities: seq<nat>)

  function Min(a: nat, b: nat): nat
  {
    if a <= b then a else b
  }

  predicate NoDuplicates<T(==)>(xs: seq<T>)
  {
    forall i, j :: 0 <= i < j < |xs| ==> xs[i] != xs[j]
  }

  /** `count` distinct positions of a list of length `length`: a draw without replacement. */
  predicate DistinctPositions(picks: seq<nat>, length: nat, count: nat)
  {
    && |picks| == count
    && (forall i :: 0 <= i < |picks| ==> picks[i] < length)
    && NoDuplicates(picks)
  }

  /** The elements of `xs` at the given positions, in the order given. */
  function Select<T>(xs: seq<T>, picks: seq<nat>): seq<T>
    requires forall i :: 0 <= i < |picks| ==> picks[i] < |xs|
  {
    seq(|picks|, i requires 0 <= i < |picks| => xs[picks[i]])
  }

  /** Removing the `k`-th pick, which chose the last position, leaves distinct picks of the shorter list. */
  lemma DropLastPick(picks: seq<nat>, k: nat, last: nat, rest: seq<nat>)
    requires k < |picks| && picks[k] == last
    requires forall i :: 0 <= i < |picks| ==> picks[i] <= last
    requires NoDuplicates(picks)
    requires rest == picks[..k] + picks[k + 1..]
    ensures forall i :: 0 <= i < |rest| ==> rest[i] < last
    ensures NoDuplicates(rest)
  {
    forall i | 0 <= i < |rest|
      ensures rest[i] < last
    {
      var i' := if i < k then i else i + 1;
      assert rest[i] == picks[i'] && i' != k;
    }
    forall i, j | 0 <= i < j < |rest|
      ensures rest[i] != rest[j]
    {
      var i' := if i < k then i else i + 1;
      var j' := if j < k then j else j + 1;
      assert rest[i] == picks[i'] && rest[j] == picks[j'];
    }
  }

  /** Selecting around one pick splits the selection there. */
  lemma SelectSplit<T>(xs: seq<T>, picks: seq<nat>, k: nat)
    requires forall i :: 0 <= i < |picks| ==> picks[i] < |xs|
    requires k < |picks|
    ensures Select(xs, picks) == Select(xs, picks[..k]) + [xs[picks[k]]] + Select(xs, picks[k + 1..])
    ensures Select(xs, picks[..k] + picks[k + 1..]) == Select(xs, picks[..k]) + Select(xs, picks[k + 1..])
  {
  }

  /** Positions inside a prefix select the same elements from the prefix. */
  lemma SelectFromPrefix<T>(xs: seq<T>, picks: seq<nat>, n: nat)
    requires n <= |xs| && forall i :: 0 <= i < |picks| ==> picks[i] < n
    ensures Select(xs, picks) == Select(xs[..n], picks)
  {
  }

  /** Choosing distinct positions never repeats an element more often than the list holds it. */
  lemma {:induction false} SelectIsSubMultiset<T>(xs: seq<T>, picks: seq<nat>)
    requires forall i :: 0 <= i < |picks| ==> picks[i] < |xs|
    requires NoDuplicates(picks)
    ensures multiset(Select(xs, picks)) <= multiset(xs)
    decreases |xs|
  {
    if |picks| == 0 {
      assert Select(xs, picks) == [];
    } else {
      assert picks[0] < |xs|;
      var last := |xs| - 1;
      var init := xs[..last];
      assert xs == init + [xs[last]];
      if k :| 0 <= k < |picks| && picks[k] == last {
        var rest := picks[..k] + picks[k + 1..];
        DropLastPick(picks, k, last, rest);
        SelectIsSubMultiset(init, rest);
        SelectFromPrefix(xs, rest, last);
        SelectSplit(xs, picks, k);
        assert Select(xs, picks) == Select(xs, picks[..k]) + [xs[last]] + Select(xs, picks[k + 1..]);
      } else {
        assert forall i :: 0 <= i < |picks| ==> picks[i] < last;
        SelectIsSubMultiset(init, picks);
        SelectFromPrefix(xs, picks, last);
      }
    }
  }

  /**
    One list of the palette cut to `target`: a list no longer than its target
    is kept as it is; a longer one becomes the elements at `target` distinct
    positions drawn at random.
   */
  function Truncate<T(==)>(xs: seq<T>, target: nat, picks: seq<nat>): (r: seq<T>)
    requires |xs| > target ==> DistinctPositions(picks, |xs|, target)
    ensures |r| == Min(|xs|, target)
    ensures |xs| <= target ==> r == xs
    ensures |xs| > target ==> forall i :: 0 <= i < |r| ==> r[i] == xs[picks[i]]
    ensures multiset(r) <= multiset(xs)
    ensures NoDuplicates(xs) ==> NoDuplicates(r)
  {
    if |xs| > target then
      SelectIsSubMultiset(xs, picks);
      Select(xs, picks)
    else
      xs
  }

  /** The random draws fit the raw lists wherever a list is cut. */
  predicate PicksFit(raw: Palette, targets: Targets, picks: Picks)
  {
    && (|raw.personas| > targets.personas ==> DistinctPositions(picks.personas, |raw.personas|, targets.personas))
    && (|raw.occupations| > targets.occupations ==> DistinctPositions(picks.occupations, |raw.occupations|, targets.occupations))
    && (|raw.entities| > targets.entities ==> DistinctPositions(picks.entities, |raw.entities|, targets.entities))
  }

  /** Each list of `r` is a cut of the same list of `raw` to its own target. */
  predicate IsCutOf<T(==)>(r: seq<T>, raw: seq<T>, target: nat)
  {
    && |r| == Min(|raw|, target)
    && (|raw| <= target ==> r == raw)
    && multiset(r) <= multiset(raw)
  }

  /** The palette of a session: the three returned lists, each cut independently. */
  function GenerateLists(raw: Palette, targets: Targets, picks: Picks): (r: Palette)
    requires PicksFit(raw, targets, picks)
    ensures IsCutOf(r.personas, raw.personas, targets.personas)
    ensures IsCutOf(r.occupations, raw.occupations, targets.occupations)
    ensures IsCutOf(r.entities, raw.entities, targets.entities)
  {
    Palette(Truncate(raw.personas, targets.personas, picks.personas),
            Truncate(raw.occupations, targets.occupations, picks.occupations),
            Truncate(raw.entities, targets.entities, picks.entities))
  }

  /** A list's cut depends on that list, its own target and its own draw, and on nothing else. */
  lemma ListsCutIndependently(raw: Palette, targets: Targets, picks: Picks, raw': Palette, targets': Targets, picks': Picks)
    requires PicksFit(raw, targets, picks) && PicksFit(raw', targets', picks')
    ensures raw.personas == raw'.personas && targets.personas == targets'.personas && picks.personas == picks'.personas
            ==> GenerateLists(raw, targets, picks).personas == GenerateLists(raw', targets', picks').personas
    ensures raw.occupations == raw'.occupations && targets.occupations == targets'.occupations && picks.occupations == picks'.occupations
            ==> GenerateLists(raw, targets, picks).occupations == GenerateLists(raw', targets', picks').occupations
    ensures raw.entities == raw'.entities && targets.entities == targets'.entities && picks.entities == picks'.entities
            ==> GenerateLists(raw, targets, picks).entities == GenerateLists(raw', targets', picks').entities
  {
  }

  /** The configuration form: three diversity sliders in [0, 1] and the NPC count in [1, 20]. */
  datatype Sliders = Sliders(
    occupationDiversity: real,   // labelled "Diversity of Occupations"
    npcCount: nat,               // labelled "Number of NPCs"
    motivationDiversity: real,   // labelled "Diversity of Motivations"
    characterDiversity: real)    // labelled "Diversity of Character Traits"

  predicate SlidersInRange(s: Sliders)
  {
    && 0.0 <= s.occupationDiversity <= 1.0
    && 0.0 <= s.motivationDiversity <= 1.0
    && 0.0 <= s.characterDiversity <= 1.0
    && 1 <= s.npcCount <= 20
  }

  const DownscaleFactor: real := 1.0

  /** A target size: the NPC count scaled by a diversity ratio, truncated to an integer. */
  function Scaled(count: nat, ratio: real): (r: nat)
    requires 0.0 <= ratio <= 1.0
    ensures r <= count
    ensures ratio == 1.0 ==> r == count
    ensures ratio == 0.0 ==> r == 0
  {
    var c := count as real;
    var x := c * ratio / DownscaleFactor;
    assert 0.0 <= c * ratio;
    assert c * ratio <= c by {
      assert 0.0 <= c * (1.0 - ratio);
    }
    x.Floor
  }

  /**
    The targets as the form computes them: the persona count follows the
    occupation slider and the occupation count follows the character-trait
    slider.
   */
  function TargetsAsWritten(s: Sliders): (r: Targets)
    requires SlidersInRange(s)
    ensures r.personas <= s.npcCount && r.occupations <= s.npcCount && r.entities <= s.npcCount
    ensures s.occupationDiversity == 1.0 ==> r.personas == s.npcCount
    ensures s.characterDiversity == 1.0 ==> r.occupations == s.npcCount
    ensures s.motivationDiversity == 1.0 ==> r.entities == s.npcCount
  {
    Targets(Scaled(s.npcCount, s.occupationDiversity),
            Scaled(s.npcCount, s.characterDiversity),
            Scaled(s.npcCount, s.motivationDiversity))
  }

  /** Maxing out only the occupation slider yields a full persona list and no occupations at all. */
  lemma OccupationSliderDrivesPersonas()
    ensures var s := Sliders(1.0, 10, 0.5, 0.0);
            SlidersInRange(s) && TargetsAsWritten(s).personas == 10 && TargetsAsWritten(s).occupations == 0
  {
  }

  /** A palette with an empty list: drawing from it fails. */
  predicate HasEmptyList(p: Palette)
  {
    |p.personas| == 0 || |p.occupations| == 0 || |p.entities| == 0
  }

  /** A cut palette has an empty list exactly when a returned list was empty or its target is zero. */
  lemma CutEmptyIff(raw: Palette, targets: Targets, picks: Picks)
    requires PicksFit(raw, targets, picks)
    ensures HasEmptyList(GenerateLists(raw, targets, picks)) <==>
              || |raw.personas| == 0 || targets.personas == 0
              || |raw.occupations| == 0 || targets.occupations == 0
              || |raw.entities| == 0 || targets.entities == 0
  {
  }

  /**
    A single NPC at the default diversity of one half: every target truncates
    to zero, so every list of the palette is cut to nothing.
   */
  lemma SingleNpcEmptiesPalette(raw: Palette, picks: Picks)
    requires PicksFit(raw, TargetsAsWritten(Sliders(0.5, 1, 0.5, 0.5)), picks)
    ensures TargetsAsWritten(Sliders(0.5, 1, 0.5, 0.5)) == Targets(0, 0, 0)
    ensures HasEmptyList(GenerateLists(raw, TargetsAsWritten(Sliders(0.5, 1, 0.5, 0.5)), picks))
  {
    assert (1 as real * 0.5 / DownscaleFactor).Floor == 0;
  }

  /** A target size that never drops below one: the scaled count, raised to one when it truncates to zero. */
  function ScaledAtLeastOne(count: nat, ratio: real): (r: nat)
    requires 1 <= count && 0.0 <= ratio <= 1.0
    ensures 1 <= r <= count
    ensures Scaled(count, ratio) >= 1 ==> r == Scaled(count, ratio)
    ensures ratio == 1.0 ==> r == count
  {
    var t := Scaled(count, ratio);
    if t == 0 then 1 else t
  }

  /**
    The intended targets: each slider drives the list it is labelled for, as
    the world-builder template of the same form is already parametrised, and
    no list is cut to nothing.
   */
  function TargetsIntended(s: Sliders): (r: Targets)
    requires SlidersInRange(s)
    ensures 1 <= r.personas <= s.npcCount && 1 <= r.occupations <= s.npcCount && 1 <= r.entities <= s.npcCount
    ensures s.occupationDiversity == 1.0 ==> r.occupations == s.npcCount
    ensures s.characterDiversity == 1.0 ==> r.personas == s.npcCount
    ensures s.motivationDiversity == 1.0 ==> r.entities == s.npcCount
  {
    Targets(ScaledAtLeastOne(s.npcCount, s.characterDiversity),
            ScaledAtLeastOne(s.npcCount, s.occupationDiversity),
            ScaledAtLeastOne(s.npcCount, s.motivationDiversity))
  }

  /** Each intended target depends on the NPC count and on its own slider only. */
  lemma TargetsFollowTheirLabels(s: Sliders, s': Sliders)
    requires SlidersInRange(s) && SlidersInRange(s') && s.npcCount == s'.npcCount
    ensures s.characterDiversity == s'.characterDiversity ==> TargetsIntended(s).personas == TargetsIntended(s').personas
    ensures s.occupationDiversity == s'.occupationDiversity ==> TargetsIntended(s).occupations == TargetsIntended(s').occupations
    ensures s.motivationDiversity == s'.motivationDiversity ==> TargetsIntended(s).entities == TargetsIntended(s').entities
  {
  }

  /** With the intended targets, the palette has an empty list only when the service returned one. */
  lemma IntendedTargetsKeepListsFilled(s: Sliders, raw: Palette, picks: Picks)
    requires SlidersInRange(s) && PicksFit(raw, TargetsIntended(s), picks)
    ensures HasEmptyList(GenerateLists(raw, TargetsIntended(s), picks)) <==> HasEmptyList(raw)
  {
    CutEmptyIff(raw, TargetsIntended(s), picks);
  }
}
