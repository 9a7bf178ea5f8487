/**
  One press of the generate button: the world palette returned by the
  world-builder call, cut to the targets the form computes, the session that
  builds and connects the NPCs, and the export of every NPC into the output
  directory as it stands before the press.
 */
module Generator {
  import opened Schema
  import opened Npcs
  import opened Palette
  import opened Graph
  import opened Export

  datatype Outcome = Outcome(palette: Palette, session: Session, written: seq<string>, directory: Directory)

  /**
    Runs the pipeline for `count` NPCs on the world-builder's answer `raw` cut
    to `targets`. The session aborts exactly when there is an NPC to build and
    a list was returned empty or has target zero; an abort writes nothing.
    Otherwise the session leaves `count` NPCs as `SessionOutcome` describes,
    and every NPC is written, in creation order, over the existing directory.
   */
  method Generate(count: nat, targets: Targets, raw: Palette, picks: Picks, draws: seq<Draw>,
                  gen: CharacterOracle, rel: RelationOracle, dir: Directory)
    returns (o: Outcome)
    requires PicksFit(raw, targets, picks)
    requires |draws| == count
    requires forall i :: 0 <= i < count ==> DrawFits(draws[i], GenerateLists(raw, targets, picks))
    ensures IsCutOf(o.palette.personas, raw.personas, targets.personas)
    ensures IsCutOf(o.palette.occupations, raw.occupations, targets.occupations)
    ensures IsCutOf(o.palette.entities, raw.entities, targets.entities)
    ensures o.session.Aborted? <==>
              && count > 0
              && (|| |raw.personas| == 0 || targets.personas == 0
                  || |raw.occupations| == 0 || targets.occupations == 0
                  || |raw.entities| == 0 || targets.entities == 0)
    ensures o.session.Aborted? ==> o.written == [] && o.directory == dir
    ensures o.session.Completed? ==>
              && SessionOutcome(o.session, o.palette, count, draws, gen, rel)
              && |o.written| == count
              && (forall i :: 0 <= i < count ==> o.written[i] == FileName(o.session.nodes[i]))
              && o.directory == WriteAll(dir, Writes(o.session.nodes))
  {
    var palette := GenerateLists(raw, targets, picks);
    CutEmptyIff(raw, targets, picks);
    var session := RunSession(palette, count, draws, gen, rel);
    if session.Aborted? {
      return Outcome(palette, session, [], dir);
    }
    var written, directory := ExportAll(session.nodes, dir);
    return Outcome(palette, session, written, directory);
  }

  /**
    The button as the form wires it: targets by `int()` truncation, with the
    persona and occupation sliders swapped. Any diversity slider at zero, or
    a target truncated to zero, aborts the session however full the returned
    lists are.
   */
  method GenerateAsWritten(sliders: Sliders, raw: Palette, picks: Picks, draws: seq<Draw>,
                           gen: CharacterOracle, rel: RelationOracle, dir: Directory)
    returns (o: Outcome)
    requires SlidersInRange(sliders)
    requires PicksFit(raw, TargetsAsWritten(sliders), picks)
    requires |draws| == sliders.npcCount
    requires forall i :: 0 <= i < |draws| ==>
               DrawFits(draws[i], GenerateLists(raw, TargetsAsWritten(sliders), picks))
    ensures o.session.Aborted? <==>
              || HasEmptyList(raw)
              || Scaled(sliders.npcCount, sliders.occupationDiversity) == 0
              || Scaled(sliders.npcCount, sliders.characterDiversity) == 0
              || Scaled(sliders.npcCount, sliders.motivationDiversity) == 0
    ensures (|| sliders.occupationDiversity == 0.0
             || sliders.characterDiversity == 0.0
             || sliders.motivationDiversity == 0.0) ==> o.session.Aborted?
    ensures o.session.Aborted? ==> o.written == [] && o.directory == dir
    ensures o.session.Completed? ==>
              && SessionOutcome(o.session, o.palette, sliders.npcCount, draws, gen, rel)
              && o.directory == WriteAll(dir, Writes(o.session.nodes))
  {
    o := Generate(sliders.npcCount, TargetsAsWritten(sliders), raw, picks, draws, gen, rel, dir);
  }

  /**
    The button with the corrected targets: each slider sizes the list it is
    labelled for and no target drops below one, so the session aborts only
    when the service itself returned an empty list.
   */
  method GenerateIntended(sliders: Sliders, raw: Palette, picks: Picks, draws: seq<Draw>,
                          gen: CharacterOracle, rel: RelationOracle, dir: Directory)
    returns (o: Outcome)
    requires SlidersInRange(sliders)
    requires PicksFit(raw, TargetsIntended(sliders), picks)
    requires |draws| == sliders.npcCount
    requires forall i :: 0 <= i < |draws| ==>
               DrawFits(draws[i], GenerateLists(raw, TargetsIntended(sliders), picks))
    ensures o.session.Aborted? <==> HasEmptyList(raw)
    ensures o.session.Aborted? ==> o.written == [] && o.directory == dir
    ensures o.session.Completed? ==>
              && SessionOutcome(o.session, o.palette, sliders.npcCount, draws, gen, rel)
              && |o.written| == sliders.npcCount
              && (forall i :: 0 <= i < sliders.npcCount ==> o.written[i] == FileName(o.session.nodes[i]))
              && o.directory == WriteAll(dir, Writes(o.session.nodes))
  {
    o := Generate(sliders.npcCount, TargetsIntended(sliders), raw, picks, draws, gen, rel, dir);
  }
}
