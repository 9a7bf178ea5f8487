/**
  The relationship graph of a session. NPCs are created one at a time; right
  after NPC N is created, for every earlier NPC P in creation order, N first
  states its view of P, and then P states its view of N, given N's whole
  relations map (which by then holds N's view of P) as context.
 */
module Graph {
  import opened Schema
  import opened Npcs
  import opened Palette

  /** One relationship call: the NPC at position `speaker` states its view of the NPC at position `about`. */
  datatype Call = Call(speaker: nat, about: nat, context: Option<Relations>, edge: Edge)

  function Ids(nodes: seq<Npc>): seq<Identity>
  {
    seq(|nodes|, i requires 0 <= i < |nodes| => nodes[i].id)
  }

  function Names(ids: seq<Identity>): seq<string>
  {
    seq(|ids|, i requires 0 <= i < |ids| => ids[i].name)
  }

  function NameSet(ids: seq<Identity>): set<string>
  {
    set j | 0 <= j < |ids| :: ids[j].name
  }

  /** The names of every NPC but the one at position `k`. */
  function OtherNames(ids: seq<Identity>, k: nat): set<string>
  {
    set j | 0 <= j < |ids| && j != k :: ids[j].name
  }

  predicate DistinctNames(ids: seq<Identity>)
  {
    forall i, j :: 0 <= i < j < |ids| ==> ids[i].name != ids[j].name
  }

  /** The relationship call keeps to the relationship-sheet schema. */
  ghost predicate EdgesWellFormed(rel: RelationOracle)
  {
    forall a, b, c :: WellFormedEdge(rel(a, b, c))
  }

  /** The generation service keeps to both sheet schemas. */
  ghost predicate OraclesWellFormed(gen: CharacterOracle, rel: RelationOracle)
  {
    && (forall q :: WellFormedDetails(gen(q)))
    && EdgesWellFormed(rel)
  }

  predicate AllWellFormed(nodes: seq<Npc>)
  {
    forall k :: 0 <= k < |nodes| ==>
      WellFormedSheet(nodes[k].id.characterSheet) && WellFormedRelations(nodes[k].relations)
  }

  /**
    The newest NPC's relations once its views of the first `n` earlier NPCs
    are stored: the map it started with, `start`, updated in creation order
    with the answer of each logged first call.
   */
  function StoredAfter(start: Relations, prior: seq<Identity>, calls: seq<Call>, n: nat): Relations
    requires n <= |prior| && 2 * n <= |calls|
  {
    if n == 0 then start
    else StoredAfter(start, prior, calls, n - 1)[prior[n - 1].name := calls[2 * (n - 1)].edge]
  }

  /**
    The two calls for the pair (earlier NPC `j`, newest NPC at position
    `|prior|`), logged at positions `2j` and `2j + 1`: first the newest NPC's
    view with no context, then the earlier NPC's view, whose context is the
    newest NPC's relations as they stand right after the first call.
   */
  predicate PairCalls(prior: seq<Identity>, newest: Identity, start: Relations,
                      calls: seq<Call>, j: nat, rel: RelationOracle)
    requires j < |prior| && 2 * j + 1 < |calls|
  {
    var context := Some(StoredAfter(start, prior, calls, j + 1));
    && calls[2 * j] == Call(|prior|, j, None, rel(newest, prior[j], None))
    && calls[2 * j + 1] == Call(j, |prior|, context, rel(prior[j], newest, context))
  }

  /** The call log of one creation step: two calls per earlier NPC, in creation order. */
  predicate StepCalls(prior: seq<Identity>, newest: Identity, start: Relations,
                      calls: seq<Call>, rel: RelationOracle)
  {
    && |calls| == 2 * |prior|
    && forall j :: 0 <= j < |prior| ==> PairCalls(prior, newest, start, calls, j, rel)
  }

  /** Later calls do not change what the earlier ones stored. */
  lemma {:induction false} StoredPrefix(start: Relations, prior: seq<Identity>, calls: seq<Call>, more: seq<Call>, n: nat)
    requires n <= |prior| && 2 * n <= |calls|
    ensures StoredAfter(start, prior, calls + more, n) == StoredAfter(start, prior, calls, n)
    decreases n
  {
    if n > 0 {
      StoredPrefix(start, prior, calls, more, n - 1);
      assert (calls + more)[2 * (n - 1)] == calls[2 * (n - 1)];
    }
  }

  /**
    The context of the `n`-th second call holds the starting entries plus one
    entry per earlier NPC up to the `n`-th, and that NPC's entry is the answer
    of the first call of its pair.
   */
  lemma {:induction false} StoredContext(start: Relations, prior: seq<Identity>, calls: seq<Call>, n: nat)
    requires 0 < n <= |prior| && 2 * n <= |calls|
    ensures StoredAfter(start, prior, calls, n).Keys == start.Keys + NameSet(prior[..n])
    ensures prior[n - 1].name in StoredAfter(start, prior, calls, n)
    ensures StoredAfter(start, prior, calls, n)[prior[n - 1].name] == calls[2 * (n - 1)].edge
    decreases n
  {
    NameSetSnoc(prior, n - 1);
    if n > 1 {
      StoredContext(start, prior, calls, n - 1);
    } else {
      assert prior[..0] == [];
      assert NameSet(prior[..0]) == {};
    }
  }

  /** The newest NPC gained one entry per earlier name, and, with distinct names, exactly its own views. */
  predicate NewestGains(prior: seq<Npc>, newest: Npc, newest': Npc, calls: seq<Call>)
    requires |calls| == 2 * |prior|
  {
    && newest' == newest.(relations := newest'.relations)
    && newest'.relations.Keys == newest.relations.Keys + NameSet(Ids(prior))
    && (forall key :: key in newest.relations && key !in NameSet(Ids(prior)) ==>
          newest'.relations[key] == newest.relations[key])
    && (DistinctNames(Ids(prior)) ==> forall j :: 0 <= j < |prior| ==>
          prior[j].id.name in newest'.relations && newest'.relations[prior[j].id.name] == calls[2 * j].edge)
  }

  /** Each earlier NPC gained the entry under the newest NPC's name, set to its own view, and nothing else. */
  predicate EarlierGain(prior: seq<Npc>, newest: Npc, prior': seq<Npc>, calls: seq<Call>)
    requires |calls| == 2 * |prior|
  {
    && |prior'| == |prior|
    && forall j :: 0 <= j < |prior| ==>
         prior'[j] == prior[j].(relations := prior[j].relations[newest.id.name := calls[2 * j + 1].edge])
  }

  lemma NameSetSnoc(ids: seq<Identity>, t: nat)
    requires t < |ids|
    ensures NameSet(ids[..t + 1]) == NameSet(ids[..t]) + {ids[t].name}
  {
    var a, b := ids[..t + 1], ids[..t];
    forall x | x in NameSet(a)
      ensures x in NameSet(b) + {ids[t].name}
    {
      var j :| 0 <= j < |a| && a[j].name == x;
      if j < t {
        assert b[j] == a[j];
      }
    }
    forall x | x in NameSet(b) + {ids[t].name}
      ensures x in NameSet(a)
    {
      if x == ids[t].name {
        assert a[t] == ids[t];
      } else {
        var j :| 0 <= j < |b| && b[j].name == x;
        assert a[j] == b[j];
      }
    }
  }

  /** The earlier NPCs after the first `t` of them were visited. */
  predicate EarlierVisited(prior: seq<Npc>, newest: Npc, t: nat, prior': seq<Npc>, calls: seq<Call>)
    requires t <= |prior| && |calls| == 2 * t
  {
    && |prior'| == |prior|
    && (forall j :: 0 <= j < t ==>
          prior'[j] == prior[j].(relations := prior[j].relations[newest.id.name := calls[2 * j + 1].edge]))
    && (forall j :: t <= j < |prior| ==> prior'[j] == prior[j])
  }

  /** What the inner loop has done after visiting the first `t` earlier NPCs. */
  ghost predicate Visited(prior: seq<Npc>, newest: Npc, rel: RelationOracle, t: nat,
                          prior': seq<Npc>, newest': Npc, calls: seq<Call>)
    requires t <= |prior|
  {
    && |calls| == 2 * t
    && (forall j :: 0 <= j < t ==> PairCalls(Ids(prior), newest.id, newest.relations, calls, j, rel))
    && newest'.relations == StoredAfter(newest.relations, Ids(prior), calls, t)
    && NewestGains(prior[..t], newest, newest', calls)
    && EarlierVisited(prior, newest, t, prior', calls)
    && (EdgesWellFormed(rel) && WellFormedRelations(newest.relations) ==> WellFormedRelations(newest'.relations))
  }

  lemma {:induction false} VisitPairCalls(prior: seq<Identity>, newest: Identity, start: Relations, rel: RelationOracle,
                                          t: nat, calls: seq<Call>, forward: Call, backward: Call)
    requires t < |prior| && |calls| == 2 * t
    requires forall j :: 0 <= j < t ==> PairCalls(prior, newest, start, calls, j, rel)
    requires forward == Call(|prior|, t, None, rel(newest, prior[t], None))
    requires var context := Some(StoredAfter(start, prior, calls, t)[prior[t].name := forward.edge]);
             backward == Call(t, |prior|, context, rel(prior[t], newest, context))
    ensures forall j :: 0 <= j < t + 1 ==> PairCalls(prior, newest, start, calls + [forward, backward], j, rel)
    ensures StoredAfter(start, prior, calls + [forward, backward], t + 1)
              == StoredAfter(start, prior, calls, t)[prior[t].name := forward.edge]
  {
    var calls' := calls + [forward, backward];
    StoredPrefix(start, prior, calls, [forward, backward], t);
    assert calls'[2 * t] == forward && calls'[2 * t + 1] == backward;
    forall j | 0 <= j < t + 1
      ensures PairCalls(prior, newest, start, calls', j, rel)
    {
      if j < t {
        assert PairCalls(prior, newest, start, calls, j, rel);
        StoredPrefix(start, prior, calls, [forward, backward], j + 1);
        assert calls'[2 * j] == calls[2 * j] && calls'[2 * j + 1] == calls[2 * j + 1];
      }
    }
  }

  lemma DistinctNamesPrefix(ids: seq<Identity>, t: nat)
    requires t <= |ids| && DistinctNames(ids)
    ensures DistinctNames(ids[..t])
  {
    var b := ids[..t];
    forall i, j | 0 <= i < j < |b|
      ensures b[i].name != b[j].name
    {
      assert b[i] == ids[i] && b[j] == ids[j];
    }
  }

  lemma IdsPrefix(prior: seq<Npc>, t: nat)
    requires t < |prior|
    ensures Ids(prior[..t + 1])[..t] == Ids(prior[..t])
    ensures Ids(prior[..t + 1])[t] == prior[t].id
    ensures NameSet(Ids(prior[..t + 1])) == NameSet(Ids(prior[..t])) + {prior[t].id.name}
  {
    var a := Ids(prior[..t + 1]);
    assert a[..t] == Ids(prior[..t]);
    NameSetSnoc(a, t);
    assert a[..t + 1] == a;
  }

  lemma {:induction false} VisitNewestKeys(prior: seq<Npc>, newest: Npc, rel: RelationOracle, t: nat, newest': Npc)
    requires t < |prior|
    requires newest' == newest.(relations := newest'.relations)
    requires newest'.relations.Keys == newest.relations.Keys + NameSet(Ids(prior[..t]))
    requires forall key :: key in newest.relations && key !in NameSet(Ids(prior[..t])) ==>
               newest'.relations[key] == newest.relations[key]
    ensures var n'' := SetRelation(newest', prior[t], None, rel);
            && n'' == newest.(relations := n''.relations)
            && n''.relations.Keys == newest.relations.Keys + NameSet(Ids(prior[..t + 1]))
            && (forall key :: key in newest.relations && key !in NameSet(Ids(prior[..t + 1])) ==>
                  n''.relations[key] == newest.relations[key])
  {
    IdsPrefix(prior, t);
  }

  lemma {:induction false} VisitNewestEdges(prior: seq<Npc>, newest: Npc, rel: RelationOracle, t: nat,
                                            newest': Npc, calls: seq<Call>, forward: Call, backward: Call)
    requires t < |prior| && |calls| == 2 * t
    requires DistinctNames(Ids(prior[..t + 1]))
    requires forall j :: 0 <= j < t ==>
               prior[j].id.name in newest'.relations && newest'.relations[prior[j].id.name] == calls[2 * j].edge
    requires forward.edge == rel(newest'.id, prior[t].id, None)
    ensures var n'' := SetRelation(newest', prior[t], None, rel);
            forall j :: 0 <= j < t + 1 ==>
              prior[j].id.name in n''.relations && n''.relations[prior[j].id.name] == (calls + [forward, backward])[2 * j].edge
  {
    var n'' := SetRelation(newest', prior[t], None, rel);
    var calls' := calls + [forward, backward];
    IdsPrefix(prior, t);
    forall j | 0 <= j < t + 1
      ensures prior[j].id.name in n''.relations && n''.relations[prior[j].id.name] == calls'[2 * j].edge
    {
      if j < t {
        assert Ids(prior[..t + 1])[j].name != Ids(prior[..t + 1])[t].name;
        assert calls'[2 * j] == calls[2 * j];
      } else {
        assert calls'[2 * j] == forward;
      }
    }
  }

  lemma {:induction false} VisitNewest(prior: seq<Npc>, newest: Npc, rel: RelationOracle, t: nat,
                                       newest': Npc, calls: seq<Call>, forward: Call, backward: Call)
    requires t < |prior| && |calls| == 2 * t
    requires NewestGains(prior[..t], newest, newest', calls)
    requires forward.edge == rel(newest'.id, prior[t].id, None)
    ensures NewestGains(prior[..t + 1], newest, SetRelation(newest', prior[t], None, rel), calls + [forward, backward])
  {
    var a, b := prior[..t + 1], prior[..t];
    VisitNewestKeys(prior, newest, rel, t, newest');
    if DistinctNames(Ids(a)) {
      IdsPrefix(prior, t);
      DistinctNamesPrefix(Ids(a), t);
      assert forall j :: 0 <= j < t ==> b[j] == prior[j];
      VisitNewestEdges(prior, newest, rel, t, newest', calls, forward, backward);
      assert forall j :: 0 <= j < t + 1 ==> a[j] == prior[j];
    }
  }

  lemma {:induction false} VisitEarlier(prior: seq<Npc>, newest: Npc, t: nat, prior': seq<Npc>, calls: seq<Call>,
                                        updated: Npc, forward: Call, backward: Call)
    requires t < |prior| && |calls| == 2 * t
    requires EarlierVisited(prior, newest, t, prior', calls)
    requires updated == prior[t].(relations := prior[t].relations[newest.id.name := backward.edge])
    ensures EarlierVisited(prior, newest, t + 1, prior'[t := updated], calls + [forward, backward])
  {
    var p'' := prior'[t := updated];
    var calls' := calls + [forward, backward];
    forall j | 0 <= j < t + 1
      ensures p''[j] == prior[j].(relations := prior[j].relations[newest.id.name := calls'[2 * j + 1].edge])
    {
      if j < t {
        assert calls'[2 * j + 1] == calls[2 * j + 1];
      } else {
        assert calls'[2 * j + 1] == backward;
      }
    }
  }

  /** The newest NPC's view of earlier NPC `t`, as logged. */
  lemma VisitForward(prior: seq<Npc>, newest: Npc, rel: RelationOracle, t: nat,
                     newest': Npc, newest'': Npc, forward: Call)
    requires t < |prior|
    requires newest' == newest.(relations := newest'.relations)
    requires newest'' == SetRelation(newest', prior[t], None, rel)
    requires forward == Call(|prior|, t, None, newest''.relations[prior[t].id.name])
    ensures forward == Call(|prior|, t, None, rel(newest.id, Ids(prior)[t], None))
    ensures forward.edge == rel(newest'.id, prior[t].id, None)
  {
  }

  /** Earlier NPC `t`'s view of the newest NPC, as logged, with the newest NPC's relations as context. */
  lemma VisitBackward(prior: seq<Npc>, newest: Npc, rel: RelationOracle, t: nat,
                      newest': Npc, newest'': Npc, updated: Npc, forward: Call, backward: Call)
    requires t < |prior|
    requires newest' == newest.(relations := newest'.relations)
    requires newest'' == SetRelation(newest', prior[t], None, rel)
    requires forward.edge == newest''.relations[prior[t].id.name]
    requires updated == SetRelation(prior[t], newest'', Some(newest''.relations), rel)
    requires backward == Call(t, |prior|, Some(newest''.relations), updated.relations[newest''.id.name])
    ensures newest''.relations == newest'.relations[Ids(prior)[t].name := forward.edge]
    ensures var context := Some(newest'.relations[Ids(prior)[t].name := forward.edge]);
            backward == Call(t, |prior|, context, rel(Ids(prior)[t], newest.id, context))
    ensures updated == prior[t].(relations := prior[t].relations[newest.id.name := backward.edge])
  {
  }

  /** One pass of the inner loop keeps `Visited` with one more earlier NPC visited. */
  lemma {:induction false} VisitStep(prior: seq<Npc>, newest: Npc, rel: RelationOracle, t: nat,
                                     prior': seq<Npc>, newest': Npc, calls: seq<Call>,
                                     newest'': Npc, updated: Npc, forward: Call, backward: Call)
    requires t < |prior| && Visited(prior, newest, rel, t, prior', newest', calls)
    requires newest'' == SetRelation(newest', prior'[t], None, rel)
    requires forward == Call(|prior|, t, None, newest''.relations[prior'[t].id.name])
    requires updated == SetRelation(prior'[t], newest'', Some(newest''.relations), rel)
    requires backward == Call(t, |prior|, Some(newest''.relations), updated.relations[newest''.id.name])
    ensures Visited(prior, newest, rel, t + 1, prior'[t := updated], newest'', calls + [forward, backward])
  {
    assert prior'[t] == prior[t];
    VisitForward(prior, newest, rel, t, newest', newest'', forward);
    VisitBackward(prior, newest, rel, t, newest', newest'', updated, forward, backward);
    VisitNewest(prior, newest, rel, t, newest', calls, forward, backward);
    VisitPairCalls(Ids(prior), newest.id, newest.relations, rel, t, calls, forward, backward);
    VisitEarlier(prior, newest, t, prior', calls, updated, forward, backward);
  }

  /**
    One pass of the inner loop for earlier NPC `t`: the newest NPC states its
    view of it, then it states its view of the newest NPC given the newest
    NPC's relations; returns both NPCs updated and the two calls appended.
   */
  function Visit(prior: seq<Npc>, newest: Npc, rel: RelationOracle, t: nat,
                 prior': seq<Npc>, newest': Npc, calls: seq<Call>): (r: (seq<Npc>, Npc, seq<Call>))
    requires t < |prior| && Visited(prior, newest, rel, t, prior', newest', calls)
    ensures Visited(prior, newest, rel, t + 1, r.0, r.1, r.2)
  {
    var earlier := prior'[t];
    var introduced := SetRelation(newest', earlier, None, rel);
    var context := introduced.relations;
    var forward := Call(|prior|, t, None, context[earlier.id.name]);
    var updated := SetRelation(earlier, introduced, Some(context), rel);
    var backward := Call(t, |prior|, Some(context), updated.relations[introduced.id.name]);
    VisitStep(prior, newest, rel, t, prior', newest', calls, introduced, updated, forward, backward);
    (prior'[t := updated], introduced, calls + [forward, backward])
  }

  /** Once every earlier NPC was visited, the step's promises hold. */
  lemma VisitDone(prior: seq<Npc>, newest: Npc, rel: RelationOracle, prior': seq<Npc>, newest': Npc, calls: seq<Call>)
    requires Visited(prior, newest, rel, |prior|, prior', newest', calls)
    ensures StepCalls(Ids(prior), newest.id, newest.relations, calls, rel)
    ensures newest'.relations == StoredAfter(newest.relations, Ids(prior), calls, |prior|)
    ensures NewestGains(prior, newest, newest', calls)
    ensures EarlierGain(prior, newest, prior', calls)
    ensures EdgesWellFormed(rel) && WellFormedRelations(newest.relations) ==> WellFormedRelations(newest'.relations)
  {
    assert prior[..|prior|] == prior;
  }

  /**
    Introduces the newest NPC to every earlier one (the inner loop of the
    session): for each earlier NPC in creation order, the newest NPC's view
    of it is stored, then its view of the newest NPC, given the newest NPC's
    relations as context. Returns the updated NPCs and the call log.
   */
  method ConnectNewest(prior: seq<Npc>, newest: Npc, rel: RelationOracle)
    returns (prior': seq<Npc>, newest': Npc, calls: seq<Call>)
    ensures StepCalls(Ids(prior), newest.id, newest.relations, calls, rel)
    ensures newest'.relations == StoredAfter(newest.relations, Ids(prior), calls, |prior|)
    ensures NewestGains(prior, newest, newest', calls)
    ensures EarlierGain(prior, newest, prior', calls)
    ensures EdgesWellFormed(rel) && WellFormedRelations(newest.relations) ==> WellFormedRelations(newest'.relations)
  {
    prior' := prior;
    newest' := newest;
    calls := [];
    var t := 0;
    assert Ids(prior[..0]) == [];
    while t < |prior|
      invariant 0 <= t <= |prior|
      invariant Visited(prior, newest, rel, t, prior', newest', calls)
    {
      var next := Visit(prior, newest, rel, t, prior', newest', calls);
      prior', newest', calls := next.0, next.1, next.2;
      t := t + 1;
    }
    VisitDone(prior, newest, rel, prior', newest', calls);
  }

  lemma {:induction false} DistinctNameSetSize(ids: seq<Identity>)
    requires DistinctNames(ids)
    ensures |NameSet(ids)| == |ids|
    decreases |ids|
  {
    if |ids| > 0 {
      var m := |ids| - 1;
      DistinctNamesPrefix(ids, m);
      DistinctNameSetSize(ids[..m]);
      NameSetSnoc(ids, m);
      assert ids[..m + 1] == ids;
      assert forall j :: 0 <= j < m ==> ids[..m][j].name != ids[m].name;
    }
  }

  /** With distinct names, every NPC but one leaves exactly `|ids| - 1` other names. */
  lemma OtherNamesOfDistinct(ids: seq<Identity>, k: nat)
    requires k < |ids| && DistinctNames(ids)
    ensures |OtherNames(ids, k)| == |ids| - 1
  {
    assert OtherNames(ids, k) == NameSet(ids) - {ids[k].name} by {
      forall x | x in NameSet(ids) - {ids[k].name}
        ensures x in OtherNames(ids, k)
      {
        var j :| 0 <= j < |ids| && ids[j].name == x;
      }
    }
    DistinctNameSetSize(ids);
  }

  // ---------------------------------------------------------------------------
  // The session: create `count` NPCs one after another, introducing each new
  // one to all earlier ones.
  // ---------------------------------------------------------------------------

  /** The random draws for one NPC: a position in each palette list and the initial letter of its name. */
  datatype Draw = Draw(persona: nat, occupation: nat, entity: nat, initial: char)

  /** A draw picks a valid position from each list that has one, and a lower-case initial. */
  predicate DrawFits(d: Draw, p: Palette)
  {
    && (|p.personas| > 0 ==> d.persona < |p.personas|)
    && (|p.occupations| > 0 ==> d.occupation < |p.occupations|)
    && (|p.entities| > 0 ==> d.entity < |p.entities|)
    && 'a' <= d.initial <= 'z'
  }

  /** The request for the NPC built from draw `d` after the NPCs named `earlier`. */
  function RequestFor(p: Palette, d: Draw, earlier: seq<string>): (r: CharacterRequest)
    requires !HasEmptyList(p) && DrawFits(d, p)
    ensures r.persona in p.personas && r.occupation in p.occupations && r.factor in p.entities
    ensures r.persona == p.personas[d.persona] && r.occupation == p.occupations[d.occupation]
    ensures r.factor == p.entities[d.entity] && r.initial == d.initial
    ensures r.otherNames.None? <==> |earlier| == 0
    ensures r.otherNames.Some? ==> r.otherNames.value == earlier
  {
    CharacterRequest(p.personas[d.persona], p.occupations[d.occupation], p.entities[d.entity],
                     if |earlier| == 0 then None else Some(earlier), d.initial)
  }

  datatype Session =
    | Aborted
    | Completed(names: seq<string>, nodes: seq<Npc>, requests: seq<CharacterRequest>, calls: seq<seq<Call>>)

  /** NPC `i` was built from draw `i` and the names of the NPCs before it, and only its relations changed since. */
  predicate BuiltInOrder(nodes: seq<Npc>, requests: seq<CharacterRequest>, palette: Palette,
                         draws: seq<Draw>, gen: CharacterOracle)
  {
    && |requests| == |nodes| && |nodes| <= |draws|
    && forall i :: 0 <= i < |nodes| ==>
         && !HasEmptyList(palette) && DrawFits(draws[i], palette)
         && requests[i] == RequestFor(palette, draws[i], Names(Ids(nodes)[..i]))
         && nodes[i] == NewNpc(requests[i], gen).(relations := nodes[i].relations)
  }

  /** Every NPC holds an entry for every other NPC's name, and for nothing else. */
  predicate Complete(nodes: seq<Npc>)
  {
    forall k :: 0 <= k < |nodes| ==> nodes[k].relations.Keys == OtherNames(Ids(nodes), k)
  }

  /** `calls[k]` is the call log of the step that created NPC `k`, which started with no relations. */
  predicate Logged(nodes: seq<Npc>, calls: seq<seq<Call>>, rel: RelationOracle)
  {
    && |calls| == |nodes|
    && forall k :: 0 <= k < |nodes| ==> StepCalls(Ids(nodes)[..k], nodes[k].id, map[], calls[k], rel)
  }

  /** For the pair (j, k), j < k: k's entry for j is k's logged view, j's entry for k is j's logged view. */
  predicate PairStored(nodes: seq<Npc>, j: nat, k: nat, stepCalls: seq<Call>)
    requires j < k < |nodes| && |stepCalls| == 2 * k
  {
    && nodes[j].id.name in nodes[k].relations
    && nodes[k].relations[nodes[j].id.name] == stepCalls[2 * j].edge
    && nodes[k].id.name in nodes[j].relations
    && nodes[j].relations[nodes[k].id.name] == stepCalls[2 * j + 1].edge
  }

  /** Every stored entry is the view its owner stated in the logged call for that pair. */
  predicate EdgesRecorded(nodes: seq<Npc>, calls: seq<seq<Call>>)
  {
    && |calls| == |nodes|
    && (forall k :: 0 <= k < |nodes| ==> |calls[k]| == 2 * k)
    && forall k, j :: 0 <= j < k < |nodes| ==> PairStored(nodes, j, k, calls[k])
  }

  function TotalCalls(calls: seq<seq<Call>>): nat
  {
    if |calls| == 0 then 0 else TotalCalls(calls[..|calls| - 1]) + |calls[|calls| - 1]|
  }

  /** Two calls per earlier NPC at every step make n(n-1) calls for n NPCs. */
  lemma {:induction false} TotalCallsQuadratic(calls: seq<seq<Call>>)
    requires forall k :: 0 <= k < |calls| ==> |calls[k]| == 2 * k
    ensures TotalCalls(calls) == |calls| * (|calls| - 1)
    decreases |calls|
  {
    if |calls| > 0 {
      var m := |calls| - 1;
      TotalCallsQuadratic(calls[..m]);
      assert TotalCalls(calls) == m * (m - 1) + 2 * m;
      assert m * (m - 1) + 2 * m == (m + 1) * m;
    }
  }

  lemma LoggedShape(nodes: seq<Npc>, calls: seq<seq<Call>>, rel: RelationOracle)
    requires Logged(nodes, calls, rel)
    ensures forall k :: 0 <= k < |calls| ==> |calls[k]| == 2 * k
  {
    forall k | 0 <= k < |calls|
      ensures |calls[k]| == 2 * k
    {
      assert StepCalls(Ids(nodes)[..k], nodes[k].id, map[], calls[k], rel);
    }
  }

  lemma OtherNamesSnoc(ids: seq<Identity>, x: Identity)
    ensures forall k :: 0 <= k < |ids| ==> OtherNames(ids + [x], k) == OtherNames(ids, k) + {x.name}
    ensures OtherNames(ids + [x], |ids|) == NameSet(ids)
  {
    var l := ids + [x];
    forall k | 0 <= k < |ids|
      ensures OtherNames(l, k) == OtherNames(ids, k) + {x.name}
    {
      forall y | y in OtherNames(l, k)
        ensures y in OtherNames(ids, k) + {x.name}
      {
        var j :| 0 <= j < |l| && j != k && l[j].name == y;
        if j < |ids| {
          assert ids[j] == l[j];
        }
      }
      forall y | y in OtherNames(ids, k) + {x.name}
        ensures y in OtherNames(l, k)
      {
        if y == x.name {
          assert l[|ids|] == x;
        } else {
          var j :| 0 <= j < |ids| && j != k && ids[j].name == y;
          assert l[j] == ids[j];
        }
      }
    }
    forall y | y in OtherNames(l, |ids|)
      ensures y in NameSet(ids)
    {
      var j :| 0 <= j < |l| && j != |ids| && l[j].name == y;
      assert ids[j] == l[j];
    }
    forall y | y in NameSet(ids)
      ensures y in OtherNames(l, |ids|)
    {
      var j :| 0 <= j < |ids| && ids[j].name == y;
      assert l[j] == ids[j];
    }
  }

  /** The facts `ConnectNewest` establishes about one creation step. */
  predicate Introduced(nodes: seq<Npc>, newest: Npc, rel: RelationOracle,
                       prior': seq<Npc>, newest': Npc, stepCalls: seq<Call>)
  {
    && newest.relations == map[]
    && StepCalls(Ids(nodes), newest.id, map[], stepCalls, rel)
    && NewestGains(nodes, newest, newest', stepCalls)
    && EarlierGain(nodes, newest, prior', stepCalls)
  }

  lemma StepIds(nodes: seq<Npc>, newest: Npc, rel: RelationOracle, prior': seq<Npc>, newest': Npc, stepCalls: seq<Call>)
    requires Introduced(nodes, newest, rel, prior', newest', stepCalls)
    ensures Ids(prior' + [newest']) == Ids(nodes) + [newest.id]
    ensures forall k :: 0 <= k <= |nodes| ==> Ids(prior' + [newest'])[..k] == Ids(nodes)[..k]
  {
    var l := prior' + [newest'];
    assert forall k :: 0 <= k < |nodes| ==> l[k].id == nodes[k].id;
    assert Ids(l) == Ids(nodes) + [newest.id];
  }

  lemma StepComplete(nodes: seq<Npc>, newest: Npc, rel: RelationOracle, prior': seq<Npc>, newest': Npc, stepCalls: seq<Call>)
    requires Introduced(nodes, newest, rel, prior', newest', stepCalls)
    requires Complete(nodes)
    ensures Complete(prior' + [newest'])
  {
    var l := prior' + [newest'];
    StepIds(nodes, newest, rel, prior', newest', stepCalls);
    OtherNamesSnoc(Ids(nodes), newest.id);
    forall k | 0 <= k < |l|
      ensures l[k].relations.Keys == OtherNames(Ids(l), k)
    {
      if k < |nodes| {
        assert l[k].relations.Keys == nodes[k].relations.Keys + {newest.id.name};
      }
    }
  }

  lemma StepLogged(nodes: seq<Npc>, calls: seq<seq<Call>>, newest: Npc, rel: RelationOracle,
                   prior': seq<Npc>, newest': Npc, stepCalls: seq<Call>)
    requires Introduced(nodes, newest, rel, prior', newest', stepCalls)
    requires Logged(nodes, calls, rel)
    ensures Logged(prior' + [newest'], calls + [stepCalls], rel)
  {
    var l, calls' := prior' + [newest'], calls + [stepCalls];
    StepIds(nodes, newest, rel, prior', newest', stepCalls);
    forall k | 0 <= k < |l|
      ensures StepCalls(Ids(l)[..k], l[k].id, map[], calls'[k], rel)
    {
      if k < |nodes| {
        assert StepCalls(Ids(nodes)[..k], nodes[k].id, map[], calls[k], rel);
        assert Ids(l)[k] == l[k].id && Ids(nodes)[k] == nodes[k].id;
      } else {
        assert Ids(nodes)[..|nodes|] == Ids(nodes);
      }
    }
  }

  /** A pair of earlier NPCs keeps its stored views: the step only adds the newest NPC's name. */
  lemma StepEdgesOld(nodes: seq<Npc>, calls: seq<seq<Call>>, newest: Npc, rel: RelationOracle,
                     prior': seq<Npc>, newest': Npc, stepCalls: seq<Call>, j: nat, k: nat)
    requires Introduced(nodes, newest, rel, prior', newest', stepCalls)
    requires EdgesRecorded(nodes, calls)
    requires j < k < |nodes|
    requires nodes[j].id.name != newest.id.name && nodes[k].id.name != newest.id.name
    ensures PairStored(prior' + [newest'], j, k, (calls + [stepCalls])[k])
  {
    var l := prior' + [newest'];
    assert PairStored(nodes, j, k, calls[k]);
    assert l[j] == prior'[j] && l[k] == prior'[k];
    assert (calls + [stepCalls])[k] == calls[k];
  }

  /** Each earlier NPC and the newest one hold the views logged for their pair in this step. */
  lemma StepEdgesNew(nodes: seq<Npc>, newest: Npc, rel: RelationOracle,
                     prior': seq<Npc>, newest': Npc, stepCalls: seq<Call>, j: nat)
    requires Introduced(nodes, newest, rel, prior', newest', stepCalls)
    requires DistinctNames(Ids(nodes)) && j < |nodes|
    ensures PairStored(prior' + [newest'], j, |nodes|, stepCalls)
  {
    var l := prior' + [newest'];
    assert l[j] == prior'[j] && l[|nodes|] == newest';
    assert l[j].id == nodes[j].id;
  }

  /** Distinct names after a step mean distinct names before it, none equal to the newest NPC's. */
  lemma StepNamesDistinct(nodes: seq<Npc>, newest: Npc, rel: RelationOracle,
                          prior': seq<Npc>, newest': Npc, stepCalls: seq<Call>)
    requires Introduced(nodes, newest, rel, prior', newest', stepCalls)
    requires DistinctNames(Ids(prior' + [newest']))
    ensures DistinctNames(Ids(nodes))
    ensures forall j :: 0 <= j < |nodes| ==> nodes[j].id.name != newest.id.name
  {
    var l := prior' + [newest'];
    var i := |nodes|;
    StepIds(nodes, newest, rel, prior', newest', stepCalls);
    DistinctNamesPrefix(Ids(l), i);
    assert Ids(l)[..i] == Ids(nodes);
    forall j | 0 <= j < i
      ensures nodes[j].id.name != newest.id.name
    {
      assert Ids(l)[j] == nodes[j].id && Ids(l)[i] == newest.id;
    }
  }

  lemma StepEdges(nodes: seq<Npc>, calls: seq<seq<Call>>, newest: Npc, rel: RelationOracle,
                  prior': seq<Npc>, newest': Npc, stepCalls: seq<Call>)
    requires Introduced(nodes, newest, rel, prior', newest', stepCalls)
    requires DistinctNames(Ids(prior' + [newest']))
    requires DistinctNames(Ids(nodes)) ==> EdgesRecorded(nodes, calls)
    requires |calls| == |nodes|
    ensures EdgesRecorded(prior' + [newest'], calls + [stepCalls])
  {
    var l, calls' := prior' + [newest'], calls + [stepCalls];
    var i := |nodes|;
    StepNamesDistinct(nodes, newest, rel, prior', newest', stepCalls);
    forall k | 0 <= k < |l|
      ensures |calls'[k]| == 2 * k
    {
      if k < i {
        assert calls'[k] == calls[k];
      }
    }
    forall k, j | 0 <= j < k < |l|
      ensures PairStored(l, j, k, calls'[k])
    {
      if k < i {
        StepEdgesOld(nodes, calls, newest, rel, prior', newest', stepCalls, j, k);
      } else {
        StepEdgesNew(nodes, newest, rel, prior', newest', stepCalls, j);
      }
    }
  }

  lemma StepBuilt(nodes: seq<Npc>, requests: seq<CharacterRequest>, palette: Palette, draws: seq<Draw>,
                  gen: CharacterOracle, rel: RelationOracle, request: CharacterRequest, newest: Npc,
                  prior': seq<Npc>, newest': Npc, stepCalls: seq<Call>)
    requires BuiltInOrder(nodes, requests, palette, draws, gen)
    requires |nodes| < |draws| && !HasEmptyList(palette) && DrawFits(draws[|nodes|], palette)
    requires request == RequestFor(palette, draws[|nodes|], Names(Ids(nodes)))
    requires newest == NewNpc(request, gen)
    requires Introduced(nodes, newest, rel, prior', newest', stepCalls)
    ensures BuiltInOrder(prior' + [newest'], requests + [request], palette, draws, gen)
  {
    var l, requests' := prior' + [newest'], requests + [request];
    StepIds(nodes, newest, rel, prior', newest', stepCalls);
    forall i | 0 <= i < |l|
      ensures && !HasEmptyList(palette) && DrawFits(draws[i], palette)
              && requests'[i] == RequestFor(palette, draws[i], Names(Ids(l)[..i]))
              && l[i] == NewNpc(requests'[i], gen).(relations := l[i].relations)
    {
      if i == |nodes| {
        assert Ids(nodes)[..|nodes|] == Ids(nodes);
      }
    }
  }

  lemma StepWellFormed(nodes: seq<Npc>, gen: CharacterOracle, newest: Npc, rel: RelationOracle,
                       prior': seq<Npc>, newest': Npc, stepCalls: seq<Call>)
    requires Introduced(nodes, newest, rel, prior', newest', stepCalls)
    requires OraclesWellFormed(gen, rel)
    requires AllWellFormed(nodes)
    requires WellFormedSheet(newest.id.characterSheet)
    requires WellFormedRelations(newest'.relations)
    ensures AllWellFormed(prior' + [newest'])
  {
    var l := prior' + [newest'];
    forall k | 0 <= k < |nodes|
      ensures WellFormedSheet(l[k].id.characterSheet) && WellFormedRelations(l[k].relations)
    {
      assert PairCalls(Ids(nodes), newest.id, map[], stepCalls, k, rel);
    }
  }

  /** A fresh NPC's introduction establishes `Introduced`. */
  lemma FreshIntroduced(nodes: seq<Npc>, newest: Npc, rel: RelationOracle,
                        prior': seq<Npc>, newest': Npc, stepCalls: seq<Call>)
    requires newest.relations == map[]
    requires StepCalls(Ids(nodes), newest.id, newest.relations, stepCalls, rel)
    requires NewestGains(nodes, newest, newest', stepCalls)
    requires EarlierGain(nodes, newest, prior', stepCalls)
    requires EdgesWellFormed(rel) && WellFormedRelations(newest.relations) ==> WellFormedRelations(newest'.relations)
    ensures Introduced(nodes, newest, rel, prior', newest', stepCalls)
    ensures EdgesWellFormed(rel) ==> WellFormedRelations(newest'.relations)
  {
  }

  /** What the session loop keeps after creating `|nodes|` NPCs. */
  ghost predicate SessionInvariant(nodes: seq<Npc>, names: seq<string>, requests: seq<CharacterRequest>,
                                   calls: seq<seq<Call>>, palette: Palette, draws: seq<Draw>,
                                   gen: CharacterOracle, rel: RelationOracle)
  {
    && names == Names(Ids(nodes))
    && BuiltInOrder(nodes, requests, palette, draws, gen)
    && Complete(nodes)
    && Logged(nodes, calls, rel)
    && (DistinctNames(Ids(nodes)) ==> EdgesRecorded(nodes, calls))
    && (OraclesWellFormed(gen, rel) ==> AllWellFormed(nodes))
  }

  /** One creation step keeps the names, the build order and the completeness of the graph. */
  lemma SessionStepBuilt(nodes: seq<Npc>, names: seq<string>, requests: seq<CharacterRequest>,
                         palette: Palette, draws: seq<Draw>,
                         gen: CharacterOracle, rel: RelationOracle, request: CharacterRequest, newest: Npc,
                         prior': seq<Npc>, newest': Npc, stepCalls: seq<Call>)
    requires names == Names(Ids(nodes)) && BuiltInOrder(nodes, requests, palette, draws, gen) && Complete(nodes)
    requires |nodes| < |draws| && !HasEmptyList(palette) && DrawFits(draws[|nodes|], palette)
    requires request == RequestFor(palette, draws[|nodes|], names)
    requires newest == NewNpc(request, gen)
    requires Introduced(nodes, newest, rel, prior', newest', stepCalls)
    ensures names + [newest.id.name] == Names(Ids(prior' + [newest']))
    ensures BuiltInOrder(prior' + [newest'], requests + [request], palette, draws, gen)
    ensures Complete(prior' + [newest'])
  {
    StepIds(nodes, newest, rel, prior', newest', stepCalls);
    assert Names(Ids(prior' + [newest'])) == names + [newest.id.name];
    StepComplete(nodes, newest, rel, prior', newest', stepCalls);
    StepBuilt(nodes, requests, palette, draws, gen, rel, request, newest, prior', newest', stepCalls);
  }

  /** One creation step keeps the call log, the recorded edges and well-formedness. */
  lemma SessionStepLogged(nodes: seq<Npc>, calls: seq<seq<Call>>, gen: CharacterOracle, rel: RelationOracle,
                          newest: Npc, prior': seq<Npc>, newest': Npc, stepCalls: seq<Call>)
    requires Logged(nodes, calls, rel)
    requires DistinctNames(Ids(nodes)) ==> EdgesRecorded(nodes, calls)
    requires OraclesWellFormed(gen, rel) ==> AllWellFormed(nodes)
    requires Introduced(nodes, newest, rel, prior', newest', stepCalls)
    requires OraclesWellFormed(gen, rel) ==> WellFormedSheet(newest.id.characterSheet)
    requires EdgesWellFormed(rel) ==> WellFormedRelations(newest'.relations)
    ensures Logged(prior' + [newest'], calls + [stepCalls], rel)
    ensures DistinctNames(Ids(prior' + [newest'])) ==> EdgesRecorded(prior' + [newest'], calls + [stepCalls])
    ensures OraclesWellFormed(gen, rel) ==> AllWellFormed(prior' + [newest'])
  {
    StepLogged(nodes, calls, newest, rel, prior', newest', stepCalls);
    if DistinctNames(Ids(prior' + [newest'])) {
      StepEdges(nodes, calls, newest, rel, prior', newest', stepCalls);
    }
    if OraclesWellFormed(gen, rel) {
      StepWellFormed(nodes, gen, newest, rel, prior', newest', stepCalls);
    }
  }

  lemma SessionStep(nodes: seq<Npc>, names: seq<string>, requests: seq<CharacterRequest>,
                    calls: seq<seq<Call>>, palette: Palette, draws: seq<Draw>,
                    gen: CharacterOracle, rel: RelationOracle, request: CharacterRequest, newest: Npc,
                    prior': seq<Npc>, newest': Npc, stepCalls: seq<Call>)
    requires SessionInvariant(nodes, names, requests, calls, palette, draws, gen, rel)
    requires |nodes| < |draws| && !HasEmptyList(palette) && DrawFits(draws[|nodes|], palette)
    requires request == RequestFor(palette, draws[|nodes|], names)
    requires newest == NewNpc(request, gen)
    requires Introduced(nodes, newest, rel, prior', newest', stepCalls)
    requires EdgesWellFormed(rel) ==> WellFormedRelations(newest'.relations)
    ensures SessionInvariant(prior' + [newest'], names + [newest.id.name], requests + [request],
                             calls + [stepCalls], palette, draws, gen, rel)
  {
    SessionStepBuilt(nodes, names, requests, palette, draws, gen, rel, request, newest, prior', newest', stepCalls);
    SessionStepLogged(nodes, calls, gen, rel, newest, prior', newest', stepCalls);
  }

  /** A finished session made two calls per earlier NPC at every step: n(n-1) in all. */
  lemma SessionCallCount(nodes: seq<Npc>, calls: seq<seq<Call>>, rel: RelationOracle)
    requires Logged(nodes, calls, rel)
    ensures TotalCalls(calls) == |nodes| * (|nodes| - 1)
  {
    LoggedShape(nodes, calls, rel);
    TotalCallsQuadratic(calls);
  }

  /** In a complete graph over distinct names, every NPC has n - 1 relations. */
  lemma SessionRelationCounts(nodes: seq<Npc>)
    requires Complete(nodes) && DistinctNames(Ids(nodes))
    ensures forall k :: 0 <= k < |nodes| ==> |nodes[k].relations| == |nodes| - 1
  {
    forall k | 0 <= k < |nodes|
      ensures |nodes[k].relations| == |nodes| - 1
    {
      OtherNamesOfDistinct(Ids(nodes), k);
      assert |nodes[k].relations| == |nodes[k].relations.Keys|;
    }
  }

  /** NPC i was asked for with no name list when first, and with the names of NPCs 0..i-1 otherwise. */
  lemma SessionRequests(nodes: seq<Npc>, names: seq<string>, requests: seq<CharacterRequest>,
                        palette: Palette, draws: seq<Draw>, gen: CharacterOracle)
    requires names == Names(Ids(nodes)) && BuiltInOrder(nodes, requests, palette, draws, gen)
    ensures forall i :: 0 <= i < |nodes| ==>
              requests[i].otherNames == if i == 0 then None else Some(names[..i])
  {
    forall i | 0 <= i < |nodes|
      ensures requests[i].otherNames == if i == 0 then None else Some(names[..i])
    {
      assert Names(Ids(nodes)[..i]) == names[..i];
    }
  }

  /**
    The creation loop itself: for each of `count` NPCs, draw a persona, an
    occupation and a motivating entity, build the NPC (passing the names of
    the earlier ones from the second NPC on), and introduce it to every
    earlier NPC. A draw from an empty palette list aborts the loop.
   */
  method CreateAll(palette: Palette, count: nat, draws: seq<Draw>, gen: CharacterOracle, rel: RelationOracle)
    returns (aborted: bool, names: seq<string>, nodes: seq<Npc>, requests: seq<CharacterRequest>, calls: seq<seq<Call>>)
    requires |draws| == count
    requires forall i :: 0 <= i < count ==> DrawFits(draws[i], palette)
    ensures aborted <==> count > 0 && HasEmptyList(palette)
    ensures !aborted ==> |nodes| == count && SessionInvariant(nodes, names, requests, calls, palette, draws, gen, rel)
  {
    nodes, names, requests, calls := [], [], [], [];
    var i := 0;
    while i < count
      invariant 0 <= i <= count && |nodes| == i
      invariant i > 0 ==> !HasEmptyList(palette)
      invariant SessionInvariant(nodes, names, requests, calls, palette, draws, gen, rel)
    {
      if HasEmptyList(palette) {
        return true, names, nodes, requests, calls;
      }
      var request := RequestFor(palette, draws[i], names);
      var newest := NewNpc(request, gen);
      var prior', newest', stepCalls := ConnectNewest(nodes, newest, rel);
      FreshIntroduced(nodes, newest, rel, prior', newest', stepCalls);
      SessionStep(nodes, names, requests, calls, palette, draws, gen, rel, request, newest, prior', newest', stepCalls);
      names := names + [newest.id.name];
      nodes := prior' + [newest'];
      requests := requests + [request];
      calls := calls + [stepCalls];
      i := i + 1;
    }
    aborted := false;
  }

  /** What a finished session promises, derived from the loop invariant. */
  lemma SessionEnd(nodes: seq<Npc>, names: seq<string>, requests: seq<CharacterRequest>,
                   calls: seq<seq<Call>>, palette: Palette, draws: seq<Draw>,
                   gen: CharacterOracle, rel: RelationOracle)
    requires SessionInvariant(nodes, names, requests, calls, palette, draws, gen, rel)
    ensures SessionOutcome(Completed(names, nodes, requests, calls), palette, |nodes|, draws, gen, rel)
  {
    SessionCallCount(nodes, calls, rel);
    if DistinctNames(Ids(nodes)) {
      SessionRelationCounts(nodes);
    }
    SessionRequests(nodes, names, requests, palette, draws, gen);
  }

  /**
    What a completed session of `count` NPCs leaves behind: NPC i was built
    from draw i, with no name list for the first NPC and the names of the
    NPCs before it for the others; every NPC is related to exactly the other
    NPCs' names; the calls were made in the order of the nested loop,
    n(n-1) of them; with distinct names each stored edge is its call's
    answer and each NPC has n - 1 relations; and schema-conforming answers
    give well-formed NPCs.
   */
  ghost predicate SessionOutcome(s: Session, palette: Palette, count: nat, draws: seq<Draw>,
                          gen: CharacterOracle, rel: RelationOracle)
    requires s.Completed?
  {
    && |s.nodes| == count && s.names == Names(Ids(s.nodes))
    && BuiltInOrder(s.nodes, s.requests, palette, draws, gen)
    && (forall i :: 0 <= i < count ==>
          s.requests[i].otherNames == if i == 0 then None else Some(s.names[..i]))
    && Complete(s.nodes)
    && Logged(s.nodes, s.calls, rel) && TotalCalls(s.calls) == count * (count - 1)
    && (DistinctNames(Ids(s.nodes)) ==> EdgesRecorded(s.nodes, s.calls))
    && (DistinctNames(Ids(s.nodes)) ==>
          forall k :: 0 <= k < count ==> |s.nodes[k].relations| == count - 1)
    && (OraclesWellFormed(gen, rel) ==> AllWellFormed(s.nodes))
  }

  /**
    The session: the creation loop, and what it leaves behind when it
    completes.
   */
  method RunSession(palette: Palette, count: nat, draws: seq<Draw>, gen: CharacterOracle, rel: RelationOracle)
    returns (s: Session)
    requires |draws| == count
    requires forall i :: 0 <= i < count ==> DrawFits(draws[i], palette)
    ensures s.Aborted? <==> count > 0 && HasEmptyList(palette)
    ensures s.Completed? ==> SessionOutcome(s, palette, count, draws, gen, rel)
  {
    var aborted, names, nodes, requests, calls := CreateAll(palette, count, draws, gen, rel);
    if aborted {
      return Aborted;
    }
    SessionEnd(nodes, names, requests, calls, palette, draws, gen, rel);
    return Completed(names, nodes, requests, calls);
  }
}
