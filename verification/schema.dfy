/**
  The structured-output contracts of the generation service and the records
  the NPC generator builds from them: the character sheet with its five
  ranked trait vocabularies, the relationship sheet, the motivating entity of
  the world palette, and the NPC itself.
 */
module Schema {

  datatype Option<+T> = None | Some(value: T)

  /** The five trait keys of a character sheet. */
  const TraitKeys: set<string> := {"intellect", "charisma", "integrity", "resilience", "kindness"}

  const IntellectValues: seq<string> := ["genius", "cunning", "smart", "common", "stupid", "dumb"]
  const CharismaValues: seq<string> := ["magnetic", "charming", "pleasant", "neutral", "awkward", "repellent"]
  const IntegrityValues: seq<string> := ["honorable", "ethical", "neutral", "misleading", "deceptive", "corrupt"]
  const ResilienceValues: seq<string> := ["unshakeable", "steadfast", "flexible", "sensitive", "defensive", "volatile"]
  const KindnessValues: seq<string> := ["compassionate", "caring", "neutral", "indifferent", "cold", "cruel"]

  const RelationshipTypes: seq<string> :=
    ["familial", "romantic", "platonic", "professional", "adversarial", "indifferent"]
  const RelationshipDynamics: seq<string> :=
    ["equal", "leader-follower", "mentor-mentee", "rivals", "dependent-supporter", "exploitative"]
  const RelationshipStrengths: seq<string> :=
    ["strong", "moderate", "weak", "volatile", "distant", "unknown"]

  /** Bounds on the keyword array of a relationship sheet. */
  const MinKeywords: nat := 1
  const MaxKeywords: nat := 3

  /** The vocabulary of one trait key; no value is admitted under any other key. */
  function Vocabulary(key: string): seq<string>
  {
    if key == "intellect" then IntellectValues
    else if key == "charisma" then CharismaValues
    else if key == "integrity" then IntegrityValues
    else if key == "resilience" then ResilienceValues
    else if key == "kindness" then KindnessValues
    else []
  }

  /** The arguments of one `npc_character_sheet` call, as the service returns them. */
  datatype CharacterDetails = CharacterDetails(
    name: string,
    tldr: string,
    speechPattern: string,
    characterMotivation: string,
    intellect: string,
    charisma: string,
    integrity: string,
    resilience: string,
    kindness: string)

  /** Every trait of the returned sheet is drawn from its own vocabulary. */
  predicate WellFormedDetails(d: CharacterDetails)
  {
    && d.intellect in IntellectValues
    && d.charisma in CharismaValues
    && d.integrity in IntegrityValues
    && d.resilience in ResilienceValues
    && d.kindness in KindnessValues
  }

  /** A character sheet maps trait keys to trait values. */
  type CharacterSheet = map<string, string>

  predicate WellFormedSheet(sheet: CharacterSheet)
  {
    && sheet.Keys == TraitKeys
    && forall key :: key in sheet ==> sheet[key] in Vocabulary(key)
  }

  /** The arguments of one `npc_relationship_sheet` call: one NPC's view of another. */
  datatype Edge = Edge(
    relationshipType: string,
    relationshipDynamic: string,
    relationshipStrength: string,
    keywords: seq<string>,
    tldr: string)

  predicate WellFormedEdge(e: Edge)
  {
    && e.relationshipType in RelationshipTypes
    && e.relationshipDynamic in RelationshipDynamics
    && e.relationshipStrength in RelationshipStrengths
    && MinKeywords <= |e.keywords| <= MaxKeywords
  }

  /** An NPC's relations, keyed by the other NPC's name. */
  type Relations = map<string, Edge>

  predicate WellFormedRelations(relations: Relations)
  {
    forall other :: other in relations ==> WellFormedEdge(relations[other])
  }

  datatype MotivatingEntity = MotivatingEntity(name: string, description: string)

  /** The generated identity of an NPC: what a relationship prompt presents of it. */
  datatype Identity = Identity(
    name: string,
    tldr: string,
    speechPattern: string,
    motivation: string,
    characterSheet: CharacterSheet)

  /**
    An NPC. Everything but `memory` and `relations` is fixed once the NPC is
    built; relations grow as later NPCs are introduced.
   */
  datatype Npc = Npc(
    persona: string,
    occupation: string,
    motivatingFactor: MotivatingEntity,
    id: Identity,
    memory: seq<string>,
    relations: Relations)
}
