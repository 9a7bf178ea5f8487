/**
  The NPC entity: construction from one character-sheet call, the directed
  relationship update, the bounded conversation memory, and the sanitised
  file stem under which an NPC is exported.
 */
module Npcs {
  import opened Schema

  /** What the constructor hands to the character-sheet call. */
  datatype CharacterRequest = CharacterRequest(
    persona: string,
    occupation: string,
    factor: MotivatingEntity,
    otherNames: Option<seq<string>>,  // None for the first NPC of a session
    initial: char)                    // the random first letter the prompt asks for

  /** The character-sheet call of the generation service. */
  type CharacterOracle = CharacterRequest -> CharacterDetails

  /** The relationship-sheet call: NPC 1, NPC 2 and the optional context of NPC 2's own view. */
  type RelationOracle = (Identity, Identity, Option<Relations>) -> Edge

  /** The summarisation call, given the whole memory to condense. */
  type Summarizer = seq<string> -> string

  /** The character sheet the constructor assembles from the returned details. */
  function SheetOf(d: CharacterDetails): (r: CharacterSheet)
    ensures r.Keys == TraitKeys
  {
    map["intellect" := d.intellect,
        "charisma" := d.charisma,
        "integrity" := d.integrity,
        "resilience" := d.resilience,
        "kindness" := d.kindness]
  }

  /** Reads the returned details back out of an identity. */
  function DetailsOf(id: Identity): CharacterDetails
    requires TraitKeys <= id.characterSheet.Keys
  {
    var sheet := id.characterSheet;
    CharacterDetails(id.name, id.tldr, id.speechPattern, id.motivation,
                     sheet["intellect"], sheet["charisma"], sheet["integrity"],
                     sheet["resilience"], sheet["kindness"])
  }

  /**
    A freshly built NPC: no relations, no memory, exactly the five trait keys,
    and an identity that holds what the service returned and nothing else.
   */
  function NewNpc(req: CharacterRequest, gen: CharacterOracle): (r: Npc)
    ensures r.relations == map[] && r.memory == []
    ensures r.persona == req.persona && r.occupation == req.occupation
    ensures r.motivatingFactor == req.factor
    ensures r.id.characterSheet.Keys == TraitKeys
    ensures DetailsOf(r.id) == gen(req)
    ensures WellFormedDetails(gen(req)) ==> WellFormedSheet(r.id.characterSheet)
  {
    var d := gen(req);
    Npc(req.persona, req.occupation, req.factor,
        Identity(d.name, d.tldr, d.speechPattern, d.characterMotivation, SheetOf(d)),
        [], map[])
  }

  /** The converse of `NewNpc`'s last promise: a sheet with exactly the trait keys is rebuilt from its details. */
  lemma SheetRoundTrip(id: Identity)
    requires id.characterSheet.Keys == TraitKeys
    ensures SheetOf(DetailsOf(id)) == id.characterSheet
    ensures WellFormedSheet(id.characterSheet) <==> WellFormedDetails(DetailsOf(id))
  {
    SheetOfDetails(id);
    SheetConformsIff(DetailsOf(id));
  }

  lemma SheetOfDetails(id: Identity)
    requires id.characterSheet.Keys == TraitKeys
    ensures SheetOf(DetailsOf(id)) == id.characterSheet
  {
    var sheet, rebuilt := id.characterSheet, SheetOf(DetailsOf(id));
    assert rebuilt.Keys == sheet.Keys;
    forall key | key in sheet
      ensures rebuilt[key] == sheet[key]
    {
      assert key in TraitKeys;
    }
  }

  /** The assembled sheet conforms to the vocabularies exactly when the returned details do. */
  lemma SheetConformsIff(d: CharacterDetails)
    ensures WellFormedSheet(SheetOf(d)) <==> WellFormedDetails(d)
  {
    var sheet := SheetOf(d);
    assert sheet["intellect"] == d.intellect && Vocabulary("intellect") == IntellectValues;
    assert sheet["charisma"] == d.charisma && Vocabulary("charisma") == CharismaValues;
    assert sheet["integrity"] == d.integrity && Vocabulary("integrity") == IntegrityValues;
    assert sheet["resilience"] == d.resilience && Vocabulary("resilience") == ResilienceValues;
    assert sheet["kindness"] == d.kindness && Vocabulary("kindness") == KindnessValues;
  }

  /**
    `self` records its view of `other`: exactly the entry under `other`'s
    name is set (overwriting any earlier one), every other entry and every
    other field of `self` stay as they were.
   */
  function SetRelation(self: Npc, other: Npc, context: Option<Relations>, rel: RelationOracle): (r: Npc)
    ensures r.relations.Keys == self.relations.Keys + {other.id.name}
    ensures r.relations[other.id.name] == rel(self.id, other.id, context)
    ensures forall key :: key in self.relations && key != other.id.name ==> r.relations[key] == self.relations[key]
    ensures r == self.(relations := r.relations)
  {
    self.(relations := self.relations[other.id.name := rel(self.id, other.id, context)])
  }

  /** Memory beyond this many messages is condensed into one summary. */
  const MemoryLimit: nat := 8

  /**
    Appends a conversation to the memory; when that makes the memory longer
    than `MemoryLimit`, the whole memory is replaced by one summary of it.
   */
  function AddToMemory(npc: Npc, conversation: seq<string>, summarize: Summarizer): (r: Npc)
    ensures |r.memory| <= MemoryLimit
    ensures |npc.memory| + |conversation| <= MemoryLimit ==> r.memory == npc.memory + conversation
    ensures |npc.memory| + |conversation| > MemoryLimit ==> r.memory == [summarize(npc.memory + conversation)]
    ensures r == npc.(memory := r.memory)
  {
    var extended := npc.memory + conversation;
    if |extended| > MemoryLimit then npc.(memory := [summarize(extended)])
    else npc.(memory := extended)
  }

  function Flatten(conversations: seq<seq<string>>): seq<string>
  {
    if |conversations| == 0 then [] else conversations[0] + Flatten(conversations[1..])
  }

  /** Several conversations remembered one after another. */
  function RememberAll(npc: Npc, conversations: seq<seq<string>>, summarize: Summarizer): Npc
    decreases |conversations|
  {
    if |conversations| == 0 then npc
    else RememberAll(AddToMemory(npc, conversations[0], summarize), conversations[1..], summarize)
  }

  /** As long as everything fits, nothing is summarised: the memory is the plain concatenation. */
  lemma {:induction false} NoSummaryWhileWithinLimit(npc: Npc, conversations: seq<seq<string>>, summarize: Summarizer)
    requires |npc.memory| + |Flatten(conversations)| <= MemoryLimit
    ensures RememberAll(npc, conversations, summarize).memory == npc.memory + Flatten(conversations)
    decreases |conversations|
  {
    if |conversations| > 0 {
      var next := AddToMemory(npc, conversations[0], summarize);
      assert next.memory == npc.memory + conversations[0];
      NoSummaryWhileWithinLimit(next, conversations[1..], summarize);
      assert npc.memory + conversations[0] + Flatten(conversations[1..])
          == npc.memory + (conversations[0] + Flatten(conversations[1..]));
    }
  }

  /** However much is remembered, the memory stays within `MemoryLimit`, and nothing but the memory changes. */
  lemma {:induction false} MemoryStaysBounded(npc: Npc, conversations: seq<seq<string>>, summarize: Summarizer)
    requires |npc.memory| <= MemoryLimit
    ensures |RememberAll(npc, conversations, summarize).memory| <= MemoryLimit
    ensures RememberAll(npc, conversations, summarize) == npc.(memory := RememberAll(npc, conversations, summarize).memory)
    decreases |conversations|
  {
    if |conversations| > 0 {
      MemoryStaysBounded(AddToMemory(npc, conversations[0], summarize), conversations[1..], summarize);
    }
  }

  predicate IsAsciiLetter(c: char)
  {
    'a' <= c <= 'z' || 'A' <= c <= 'Z'
  }

  /** A file stem: every character an ASCII letter or an underscore. */
  predicate IsStem(s: string)
  {
    forall i :: 0 <= i < |s| ==> IsAsciiLetter(s[i]) || s[i] == '_'
  }

  /** The export file stem of a name: every character outside A-Z and a-z becomes an underscore. */
  function Stem(name: string): (r: string)
    ensures |r| == |name|
    ensures forall i :: 0 <= i < |name| && IsAsciiLetter(name[i]) ==> r[i] == name[i]
    ensures forall i :: 0 <= i < |name| && !IsAsciiLetter(name[i]) ==> r[i] == '_'
    ensures IsStem(r)
  {
    seq(|name|, i requires 0 <= i < |name| => if IsAsciiLetter(name[i]) then name[i] else '_')
  }

  /** The stems are exactly the fixed points of `Stem`; in particular `Stem` is idempotent. */
  lemma StemFixedPoints(s: string)
    ensures Stem(s) == s <==> IsStem(s)
    ensures Stem(Stem(s)) == Stem(s)
  {
    if IsStem(s) {
      assert forall i :: 0 <= i < |s| ==> Stem(s)[i] == s[i];
    }
    var t := Stem(s);
    assert forall i :: 0 <= i < |t| ==> Stem(t)[i] == t[i];
  }

  /** Digits are not letters: they are replaced along with spaces and punctuation. */
  lemma StemReplacesDigits()
    ensures Stem("Mira-Jang 2") == "Mira_Jang__"
  {
    var r := Stem("Mira-Jang 2");
    assert r[4] == '_' && r[9] == '_' && r[10] == '_';
  }

  /** Different names can share a stem. */
  lemma StemNotInjective()
    ensures "Mira-Jang" != "Mira Jang" && Stem("Mira-Jang") == Stem("Mira Jang")
  {
    var a, b := Stem("Mira-Jang"), Stem("Mira Jang");
    assert "Mira-Jang"[4] == '-';
    assert a[4] == '_' && b[4] == '_';
  }
}
