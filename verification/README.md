# NPC generator — a Dafny model

This project models the core of a small NPC generator for games. A form
collects a setting and four sliders. A "world-builder" call to a
language-model service returns three lists: personas, occupations and
motivating entities. Each list is cut at random to a target size derived
from the sliders. Then `num_npcs` NPCs are built one after another:

- each NPC is built from a random persona, occupation and entity, and one
  character-sheet call;
- each new NPC is introduced to every earlier one with two
  relationship-sheet calls, one per direction;
- finally every NPC is exported to a JSON file named after its sanitised
  name.

An NPC also keeps a bounded conversation memory, which is summarised once it
grows past eight messages.

The modules follow the two source files:

- `Schema` (schema.dfy) holds the structured-output contracts. These are the
  five ranked trait vocabularies of the character sheet and the relationship
  sheet with its three vocabularies and its 1–3 keywords. It also holds the
  records built from them: `Identity` and `Npc`.
- `Npcs` (npc.dfy) holds the `NPC` class: construction, `set_relation`,
  `add_to_memory` / `batch_summarize`, and the file-name sanitiser of
  `export_npc`.
- `Palette` (palette.dfy) holds `generate_lists`' truncation and the target
  arithmetic of the form.
- `Graph` (graph.dfy) holds the creation loop and the O(n²) pairwise
  relationship construction.
- `Export` (export.dfy) holds the export loop, with the output directory
  modelled as a map from file name to record.
- `Generator` (app.dfy) composes the pipeline for one press of the
  generate button. `Generate` takes the targets as a parameter.
  `GenerateAsWritten` runs it with the targets the form computes, and
  `GenerateIntended` with the corrected ones (see "## Findings"). The export
  writes over the output directory as it stood before the press.

The three service calls are parameters of function type:

- `CharacterOracle` is the character-sheet call;
- `RelationOracle` is the relationship-sheet call, given NPC 1, NPC 2 and
  the optional context;
- `Summarizer` is the summarisation call.

The answer of the world-builder call is an input palette, `raw`. The call
never sees the target sizes: its prompt carries only the game details, and
the template's `{num_personas}` placeholders are not filled in.

Every contract holds for all such functions. Where the service's JSON
schema constrains the answer, the contract says so under an explicit
hypothesis, for example `OraclesWellFormed(gen, rel) ==> AllWellFormed(nodes)`.

The random choices are also inputs:

- the positions `np.random.choice(..., replace=False)` keeps are `Picks`;
- the persona, occupation and entity drawn for each NPC, and the initial
  letter its name prompt asks for, are a `Draw`.

Drawing from an empty list raises in the source. The model represents this
as the `Aborted` outcome of a session.

Two details of the code are easy to misread; the model follows the code:

- The sanitiser replaces every character outside `A-Z`/`a-z`, digits
  included (`Stem("Mira-Jang 2") == "Mira_Jang__"`).
- Targets are computed with `int()` truncation (`Floor` on a non-negative
  real), not by rounding.

## Model

| member | source | states |
|---|---|---|
| Npcs.NewNpc | npc.py:111-146 | A new NPC has no relations and no memory. It keeps the persona, occupation and motivating factor it was given. Its sheet has exactly the five trait keys. Reading the identity back gives exactly what the character-sheet call returned. A schema-conforming answer gives a sheet whose values lie in their own vocabularies. |
| Npcs.SheetRoundTrip | npc.py:140-146 | A sheet with exactly the five trait keys is rebuilt unchanged from the details read out of it. It conforms to the vocabularies iff those details do. |
| Npcs.SetRelation | npc.py:233-295 | After the call, the relations map holds the old keys plus the other NPC's name. The entry under that name is what the relationship call returns for (self, other, context), overwriting any earlier one. Every other entry and every other field is unchanged. |
| Npcs.AddToMemory | npc.py:205-231 | The memory never exceeds 8 messages. If the extended memory has at most 8 messages it is the old memory followed by the conversation. Otherwise it is the single summary of that whole extended memory. Nothing but the memory changes. |
| Npcs.NoSummaryWhileWithinLimit | npc.py:212-214 | Conversations that fit within 8 messages together are remembered verbatim and in order, with no summary. |
| Npcs.MemoryStaysBounded | npc.py:212-231 | However many conversations are added, the memory stays within 8 messages and no other field changes. |
| Npcs.Stem | npc.py:314 | The stem has the name's length. Every ASCII letter is kept in place. Every other character becomes `_`. The result consists of letters and underscores only. |
| Npcs.StemFixedPoints | npc.py:314 | A string is its own stem iff it consists of ASCII letters and underscores only. Sanitising twice is sanitising once. |
| Npcs.StemReplacesDigits | npc.py:314 | Digits are replaced too: "Mira-Jang 2" is stored as "Mira_Jang__". |
| Npcs.StemNotInjective | npc.py:314 | Two different names ("Mira-Jang", "Mira Jang") share a stem. |
| Npcs.SheetOf | npc.py:140-146 | The assembled sheet has exactly the five trait keys. |
| Npcs.SheetConformsIff | npc.py:140-146 | The assembled sheet conforms to the five vocabularies exactly when the returned details do. |
| Palette.SelectIsSubMultiset | app.py:106-112 | Keeping distinct positions of a list never yields an element more often than the list holds it. |
| Palette.Truncate | app.py:106-112 | A list no longer than its target is kept as is. A longer one becomes exactly `target` elements, taken at the drawn distinct positions in draw order. The result is a sub-multiset of the list, and has no duplicates if the list had none. |
| Palette.GenerateLists | app.py:77-113 | Each of the three lists of the palette is a cut of the corresponding returned list to its own target. |
| Palette.ListsCutIndependently | app.py:106-112 | Each cut list depends only on its own returned list, target and draw. |
| Palette.Scaled | app.py:145-147 | A target, `int(num_npcs * diversity / 1)`, is at most the NPC count. It equals the NPC count at diversity 1 and is 0 at diversity 0. |
| Palette.TargetsAsWritten | app.py:145-147 | The targets as the form computes them. The persona target comes from the "Diversity of Occupations" slider and the occupation target from the "Diversity of Character Traits" slider. |
| Palette.OccupationSliderDrivesPersonas | app.py:129-146 | With 10 NPCs, occupation diversity 1 and character-trait diversity 0, the form asks for 10 personas and 0 occupations. |
| Palette.CutEmptyIff | app.py:106-112 | A cut palette has an empty list exactly when a returned list was empty or its target is 0. |
| Palette.SingleNpcEmptiesPalette | app.py:131-147 | With one NPC and every diversity slider at its default 0.5, every target is 0 and the palette has an empty list. |
| Palette.ScaledAtLeastOne | app.py:145-147 | The corrected target lies between 1 and the NPC count. It equals the as-written target whenever that is positive. |
| Palette.TargetsIntended | app.py:145-148 | Each corrected target lies in 1..num_npcs. The occupation, character-trait and motivation sliders at 1 give full occupation, persona and entity lists respectively. |
| Palette.TargetsFollowTheirLabels | app.py:148 | Each corrected target depends only on the NPC count and on the slider labelled for its list. |
| Palette.IntendedTargetsKeepListsFilled | app.py:106-113 | With the corrected targets, the palette has an empty list only when the service returned one. |
| Graph.Visit | app.py:167-168 | One pass of the inner loop keeps the loop's promise for one more earlier NPC. The two calls are appended, and the newest NPC's relations are its starting map updated with every view logged so far. |
| Graph.StoredContext | app.py:167-168 | The context of the second call for earlier NPC j holds the newest NPC's starting entries plus one entry per earlier NPC up to j. Its entry for j is the answer of the first call of the pair. |
| Graph.StoredPrefix | app.py:166-168 | Calls made later in the loop do not change the relations that earlier calls stored. |
| Graph.ConnectNewest | app.py:166-168 | For each earlier NPC j in creation order, two calls are made. First the newest NPC's call about j, with no context. Then j's call about the newest NPC, with context exactly the newest NPC's relations at that moment: its starting map updated with its answers for NPCs 0..j (`StoredAfter`). Its final relations are that map after all earlier NPCs. The newest NPC gains exactly the earlier names as keys, and each entry is its call's answer. Each earlier NPC gains exactly the entry for the newest NPC. Schema-conforming answers keep relations well formed. |
| Graph.RequestFor | app.py:156-162 | NPC i is asked for with the persona, occupation and entity at draw i's positions, each a member of its palette list. The name list is absent exactly for the first NPC; otherwise it is the earlier names. |
| Graph.DistinctNameSetSize | app.py:164 | n NPCs with distinct names have n distinct names in the name list. |
| Graph.OtherNamesOfDistinct | app.py:166-168 | With distinct names, each NPC sees exactly n - 1 other names. |
| Graph.TotalCallsQuadratic | app.py:155-168 | Two relationship calls per earlier NPC at every step make n(n-1) calls for n NPCs. |
| Graph.CreateAll | app.py:155-168 | The creation loop aborts exactly when some palette list is empty and there is at least one NPC. Otherwise it leaves `count` NPCs satisfying the session invariant. Its call log fixes every call: each second call's context is exactly the newest NPC's relations right after its first call for that pair. |
| Graph.RunSession | app.py:152-168 | The session aborts iff `num_npcs > 0` and some list is empty. When it completes (`SessionOutcome`), NPC i was built from draw i, with no name list for the first NPC and the names of NPCs 0..i-1 for the others. Every NPC's relations hold exactly the other NPCs' names. The calls are logged in the order of the nested loop, n(n-1) in all. Each second call's context is exactly the newest NPC's relations right after its first call for that pair. With distinct names, each stored edge is the answer of its call and each NPC has n-1 relations. Schema-conforming answers give well-formed sheets and relations. |
| Export.PayloadOf | npc.py:306-313 | The exported record gives back the NPC's identity and its relations. |
| Export.PayloadKeepsIdentityAndRelations | npc.py:306-313 | The exported record holds the identity and the relations and nothing else. Two NPCs export the same record iff they agree on both. |
| Export.FileName | npc.py:314 | The file name is the name's sanitised stem, of the same length and made of letters and underscores only, followed by ".json". |
| Export.SameFileIffSameStem | npc.py:314 | Two NPCs are written to the same file iff their names share a stem. |
| Export.WriteFile | npc.py:314-315 | Writing one record sets exactly its file and leaves every other file as it was. |
| Export.WriteAll | app.py:171-172 | Applying the writes in order adds exactly the files they name to the directory. |
| Export.WriteAllKeepsOthers | app.py:171-172 | Files no NPC is written to keep their contents. |
| Export.WriteAllLastWins | app.py:171-172 | A file holds the record of the last NPC written to it. |
| Export.DistinctStemsKeepEveryRecord | app.py:171-172 | When no two names share a stem, every NPC's own record is found under its own file. |
| Export.SharedStemLosesRecord | npc.py:314 | Two differently named NPCs whose names share a stem leave one file, holding the second record; the first record is lost. |
| Export.WriteEach | app.py:171-172 | Writing the records one after another adds exactly their files and gives the last-writer-wins directory. |
| Export.ExportAll | app.py:171-172 | One file per NPC is written, in creation order, under `Stem(name) + ".json"`. The directory gains exactly those files. |
| Generator.Generate | app.py:151-172 | Each palette list is a cut of the returned list to its target. The session aborts iff there is an NPC to build and some returned list is empty or has target 0; then nothing is written. Otherwise the session outcome holds for `num_npcs` NPCs, and each NPC is exported in creation order over the existing directory. |
| Generator.GenerateAsWritten | app.py:145-172 | With the targets as the form computes them, the press aborts iff a returned list is empty or a truncated target is 0. So any diversity slider at 0.0 aborts, however full the returned lists are. |
| Generator.GenerateIntended | app.py:145-172 | With the corrected targets, the press aborts iff the service returned an empty list. Otherwise all `num_npcs` NPCs are built, related and exported. |

## Left out

- The language-model service is not modelled. Prompts, models, temperatures and JSON decoding are replaced by the oracle parameters. An answer that violates the schema is admitted, and the contracts state well-formedness only under a well-formed-oracle hypothesis.
- Randomness is not modelled. It becomes the `Picks` and `Draw` inputs, and the uniform distribution of the numpy draws is not modelled.
- The Streamlit user interface is left out: columns, progress bar, `st.write` and secret loading. So are `game_details`, which only feeds prompts, and the API key.
- File-system effects are left out: directory creation, `os.path.join`, JSON serialisation and indentation. The output directory is a map from file name to record, and the `./characters` prefix, common to all files, is dropped.
- Palette.Scaled: `num_npcs * diversity / 1` is a float product truncated by `int()`. It is modelled on exact reals with `Floor`; for slider values in [0, 1] this differs from the floating-point product only at rounding boundaries.
- Palette.TargetsIntended: the world-builder template is not modelled; it is not an f-string, so its `{num_personas}` placeholders go to the service literally. The mismatched `required` keys of the motivating-entity objects are not modelled either. The template is used only as evidence of which slider is meant for which list.
- `json.dumps(relations)` as relationship context is modelled by passing the relations map itself.
- Relations under duplicate names are overwritten, as in the source, but the per-edge and count properties of Graph.RunSession are stated only for sessions whose names are distinct.
- A session whose oracles or random draws raise mid-way is not modelled beyond the empty-list abort.

## Findings

| source | as written | input that shows it | evidently intended | confidence | as-written member | corrected member |
|---|---|---|---|---|---|---|
| app.py:145-146 | The persona target `num_characteristics` uses the "Diversity of Occupations" slider, and the occupation target uses the "Diversity of Character Traits" slider. Line 148 passes the same values to the template by label (character traits to personas, occupations to occupations). | 10 NPCs, occupation diversity 1.0, character-trait diversity 0.0: the form asks for 10 personas and 0 occupations. | Each slider sizes the list it is labelled for. | medium, not executed | Palette.TargetsAsWritten, Palette.OccupationSliderDrivesPersonas | Palette.TargetsIntended, Palette.TargetsFollowTheirLabels |
| app.py:145-147 | `int(num_npcs * diversity)` truncates to 0 whenever `num_npcs * diversity < 1`. The list is then cut to nothing and the first `np.random.choice` on it raises. | 1 NPC with all sliders at their default 0.5: every target is 0. Any diversity slider at 0.0 gives a target of 0 for every NPC count. | Every list keeps at least one element, so that a session can be built. | medium, not executed | Palette.SingleNpcEmptiesPalette, Palette.CutEmptyIff, Generator.GenerateAsWritten | Palette.ScaledAtLeastOne, Palette.IntendedTargetsKeepListsFilled, Generator.GenerateIntended |
