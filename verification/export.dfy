/**
  Export of a session: every NPC is written, in creation order, to a JSON
  file named after the sanitised stem of its name. The output directory is
  a map from file name to the record stored there, so a later NPC whose
  name sanitises to the same stem overwrites an earlier one.
 */
module Export {
  import opened Schema
  import opened Npcs

  /** The record written for one NPC: its identity and its relations, nothing else. */
  datatype Payload = Payload(
    name: string,
    tldr: string,
    speechPattern: string,
    motivation: string,
    characterSheet: CharacterSheet,
    relations: Relations)

  /** The output directory: file name to stored record. */
  type Directory = map<string, Payload>

  function PayloadOf(npc: Npc): (r: Payload)
    ensures IdentityOf(r) == npc.id && r.relations == npc.relations
  {
    Payload(npc.id.name, npc.id.tldr, npc.id.speechPattern, npc.id.motivation,
            npc.id.characterSheet, npc.relations)
  }

  /** Reads an identity back out of a stored record. */
  function IdentityOf(p: Payload): Identity
  {
    Identity(p.name, p.tldr, p.speechPattern, p.motivation, p.characterSheet)
  }

  /**
    The record keeps the identity and the relations and drops the persona,
    occupation, motivating entity and memory: two NPCs get the same record
    exactly when they agree on identity and relations.
   */
  lemma PayloadKeepsIdentityAndRelations(a: Npc, b: Npc)
    ensures IdentityOf(PayloadOf(a)) == a.id && PayloadOf(a).relations == a.relations
    ensures PayloadOf(a) == PayloadOf(b) <==> a.id == b.id && a.relations == b.relations
  {
    if PayloadOf(a) == PayloadOf(b) {
      assert IdentityOf(PayloadOf(a)) == IdentityOf(PayloadOf(b));
    }
  }

  const Extension: string := ".json"

  /** The file an NPC is exported to. */
  function FileName(npc: Npc): (r: string)
    ensures |r| == |npc.id.name| + |Extension|
    ensures IsStem(r[..|npc.id.name|]) && r[|npc.id.name|..] == Extension
  {
    Stem(npc.id.name) + Extension
  }

  /** Two NPCs share a file exactly when their names share a stem. */
  lemma SameFileIffSameStem(a: Npc, b: Npc)
    ensures FileName(a) == FileName(b) <==> Stem(a.id.name) == Stem(b.id.name)
  {
    var n := |a.id.name|;
    if FileName(a) == FileName(b) {
      assert |Stem(a.id.name)| == n && |Stem(b.id.name)| == |b.id.name|;
      assert Stem(a.id.name) == FileName(a)[..n];
    }
  }

  /** One file write: the file name and the record written to it. */
  datatype Write = Write(file: string, payload: Payload)

  /** Writing one record: its file now holds it, every other file is untouched. */
  function WriteFile(dir: Directory, w: Write): (r: Directory)
    ensures r.Keys == dir.Keys + {w.file}
    ensures r[w.file] == w.payload
    ensures forall f :: f in dir && f != w.file ==> r[f] == dir[f]
  {
    dir[w.file := w.payload]
  }

  /** The files a sequence of writes touches. */
  function Files(writes: seq<Write>): set<string>
  {
    set i | 0 <= i < |writes| :: writes[i].file
  }

  lemma FilesSnoc(writes: seq<Write>)
    requires |writes| > 0
    ensures Files(writes) == Files(writes[..|writes| - 1]) + {writes[|writes| - 1].file}
  {
    var init := writes[..|writes| - 1];
    assert forall i :: 0 <= i < |init| ==> init[i] == writes[i];
  }

  /** Writes applied one after another: exactly their files are added. */
  function WriteAll(dir: Directory, writes: seq<Write>): (r: Directory)
    ensures r.Keys == dir.Keys + Files(writes)
    decreases |writes|
  {
    if |writes| == 0 then
      dir
    else
      FilesSnoc(writes);
      WriteFile(WriteAll(dir, writes[..|writes| - 1]), writes[|writes| - 1])
  }

  lemma WriteAllSnoc(dir: Directory, writes: seq<Write>, i: nat)
    requires i < |writes|
    ensures WriteAll(dir, writes[..i + 1]) == WriteFile(WriteAll(dir, writes[..i]), writes[i])
  {
    assert writes[..i + 1][..i] == writes[..i];
  }

  /** No write after position `i` goes to the same file as write `i`. */
  predicate LastWrite(writes: seq<Write>, i: nat)
    requires i < |writes|
  {
    forall j :: i < j < |writes| ==> writes[j].file != writes[i].file
  }

  /** Files no write touches keep their records. */
  lemma {:induction false} WriteAllKeepsOthers(dir: Directory, writes: seq<Write>)
    ensures forall f :: f in dir && f !in Files(writes) ==> WriteAll(dir, writes)[f] == dir[f]
    decreases |writes|
  {
    if |writes| > 0 {
      FilesSnoc(writes);
      WriteAllKeepsOthers(dir, writes[..|writes| - 1]);
    }
  }

  /** A file holds the record of the last write to it. */
  lemma {:induction false} WriteAllLastWins(dir: Directory, writes: seq<Write>, i: nat)
    requires i < |writes| && LastWrite(writes, i)
    ensures WriteAll(dir, writes)[writes[i].file] == writes[i].payload
    decreases |writes|
  {
    var init := writes[..|writes| - 1];
    if i < |init| {
      assert init[i] == writes[i];
      assert LastWrite(init, i) by {
        forall j | i < j < |init|
          ensures init[j].file != init[i].file
        {
          assert init[j] == writes[j];
        }
      }
      WriteAllLastWins(dir, init, i);
    }
  }

  /** The writes of an export: one per NPC, in creation order. */
  function Writes(nodes: seq<Npc>): (r: seq<Write>)
    ensures |r| == |nodes|
    ensures forall i :: 0 <= i < |nodes| ==> r[i] == Write(FileName(nodes[i]), PayloadOf(nodes[i]))
  {
    seq(|nodes|, i requires 0 <= i < |nodes| => Write(FileName(nodes[i]), PayloadOf(nodes[i])))
  }

  /** When no two names share a stem, every NPC's own record is stored, under its own file. */
  lemma DistinctStemsKeepEveryRecord(dir: Directory, nodes: seq<Npc>)
    requires forall i, j :: 0 <= i < j < |nodes| ==> Stem(nodes[i].id.name) != Stem(nodes[j].id.name)
    ensures forall i :: 0 <= i < |nodes| ==> WriteAll(dir, Writes(nodes))[FileName(nodes[i])] == PayloadOf(nodes[i])
  {
    var writes := Writes(nodes);
    forall i | 0 <= i < |nodes|
      ensures WriteAll(dir, writes)[FileName(nodes[i])] == PayloadOf(nodes[i])
    {
      forall j | i < j < |nodes|
        ensures writes[j].file != writes[i].file
      {
        SameFileIffSameStem(nodes[i], nodes[j]);
      }
      WriteAllLastWins(dir, writes, i);
    }
  }

  /**
    Two NPCs with different names that share a stem (such as "Mira-Jang" and
    "Mira Jang") leave one file behind, holding the second one's record: the
    first record is lost.
   */
  lemma SharedStemLosesRecord(a: Npc, b: Npc)
    requires a.id.name != b.id.name && Stem(a.id.name) == Stem(b.id.name)
    ensures WriteAll(map[], Writes([a, b])).Keys == {FileName(b)}
    ensures WriteAll(map[], Writes([a, b]))[FileName(b)] == PayloadOf(b)
    ensures PayloadOf(a) != PayloadOf(b)
  {
    SameFileIffSameStem(a, b);
    var writes := Writes([a, b]);
    assert writes[0].file == FileName(a) == FileName(b) == writes[1].file;
    FilesSnoc(writes);
    FilesSnoc(writes[..1]);
    assert writes[..1][..0] == [];
    assert LastWrite(writes, 1);
    WriteAllLastWins(map[], writes, 1);
    assert PayloadOf(a).name != PayloadOf(b).name;
  }

  /** Applies the writes one after another. */
  method WriteEach(dir: Directory, writes: seq<Write>) returns (dir': Directory)
    ensures dir' == WriteAll(dir, writes)
    ensures dir'.Keys == dir.Keys + Files(writes)
  {
    dir' := dir;
    var i := 0;
    while i < |writes|
      invariant 0 <= i <= |writes|
      invariant dir' == WriteAll(dir, writes[..i])
    {
      WriteAllSnoc(dir, writes, i);
      dir' := WriteFile(dir', writes[i]);
      i := i + 1;
    }
    assert writes[..i] == writes;
  }

  /**
    Writes every NPC of the session, in creation order, and reports the
    files written, one per NPC: the directory gains exactly their files.
   */
  method ExportAll(nodes: seq<Npc>, dir: Directory) returns (written: seq<string>, dir': Directory)
    ensures |written| == |nodes| && forall i :: 0 <= i < |nodes| ==> written[i] == FileName(nodes[i])
    ensures dir' == WriteAll(dir, Writes(nodes))
    ensures dir'.Keys == dir.Keys + Files(Writes(nodes))
  {
    var writes := Writes(nodes);
    written := seq(|writes|, i requires 0 <= i < |writes| => writes[i].file);
    dir' := WriteEach(dir, writes);
  }
}
