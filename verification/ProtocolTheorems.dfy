// Safety over every run of the upload and moderation protocol.
module ProtocolTheorems {
  import opened Bytes
  import opened Protocol
  import opened ProtocolInvariant
  import opened Tables

  // Although the existence check and the insertion are separate steps, no two rows ever share a
  // content hash or an object, and each row's object key is that of its hash.
  lemma {:induction false} DedupUnderRaces(env: Env, acts: seq<Action>)
    ensures var m := Exec(env, INITIAL, acts).tables.materials;
      && (forall i :: i in m ==> m[i].fileKey == KeyOf(m[i].contentHash))
      && forall i, j :: i in m && j in m && i != j ==>
           m[i].contentHash != m[j].contentHash && m[i].fileKey != m[j].fileKey
  {
    ReachableInv(env, acts);
    var m := Exec(env, INITIAL, acts).tables.materials;
    hide Exec;
    forall i, j | i in m && j in m && i != j
      ensures m[i].contentHash != m[j].contentHash && m[i].fileKey != m[j].fileKey
    {
      if m[i].fileKey == m[j].fileKey {
        KeyOfInjective(m[i].contentHash, m[j].contentHash);
      }
    }
  }

  ghost predicate Injective(sha: bytes -> string) {
    forall x, y :: sha(x) == sha(y) ==> x == y
  }

  // Every stored object hashes to its own key, so an object found under a row's key is the very
  // content whose hash the row records.
  lemma ObjectsHoldTheirContent(env: Env, acts: seq<Action>, key: string, content: bytes)
    requires key in Exec(env, INITIAL, acts).objects
    ensures key == KeyOf(env.sha(Exec(env, INITIAL, acts).objects[key]))
    ensures Injective(env.sha) && key == KeyOf(env.sha(content)) ==> Exec(env, INITIAL, acts).objects[key] == content
  {
    ReachableInv(env, acts);
    hide Exec;
    if key == KeyOf(env.sha(content)) {
      KeyOfInjective(env.sha(content), env.sha(Exec(env, INITIAL, acts).objects[key]));
    }
  }

  // has_text_layer says exactly whether extracted_text is there.
  lemma {:induction false} TextLayerConsistency(env: Env, acts: seq<Action>, id: Id)
    requires id in Exec(env, INITIAL, acts).tables.materials
    ensures var m := Exec(env, INITIAL, acts).tables.materials[id]; m.hasTextLayer <==> m.extractedText.Some?
  {
    ReachableInv(env, acts);
    hide Exec;
  }

  // The key a rejection has looked up stays the key of its row for as long as the row is there,
  // whatever other requests do meanwhile.
  lemma {:induction false} LookedUpKeyStays(env: Env, acts: seq<Action>, r: Id)
    requires r in Exec(env, INITIAL, acts).clients
    requires Exec(env, INITIAL, acts).clients[r].Keyed? || Exec(env, INITIAL, acts).clients[r].Unstored?
    ensures var s := Exec(env, INITIAL, acts);
      var p := s.clients[r];
      p.id in s.tables.materials ==>
        s.tables.materials[p.id].fileKey == p.key && p.key == KeyOf(s.tables.materials[p.id].contentHash)
  {
    ReachableInv(env, acts);
    hide Exec;
    assert PhaseOk(Exec(env, INITIAL, acts).tables, Exec(env, INITIAL, acts).clients[r]);
  }
}
