// Which runs keep every row together with its object.
module ObjectAgreement {
  import opened Bytes
  import opened Protocol
  import opened ProtocolInvariant
  import opened Tables

  // A rejection of this very row has dropped the object and is about to drop the row.
  ghost predicate BeingDeleted(s: State, id: Id) {
    exists r :: r in s.clients && s.clients[r].Unstored? && s.clients[r].id == id
  }

  ghost predicate RowsHaveObjects(s: State) {
    forall id :: id in s.tables.materials ==> s.tables.materials[id].fileKey in s.objects || BeingDeleted(s, id)
  }

  // The upload has its object in the store and inserts its row.
  predicate Inserts(env: Env, s: State, u: Id, call: Call, newId: Id) {
    && u in s.clients && s.clients[u].Stored? && s.clients[u].req.claims.Some? && newId !in s.tables.seen
    && MayInsert(s.tables, InputFor(env, s.clients[u].req, s.clients[u].req.claims.value, s.clients[u].course))
    && TakesEffect(call)
  }

  // The row of request r is there, its object is not, and no other request is about to delete it.
  ghost predicate LastDeletion(s: State, r: Id) {
    && r in s.clients && s.clients[r].Unstored?
    && s.clients[r].id in s.tables.materials
    && s.tables.materials[s.clients[r].id].fileKey !in s.objects
    && forall q :: q in s.clients && q != r && s.clients[q].Unstored? ==> s.clients[q].id != s.clients[r].id
  }

  // The row stands under the key that request r is about to drop, but is not the row it looked up.
  ghost predicate Newer(s: State, r: Id, id: Id) {
    && r in s.clients && s.clients[r].Keyed?
    && id in s.tables.materials && id != s.clients[r].id && s.tables.materials[id].fileKey == s.clients[r].key
    && !BeingDeleted(s, id)
  }

  // The steps that part a row from its object: dropping the object of a row uploaded since the
  // lookup, inserting a row whose object has been dropped since the Put, and losing the row delete
  // that was to follow the object's.
  ghost predicate Orphans(env: Env, s: State, a: Action) {
    match a
    case DropObject(r, call) => TakesEffect(call) && exists id :: Newer(s, r, id)
    case CreateRow(u, call, newId) => Inserts(env, s, u, call, newId) && KeyFor(env, s.clients[u].req) !in s.objects
    case DropRow(r, call) => call == FailsBefore && LastDeletion(s, r)
    case _ => false
  }

  // ---------------------------------------------------------------------------------------------
  // Rows keep their objects exactly until such a step.

  // Request c alone moves, and not out of a deletion.
  predicate Moves(s: State, s': State, c: Id) {
    && c in s'.clients && s'.clients == s.clients[c := s'.clients[c]]
    && (c in s.clients ==> !s.clients[c].Unstored?)
  }

  lemma DeletionsKept(s: State, s': State, c: Id)
    requires Moves(s, s', c)
    ensures forall id :: BeingDeleted(s, id) ==> BeingDeleted(s', id)
  {
    forall id | BeingDeleted(s, id)
      ensures BeingDeleted(s', id)
    {
      var r :| r in s.clients && s.clients[r].Unstored? && s.clients[r].id == id;
      assert r != c && s'.clients[r] == s.clients[r];
    }
  }

  // The same rows with the same keys.
  predicate SameKeys(t: Tables, t': Tables) {
    && t.materials.Keys == t'.materials.Keys
    && forall id :: id in t.materials ==> t.materials[id].fileKey == t'.materials[id].fileKey
  }

  // Rows keep their keys, no object goes, and no request but c moves: not out of a deletion, and not
  // past its lookup.
  predicate Quiet(s: State, s': State, c: Id) {
    && SameKeys(s.tables, s'.tables) && s.objects.Keys <= s'.objects.Keys
    && (s'.clients == s.clients || (Moves(s, s', c) && !s'.clients[c].Keyed?))
  }

  predicate IsQuiet(a: Action) {
    a.StartUpload? || a.StartReject? || a.StartResolve? || a.CheckExists? || a.ResolveCourse? || a.PutObject?
    || a.MarkResolved?
  }

  lemma QuietStep(env: Env, s: State, a: Action)
    requires IsQuiet(a)
    ensures Quiet(s, Apply(env, s, a), a.c)
  {
    hide HashTaken, Closed, KeyFor;
  }

  lemma RowsStay(s: State, s': State, c: Id)
    requires RowsHaveObjects(s) && SameKeys(s.tables, s'.tables) && s.objects.Keys <= s'.objects.Keys
    requires s'.clients == s.clients || Moves(s, s', c)
    ensures RowsHaveObjects(s')
  {
    if s'.clients != s.clients {
      DeletionsKept(s, s', c);
    } else {
      SameDeletions(s, s');
    }
    hide BeingDeleted;
  }

  lemma SameDeletions(s: State, s': State)
    requires s'.clients == s.clients
    ensures forall id :: BeingDeleted(s, id) <==> BeingDeleted(s', id)
  {
  }

  lemma RowsAfterDropObject(env: Env, s: State, r: Id, call: Call)
    requires RowsHaveObjects(s)
    ensures RowsHaveObjects(ApplyDropObject(s, r, call)) <==> !Orphans(env, s, DropObject(r, call))
  {
    var s' := ApplyDropObject(s, r, call);
    if r in s.clients && s.clients[r].Keyed? {
      var Keyed(id, key, why) := s.clients[r];
      DeletionsKept(s, s', r);
      assert BeingDeleted(s', id) by {
        assert s'.clients[r].Unstored? && s'.clients[r].id == id;
      }
      forall i | BeingDeleted(s', i) && i != id
        ensures BeingDeleted(s, i)
      {
        var q :| q in s'.clients && s'.clients[q].Unstored? && s'.clients[q].id == i;
        assert q != r && s.clients[q] == s'.clients[q];
      }
      hide BeingDeleted;
      if i :| TakesEffect(call) && Newer(s, r, i) {
        assert i in s'.tables.materials && s'.tables.materials[i].fileKey !in s'.objects;
      } else {
        forall i | i in s'.tables.materials
          ensures s'.tables.materials[i].fileKey in s'.objects || BeingDeleted(s', i)
        {
          assert TakesEffect(call) ==> !Newer(s, r, i);
        }
      }
    }
  }

  lemma RowsAfterCreate(env: Env, s: State, u: Id, call: Call, newId: Id)
    requires Inv(env, s) && RowsHaveObjects(s)
    ensures RowsHaveObjects(ApplyCreateRow(env, s, u, call, newId)) <==> !Orphans(env, s, CreateRow(u, call, newId))
  {
    var s' := ApplyCreateRow(env, s, u, call, newId);
    if u in s.clients && s.clients[u].Stored? && newId !in s.tables.seen && s.clients[u].req.claims.Some? {
      var Stored(req, course) := s.clients[u];
      assert InputFor(env, req, req.claims.value, course).fileKey == KeyFor(env, req);
      DeletionsKept(s, s', u);
      assert !BeingDeleted(s', newId) by {
        forall q | q in s'.clients && s'.clients[q].Unstored?
          ensures s'.clients[q].id != newId
        {
          assert q != u && s.clients[q] == s'.clients[q] && PhaseOk(s.tables, s.clients[q]);
        }
      }
      hide BeingDeleted, KeyFor, InputFor, MayInsert, Inv;
    }
  }

  lemma RowsAfterDropRow(env: Env, s: State, r: Id, call: Call)
    requires RowsHaveObjects(s)
    ensures RowsHaveObjects(ApplyDropRow(s, r, call)) <==> !Orphans(env, s, DropRow(r, call))
  {
    var s' := ApplyDropRow(s, r, call);
    hide Cascade;
    if r in s.clients && s.clients[r].Unstored? {
      var Unstored(id, key, why) := s.clients[r];
      forall i | BeingDeleted(s, i) && i != id
        ensures BeingDeleted(s', i)
      {
        var q :| q in s.clients && s.clients[q].Unstored? && s.clients[q].id == i;
        assert q != r && s.clients[q] == s'.clients[q];
      }
      assert BeingDeleted(s', id)
             <==> exists q :: q in s.clients && q != r && s.clients[q].Unstored? && s.clients[q].id == id by {
        forall q | q in s.clients && q != r && s.clients[q].Unstored? && s.clients[q].id == id
          ensures BeingDeleted(s', id)
        {
          assert s'.clients[q] == s.clients[q];
        }
      }
      hide BeingDeleted;
    }
  }

  lemma RowsAfterStep(env: Env, s: State, a: Action)
    requires Inv(env, s) && RowsHaveObjects(s)
    ensures RowsHaveObjects(Apply(env, s, a)) <==> !Orphans(env, s, a)
  {
    var s' := Apply(env, s, a);
    hide Inv, RowsHaveObjects, ApplyCreateRow, ApplyDropObject, ApplyDropRow, ApplyStartUpload, ApplyStartReject,
      ApplyStartResolve, ApplyCheckExists, ApplyResolveCourse, ApplyPutObject, ApplyMarkResolved;
    match a {
      case DropObject(r, call) => RowsAfterDropObject(env, s, r, call);
      case CreateRow(u, call, newId) => RowsAfterCreate(env, s, u, call, newId);
      case DropRow(r, call) => RowsAfterDropRow(env, s, r, call);
      case FindKey(c, _) => RowsStay(s, s', c);
      case Approve(_, _) => RowsStay(s, s', 0);
      case CreateFlag(_, _, _, _, _) => RowsStay(s, s', 0);
      case _ =>
        QuietStep(env, s, a);
        RowsStay(s, s', a.c);
    }
  }

  lemma RowsAfterPrefix(env: Env, acts: seq<Action>, n: nat)
    requires n < |acts| && RowsHaveObjects(After(env, acts, n))
    ensures RowsHaveObjects(After(env, acts, n + 1)) <==> !Orphans(env, After(env, acts, n), acts[n])
  {
    ReachableInv(env, acts[..n]);
    assert Inv(env, After(env, acts, n));
    hide *;
    AfterStep(env, acts, n);
    RowsAfterStep(env, After(env, acts, n), acts[n]);
  }

  // In every run: each row has its object after every step, but for those being deleted, if and only
  // if no step is one of the three.
  lemma {:induction false} RowsKeepTheirObjects(env: Env, acts: seq<Action>, n: nat)
    requires n <= |acts|
    ensures (forall k :: 0 <= k <= n ==> RowsHaveObjects(After(env, acts, k)))
            <==> forall k :: 0 <= k < n ==> !Orphans(env, After(env, acts, k), acts[k])
  {
    hide *;
    AfterNothing(env, acts);
    StartAgrees(env);
    if n > 0 {
      RowsKeepTheirObjects(env, acts, n - 1);
      if RowsHaveObjects(After(env, acts, n - 1)) {
        RowsAfterPrefix(env, acts, n - 1);
      }
    }
  }

  // ---------------------------------------------------------------------------------------------
  // The same in terms of which requests overlap.

  // Upload u is between Put and Create while rejection r, of the same hash, is between GetFileKey
  // and the store's Delete.
  predicate Overlap(env: Env, s: State, u: Id, r: Id) {
    && u in s.clients && s.clients[u].Stored?
    && r in s.clients && s.clients[r].Keyed?
    && s.clients[r].key == KeyFor(env, s.clients[u].req)
  }

  ghost predicate StoredHaveObjects(env: Env, s: State) {
    forall u :: u in s.clients && s.clients[u].Stored? ==> KeyFor(env, s.clients[u].req) in s.objects
  }

  // The row a rejection has looked up is the only one with that key.
  ghost predicate KeyedAreAlone(s: State) {
    forall r, j ::
      (r in s.clients && s.clients[r].Keyed? && j in s.tables.materials
       && s.tables.materials[j].fileKey == s.clients[r].key)
      ==> j == s.clients[r].id
  }

  // Rows have their objects, and so will those of the uploads and rejections under way.
  ghost predicate Agreement(env: Env, s: State) {
    RowsHaveObjects(s) && StoredHaveObjects(env, s) && KeyedAreAlone(s)
  }

  ghost predicate DropsUploaded(env: Env, s: State, a: Action) {
    a.DropObject? && TakesEffect(a.call) && exists u :: Overlap(env, s, u, a.c)
  }

  ghost predicate InsertsRejected(env: Env, s: State, a: Action) {
    a.CreateRow? && Inserts(env, s, a.c, a.call, a.newId) && exists r :: Overlap(env, s, a.c, r)
  }

  // The store's Delete or the Create of an overlap takes effect, or a last row delete is lost.
  ghost predicate Breaks(env: Env, s: State, a: Action) {
    || DropsUploaded(env, s, a)
    || InsertsRejected(env, s, a)
    || (a.DropRow? && a.call == FailsBefore && LastDeletion(s, a.c))
  }

  lemma StoredAfterStep(env: Env, s: State, a: Action)
    requires StoredHaveObjects(env, s)
    ensures StoredHaveObjects(env, Apply(env, s, a)) <==> !DropsUploaded(env, s, a)
  {
    var s' := Apply(env, s, a);
    hide InputFor, HashTaken, MayInsert, Cascade, Closed, KeyFor, SetApproved;
    if a.DropObject? && DropsUploaded(env, s, a) {
      var u :| Overlap(env, s, u, a.c);
      assert s'.clients[u] == s.clients[u] && KeyFor(env, s.clients[u].req) !in s'.objects;
    }
    if !DropsUploaded(env, s, a) {
      forall u | u in s'.clients && s'.clients[u].Stored?
        ensures KeyFor(env, s'.clients[u].req) in s'.objects
      {
        assert a.DropObject? ==> !TakesEffect(a.call) || !Overlap(env, s, u, a.c);
      }
    }
  }

  lemma LookupIsAlone(env: Env, s: State, c: Id, ok: bool)
    requires Inv(env, s) && KeyedAreAlone(s)
    ensures KeyedAreAlone(ApplyFindKey(s, c, ok))
  {
    if c in s.clients && s.clients[c].Finding? && s.clients[c].id in s.tables.materials {
      var id := s.clients[c].id;
      forall j | j in s.tables.materials && s.tables.materials[j].fileKey == s.tables.materials[id].fileKey
        ensures j == id
      {
        KeyOfInjective(s.tables.materials[j].contentHash, s.tables.materials[id].contentHash);
      }
      hide KeyOf;
    }
  }

  lemma KeyedAfterCreate(env: Env, s: State, c: Id, call: Call, newId: Id)
    requires Inv(env, s) && KeyedAreAlone(s)
    ensures KeyedAreAlone(ApplyCreateRow(env, s, c, call, newId))
            <==> !InsertsRejected(env, s, CreateRow(c, call, newId))
  {
    var a, s' := CreateRow(c, call, newId), ApplyCreateRow(env, s, c, call, newId);
    if Inserts(env, s, c, call, newId) {
      var Stored(req, course) := s.clients[c];
      assert InputFor(env, req, req.claims.value, course).fileKey == KeyFor(env, req);
      hide KeyFor, InputFor, MayInsert;
      if r :| Overlap(env, s, c, r) {
        assert PhaseOk(s.tables, s.clients[r]) && s'.clients[r] == s.clients[r];
        assert newId in s'.tables.materials && s'.tables.materials[newId].fileKey == s'.clients[r].key;
      } else {
        forall r, j | r in s'.clients && s'.clients[r].Keyed? && j in s'.tables.materials
            && s'.tables.materials[j].fileKey == s'.clients[r].key
          ensures j == s'.clients[r].id
        {
          assert r != c && s'.clients[r] == s.clients[r] && !Overlap(env, s, c, r);
        }
      }
    }
  }

  lemma KeyedStay(s: State, s': State, c: Id)
    requires KeyedAreAlone(s)
    requires forall id :: id in s'.tables.materials ==>
               id in s.tables.materials && s'.tables.materials[id].fileKey == s.tables.materials[id].fileKey
    requires s'.clients == s.clients
             || (c in s'.clients && s'.clients == s.clients[c := s'.clients[c]] && !s'.clients[c].Keyed?)
    ensures KeyedAreAlone(s')
  {
  }

  lemma KeyedAfterStep(env: Env, s: State, a: Action)
    requires Inv(env, s) && KeyedAreAlone(s)
    ensures KeyedAreAlone(Apply(env, s, a)) <==> !InsertsRejected(env, s, a)
  {
    var s' := Apply(env, s, a);
    hide Inv, KeyedAreAlone, Cascade, ApplyFindKey, ApplyCreateRow, ApplyStartUpload, ApplyStartReject,
      ApplyStartResolve, ApplyCheckExists, ApplyResolveCourse, ApplyPutObject, ApplyMarkResolved;
    match a {
      case FindKey(c, ok) => LookupIsAlone(env, s, c, ok);
      case CreateRow(c, call, newId) => KeyedAfterCreate(env, s, c, call, newId);
      case DropObject(c, _) => KeyedStay(s, s', c);
      case DropRow(c, _) => KeyedStay(s, s', c);
      case Approve(_, _) => KeyedStay(s, s', 0);
      case CreateFlag(_, _, _, _, _) => KeyedStay(s, s', 0);
      case _ =>
        QuietStep(env, s, a);
        KeyedStay(s, s', a.c);
    }
  }

  // Agreement is kept by exactly the steps that do not break it.
  lemma AgreementAfterStep(env: Env, s: State, a: Action)
    requires Inv(env, s) && Agreement(env, s)
    ensures Agreement(env, Apply(env, s, a)) <==> !Breaks(env, s, a)
  {
    RowsAfterStep(env, s, a);
    StoredAfterStep(env, s, a);
    KeyedAfterStep(env, s, a);
    hide Apply, Inv;
  }

  lemma AgreementAfterPrefix(env: Env, acts: seq<Action>, n: nat)
    requires n < |acts| && Agreement(env, After(env, acts, n))
    ensures Agreement(env, After(env, acts, n + 1)) <==> !Breaks(env, After(env, acts, n), acts[n])
  {
    ReachableInv(env, acts[..n]);
    assert Inv(env, After(env, acts, n));
    hide *;
    AfterStep(env, acts, n);
    AgreementAfterStep(env, After(env, acts, n), acts[n]);
  }

  // In every run: agreement holds after every step if and only if no step breaks it.
  lemma {:induction false} RowObjectAgreement(env: Env, acts: seq<Action>, n: nat)
    requires n <= |acts|
    ensures (forall k :: 0 <= k <= n ==> Agreement(env, After(env, acts, k)))
            <==> forall k :: 0 <= k < n ==> !Breaks(env, After(env, acts, k), acts[k])
  {
    hide *;
    AfterNothing(env, acts);
    StartAgrees(env);
    if n > 0 {
      RowObjectAgreement(env, acts, n - 1);
      if Agreement(env, After(env, acts, n - 1)) {
        AgreementAfterPrefix(env, acts, n - 1);
      }
    }
  }

  lemma StartAgrees(env: Env)
    ensures RowsHaveObjects(INITIAL) && Agreement(env, INITIAL)
  {
  }

  // No overlap ever, and no row delete lost.
  ghost predicate CleanRun(env: Env, acts: seq<Action>) {
    forall k :: 0 <= k < |acts| ==>
      && (forall u, r :: !Overlap(env, After(env, acts, k), u, r))
      && !(acts[k].DropRow? && acts[k].call == FailsBefore)
  }

  // A run in which uploads keep clear of rejections of the same content breaks nothing.
  lemma CleanRunsAgree(env: Env, acts: seq<Action>)
    requires CleanRun(env, acts)
    ensures forall k :: 0 <= k <= |acts| ==> Agreement(env, After(env, acts, k))
  {
    RowObjectAgreement(env, acts, |acts|);
    hide After, Agreement, Overlap;
    forall k | 0 <= k < |acts|
      ensures !Breaks(env, After(env, acts, k), acts[k])
    {
    }
  }

  // ---------------------------------------------------------------------------------------------
  // What a broken agreement comes to.

  // A row without its object that no request is about to delete.
  ghost predicate Orphaned(s: State, id: Id) {
    id in s.tables.materials && s.tables.materials[id].fileKey !in s.objects && !BeingDeleted(s, id)
  }

  // From an overlap, three succeeding steps leave a row without its object for good, if and only if
  // the upload's course is there, so that its row can be inserted at all.
  lemma OverlapOrphansARow(env: Env, acts: seq<Action>, u: Id, r: Id, newId: Id)
    requires var s := Exec(env, INITIAL, acts);
      Agreement(env, s) && Overlap(env, s, u, r) && newId !in s.tables.seen
    ensures var s := Exec(env, INITIAL, acts);
      Orphaned(Exec(env, s, [DropObject(r, Succeeds), DropRow(r, Succeeds), CreateRow(u, Succeeds, newId)]), newId)
      <==> s.clients[u].course in s.tables.courses.Values
  {
    var s := Exec(env, INITIAL, acts);
    ReachableInv(env, acts);
    hide Exec;
    OverlapSteps(env, s, u, r, newId);
  }

  // Once the object and the row are dropped: the upload is where it was, and its content is free.
  lemma OverlapDeletes(env: Env, s: State, u: Id, r: Id) returns (s2: State)
    requires Inv(env, s) && KeyedAreAlone(s) && Overlap(env, s, u, r)
    ensures s2 == ApplyDropRow(ApplyDropObject(s, r, Succeeds), r, Succeeds)
    ensures s2.clients == s.clients[r := s2.clients[r]] && !s2.clients[r].Unstored?
    ensures s2.tables.courses == s.tables.courses && s2.tables.seen == s.tables.seen
    ensures s2.tables.materials.Keys <= s.tables.materials.Keys
    ensures s.clients[r].key !in s2.objects && !HashTaken(s2.tables, HashOf(env, s.clients[u].req))
  {
    var Keyed(id, key, why) := s.clients[r];
    assert PhaseOk(s.tables, s.clients[r]);
    hide Cascade;
    s2 := ApplyDropRow(ApplyDropObject(s, r, Succeeds), r, Succeeds);
    forall i | i in s2.tables.materials
      ensures s2.tables.materials[i].contentHash != HashOf(env, s.clients[u].req)
    {
      assert i != id && s2.tables.materials[i] == s.tables.materials[i];
    }
  }

  lemma OverlapSteps(env: Env, s: State, u: Id, r: Id, newId: Id)
    requires Inv(env, s) && KeyedAreAlone(s) && Overlap(env, s, u, r) && newId !in s.tables.seen
    ensures var steps := [DropObject(r, Succeeds), DropRow(r, Succeeds), CreateRow(u, Succeeds, newId)];
      Orphaned(Exec(env, s, steps), newId) <==> s.clients[u].course in s.tables.courses.Values
  {
    var Stored(req, course) := s.clients[u];
    var s2 := OverlapDeletes(env, s, u, r);
    ExecThree(env, s, DropObject(r, Succeeds), DropRow(r, Succeeds), CreateRow(u, Succeeds, newId));
    assert PhaseOk(s.tables, s.clients[u]) && newId !in s2.tables.materials;
    var input := InputFor(env, req, req.claims.value, course);
    assert input.fileKey == KeyFor(env, req) && input.contentHash == HashOf(env, req);
    assert input.kind == req.kind && input.course == course;
    var s3 := ApplyCreateRow(env, s2, u, Succeeds, newId);
    forall c | c in s3.clients && s3.clients[c].Unstored?
      ensures s3.clients[c].id != newId
    {
      assert c != u && c != r && s3.clients[c] == s.clients[c];
      assert PhaseOk(s.tables, s.clients[c]);
    }
    hide Exec, ApplyDropObject, ApplyDropRow, InputFor, KeyFor, HashOf, HashTaken, Inv, KeyedAreAlone;
    assert MayInsert(s2.tables, input) <==> course in s.tables.courses.Values;
  }

  // Nor may a row delete be lost: the object is gone by then.
  lemma LostRowDeleteOrphansTheRow(env: Env, s: State, r: Id)
    requires r in s.clients && s.clients[r].Keyed?
    requires var Keyed(id, key, _) := s.clients[r];
      id in s.tables.materials && s.tables.materials[id].fileKey == key && !BeingDeleted(s, id)
    ensures Orphaned(ApplyDropRow(ApplyDropObject(s, r, Succeeds), r, FailsBefore), s.clients[r].id)
  {
    var s' := ApplyDropRow(ApplyDropObject(s, r, Succeeds), r, FailsBefore);
    forall c | c in s'.clients && s'.clients[c].Unstored?
      ensures s'.clients[c].id != s.clients[r].id
    {
      assert c != r && s'.clients[c] == s.clients[c];
    }
  }
}
