// Which runs leave objects in the store that no row and no upload accounts for.
module StrayObjects {
  import opened Bytes
  import opened ObjectAgreement
  import opened Protocol
  import opened ProtocolInvariant
  import opened Tables

  // A row other than `but` stands under the key.
  ghost predicate RowHolds(s: State, key: string, but: Option<Id>) {
    exists id :: id in s.tables.materials && Some(id) != but && s.tables.materials[id].fileKey == key
  }

  // An upload other than `but` has put the object under the key and is about to insert its row.
  ghost predicate UploadHolds(env: Env, s: State, key: string, but: Option<Id>) {
    exists u :: u in s.clients && Some(u) != but && s.clients[u].Stored? && KeyFor(env, s.clients[u].req) == key
  }

  ghost predicate Owned(env: Env, s: State, key: string) {
    RowHolds(s, key, None) || UploadHolds(env, s, key, None)
  }

  ghost predicate ObjectsAreOwned(env: Env, s: State) {
    forall key :: key in s.objects ==> Owned(env, s, key)
  }

  // The Put takes effect but fails, and nobody else accounts for the object.
  ghost predicate LosesPut(env: Env, s: State, c: Id, call: Call) {
    && c in s.clients && s.clients[c].Placing? && call == FailsAfter
    && !Owned(env, s, KeyFor(env, s.clients[c].req))
  }

  // The upload ends without a row, and nobody else accounts for its object.
  ghost predicate LosesCreate(env: Env, s: State, u: Id, call: Call, newId: Id) {
    && u in s.clients && s.clients[u].Stored? && s.clients[u].req.claims.Some? && newId !in s.tables.seen
    && !Inserts(env, s, u, call, newId)
    && KeyFor(env, s.clients[u].req) in s.objects
    && !RowHolds(s, KeyFor(env, s.clients[u].req), None)
    && !UploadHolds(env, s, KeyFor(env, s.clients[u].req), Some(u))
  }

  // The row goes while the object under its key is there, and nobody else accounts for it.
  ghost predicate LeavesObject(env: Env, s: State, r: Id, call: Call) {
    && r in s.clients && s.clients[r].Unstored? && TakesEffect(call)
    && s.clients[r].id in s.tables.materials
    && s.tables.materials[s.clients[r].id].fileKey in s.objects
    && !RowHolds(s, s.tables.materials[s.clients[r].id].fileKey, Some(s.clients[r].id))
    && !UploadHolds(env, s, s.tables.materials[s.clients[r].id].fileKey, None)
  }

  // The steps that leave an object behind.
  ghost predicate Strays(env: Env, s: State, a: Action) {
    match a
    case PutObject(c, call) => LosesPut(env, s, c, call)
    case CreateRow(u, call, newId) => LosesCreate(env, s, u, call, newId)
    case DropRow(r, call) => LeavesObject(env, s, r, call)
    case _ => false
  }

  // Rows keep their keys, no object comes, and no upload leaves its place between Put and Create.
  predicate Calm(s: State, s': State, c: Id) {
    && SameKeys(s.tables, s'.tables) && s'.objects.Keys <= s.objects.Keys
    && (s'.clients == s.clients
        || (c in s'.clients && s'.clients == s.clients[c := s'.clients[c]]
            && (c in s.clients ==> !s.clients[c].Stored?)))
  }

  lemma CalmKeeps(env: Env, s: State, s': State, c: Id)
    requires ObjectsAreOwned(env, s) && Calm(s, s', c)
    ensures ObjectsAreOwned(env, s')
  {
    hide KeyFor;
    forall key | key in s'.objects
      ensures Owned(env, s', key)
    {
      assert Owned(env, s, key);
      if id :| id in s.tables.materials && s.tables.materials[id].fileKey == key {
        assert s'.tables.materials[id].fileKey == key;
      } else {
        var u :| u in s.clients && s.clients[u].Stored? && KeyFor(env, s.clients[u].req) == key;
        assert s'.clients[u] == s.clients[u];
      }
    }
  }

  predicate IsCalm(a: Action) {
    !a.PutObject? && !a.CreateRow? && !a.DropRow?
  }

  function ClientOf(a: Action): Id {
    if a.Approve? || a.CreateFlag? then 0 else a.c
  }

  lemma CalmRequest(env: Env, s: State, a: Action)
    requires a.StartUpload? || a.StartReject? || a.StartResolve? || a.CheckExists? || a.ResolveCourse?
    ensures Calm(s, Apply(env, s, a), a.c)
  {
    hide HashTaken, KeyFor;
  }

  lemma CalmModeration(env: Env, s: State, a: Action)
    requires a.FindKey? || a.DropObject? || a.MarkResolved? || a.Approve? || a.CreateFlag?
    ensures Calm(s, Apply(env, s, a), ClientOf(a))
  {
    hide Closed;
  }

  lemma CalmStep(env: Env, s: State, a: Action)
    requires IsCalm(a)
    ensures Calm(s, Apply(env, s, a), ClientOf(a))
  {
    hide Calm, Apply;
    if a.StartUpload? || a.StartReject? || a.StartResolve? || a.CheckExists? || a.ResolveCourse? {
      CalmRequest(env, s, a);
    } else {
      CalmModeration(env, s, a);
    }
  }

  lemma OwnedAfterPut(env: Env, s: State, c: Id, call: Call)
    requires ObjectsAreOwned(env, s)
    ensures ObjectsAreOwned(env, ApplyPutObject(env, s, c, call)) <==> !LosesPut(env, s, c, call)
  {
    var s' := ApplyPutObject(env, s, c, call);
    hide KeyFor;
    if c in s.clients && s.clients[c].Placing? {
      var key := KeyFor(env, s.clients[c].req);
      forall k | Owned(env, s, k)
        ensures Owned(env, s', k)
      {
        if !RowHolds(s, k, None) {
          var u :| u in s.clients && s.clients[u].Stored? && KeyFor(env, s.clients[u].req) == k;
          assert s'.clients[u] == s.clients[u];
        } else {
          assert RowHolds(s', k, None);
        }
      }
      if call == Succeeds {
        assert s'.clients[c].Stored? && KeyFor(env, s'.clients[c].req) == key;
        assert UploadHolds(env, s', key, None);
      } else {
        forall k | Owned(env, s', k)
          ensures Owned(env, s, k)
        {
          if !RowHolds(s', k, None) {
            var u :| u in s'.clients && s'.clients[u].Stored? && KeyFor(env, s'.clients[u].req) == k;
            assert s'.clients[u] == s.clients[u];
          } else {
            assert RowHolds(s, k, None);
          }
        }
      }
      hide Owned;
    }
  }

  lemma RowsAfterInsert(env: Env, s: State, u: Id, call: Call, newId: Id)
    requires Inserts(env, s, u, call, newId) && newId !in s.tables.materials
    ensures var s' := ApplyCreateRow(env, s, u, call, newId);
      forall k :: RowHolds(s', k, None) <==> RowHolds(s, k, None) || k == KeyFor(env, s.clients[u].req)
  {
    var s' := ApplyCreateRow(env, s, u, call, newId);
    var Stored(req, course) := s.clients[u];
    assert InputFor(env, req, req.claims.value, course).fileKey == KeyFor(env, req);
    hide KeyFor, InputFor, MayInsert;
    assert s'.tables.materials[newId].fileKey == KeyFor(env, req);
    forall k | RowHolds(s, k, None)
      ensures RowHolds(s', k, None)
    {
      var id :| id in s.tables.materials && s.tables.materials[id].fileKey == k;
      assert s'.tables.materials[id].fileKey == k;
    }
  }

  lemma RowsAfterRefusal(env: Env, s: State, u: Id, call: Call, newId: Id)
    requires !Inserts(env, s, u, call, newId)
    ensures var s' := ApplyCreateRow(env, s, u, call, newId);
      forall k :: RowHolds(s', k, None) <==> RowHolds(s, k, None)
  {
    hide InputFor, MayInsert;
    assert ApplyCreateRow(env, s, u, call, newId).tables.materials == s.tables.materials;
  }

  lemma OwnedAfterCreate(env: Env, s: State, u: Id, call: Call, newId: Id)
    requires Inv(env, s) && ObjectsAreOwned(env, s)
    ensures ObjectsAreOwned(env, ApplyCreateRow(env, s, u, call, newId)) <==> !LosesCreate(env, s, u, call, newId)
  {
    var s' := ApplyCreateRow(env, s, u, call, newId);
    if u in s.clients && s.clients[u].Stored? && newId !in s.tables.seen && s.clients[u].req.claims.Some? {
      assert newId !in s.tables.materials;
      hide KeyFor, InputFor, MayInsert, Inv, RowHolds, UploadHolds, Inserts;
      UploadEnds(env, s, s', u);
      if Inserts(env, s, u, call, newId) {
        RowsAfterInsert(env, s, u, call, newId);
      } else {
        RowsAfterRefusal(env, s, u, call, newId);
      }
    }
  }

  // Request u leaves its place between Put and Create.
  lemma UploadEnds(env: Env, s: State, s': State, u: Id)
    requires u in s'.clients && s'.clients == s.clients[u := s'.clients[u]] && !s'.clients[u].Stored?
    requires u in s.clients && s.clients[u].Stored?
    ensures forall k :: UploadHolds(env, s', k, None) <==> UploadHolds(env, s, k, Some(u))
    ensures forall k :: k != KeyFor(env, s.clients[u].req) ==>
              (UploadHolds(env, s', k, None) <==> UploadHolds(env, s, k, None))
  {
    hide KeyFor;
    forall k
      ensures UploadHolds(env, s', k, None) <==> UploadHolds(env, s, k, Some(u))
      ensures k != KeyFor(env, s.clients[u].req) ==> (UploadHolds(env, s', k, None) <==> UploadHolds(env, s, k, None))
    {
      if v :| v in s'.clients && s'.clients[v].Stored? && KeyFor(env, s'.clients[v].req) == k {
        assert v != u && s'.clients[v] == s.clients[v];
      }
      if v :| v in s.clients && v != u && s.clients[v].Stored? && KeyFor(env, s.clients[v].req) == k {
        assert s'.clients[v] == s.clients[v];
      }
    }
  }

  lemma OwnedAfterDropRow(env: Env, s: State, r: Id, call: Call)
    requires ObjectsAreOwned(env, s)
    ensures ObjectsAreOwned(env, ApplyDropRow(s, r, call)) <==> !LeavesObject(env, s, r, call)
  {
    var s' := ApplyDropRow(s, r, call);
    hide Cascade, KeyFor;
    if r in s.clients && s.clients[r].Unstored? {
      var id := s.clients[r].id;
      forall k
        ensures UploadHolds(env, s', k, None) <==> UploadHolds(env, s, k, None)
      {
        if v :| v in s'.clients && s'.clients[v].Stored? && KeyFor(env, s'.clients[v].req) == k {
          assert v != r && s'.clients[v] == s.clients[v];
        }
        if v :| v in s.clients && s.clients[v].Stored? && KeyFor(env, s.clients[v].req) == k {
          assert v != r && s'.clients[v] == s.clients[v];
        }
      }
      if TakesEffect(call) && id in s.tables.materials {
        assert forall k :: RowHolds(s', k, None) <==> RowHolds(s, k, Some(id));
        assert forall k :: k != s.tables.materials[id].fileKey ==> (RowHolds(s, k, Some(id)) <==> RowHolds(s, k, None));
      } else {
        assert s'.tables.materials == s.tables.materials;
        assert forall k :: RowHolds(s', k, None) <==> RowHolds(s, k, None);
      }
      hide RowHolds, UploadHolds;
    }
  }

  lemma OwnedAfterStep(env: Env, s: State, a: Action)
    requires Inv(env, s) && ObjectsAreOwned(env, s)
    ensures ObjectsAreOwned(env, Apply(env, s, a)) <==> !Strays(env, s, a)
  {
    if IsCalm(a) {
      CalmStep(env, s, a);
      hide *;
      CalmKeeps(env, s, Apply(env, s, a), ClientOf(a));
    }
    hide Inv, ObjectsAreOwned, ApplyPutObject, ApplyCreateRow, ApplyDropRow;
    match a {
      case PutObject(c, call) => OwnedAfterPut(env, s, c, call);
      case CreateRow(u, call, newId) => OwnedAfterCreate(env, s, u, call, newId);
      case DropRow(r, call) => OwnedAfterDropRow(env, s, r, call);
      case _ =>
    }
  }

  lemma StartIsOwned(env: Env)
    ensures ObjectsAreOwned(env, INITIAL)
  {
  }

  lemma OwnedAfterPrefix(env: Env, acts: seq<Action>, n: nat)
    requires n < |acts| && ObjectsAreOwned(env, After(env, acts, n))
    ensures ObjectsAreOwned(env, After(env, acts, n + 1)) <==> !Strays(env, After(env, acts, n), acts[n])
  {
    ReachableInv(env, acts[..n]);
    assert Inv(env, After(env, acts, n));
    hide *;
    AfterStep(env, acts, n);
    OwnedAfterStep(env, After(env, acts, n), acts[n]);
  }

  // In every run: each object belongs to a row, or to an upload about to insert its row, after every
  // step, if and only if no step leaves one behind.
  lemma {:induction false} ObjectsKeepTheirOwners(env: Env, acts: seq<Action>, n: nat)
    requires n <= |acts|
    ensures (forall k :: 0 <= k <= n ==> ObjectsAreOwned(env, After(env, acts, k)))
            <==> forall k :: 0 <= k < n ==> !Strays(env, After(env, acts, k), acts[k])
  {
    hide *;
    AfterNothing(env, acts);
    StartIsOwned(env);
    if n > 0 {
      ObjectsKeepTheirOwners(env, acts, n - 1);
      if ObjectsAreOwned(env, After(env, acts, n - 1)) {
        OwnedAfterPrefix(env, acts, n - 1);
      }
    }
  }
}
