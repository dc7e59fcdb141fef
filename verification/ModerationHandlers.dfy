// The moderation endpoints, run without interference: each takes the protocol's steps in order.
module ModerationHandlers {
  import opened Bytes
  import opened Protocol
  import opened Repositories
  import opened SerialRuns
  import opened Tables

  datatype DeleteResult = Deleted | MaterialNotFound | DeleteFailed

  class ModerationEndpoints {
    const db: Database
    const store: ObjectStore?

    constructor (db: Database, store: ObjectStore?)
      ensures this.db == db && this.store == store
    {
      this.db, this.store := db, store;
    }

    ghost function Objects(): map<string, bytes>
      reads store
    {
      if store == null then map[] else store.objects
    }

    ghost function Now(): State
      reads db, store
    {
      State(db.Contents(), Objects(), map[])
    }

    ghost function PhaseFor(id: Id, why: Purpose, r: DeleteResult, calls: DeleteCalls): Phase {
      match r
      case Deleted => AfterDelete(id, why, true)
      case DeleteFailed => AfterDelete(id, why, false)
      case MaterialNotFound => AfterNotFound(id, why, !calls.lookupOk)
    }

    // deleteMaterial: the store first, whatever comes of it, then the row.
    method DeleteMaterial(id: Id, calls: DeleteCalls, ghost why: Purpose) returns (r: DeleteResult)
      modifies db, store
      ensures var s := old(Now()).(clients := map[0 := Finding(id, why)]);
        var s' := SerialDelete(s, 0, calls);
        && s'.clients == map[0 := PhaseFor(id, why, r, calls)]
        && db.Contents() == s'.tables
        && (store != null ==> store.objects == s'.objects)
    {
      hide SerialDelete, Cascade, AfterDelete, AfterNotFound;
      ghost var s := old(Now()).(clients := map[0 := Finding(id, why)]);
      DeleteOutcome(s, 0, id, why, calls);
      var fileKey := db.GetFileKey(id, calls.lookupOk);
      if fileKey == None {
        return MaterialNotFound;
      }
      if store != null {
        var _ := store.Delete(fileKey.value, calls.drop);
      }
      var ok := db.Delete(id, calls.row);
      return if ok then Deleted else DeleteFailed;
    }

    method Reject(id: Id, calls: DeleteCalls) returns (resp: Response)
      modifies db, store
      ensures var s' := SerialReject(old(Now()), 0, id, calls);
        && s'.clients == map[0 := Done(resp)]
        && db.Contents() == s'.tables
        && (store != null ==> store.objects == s'.objects)
    {
      db.Mention({id});
      assert ApplyStartReject(old(Now()), 0, id) == Now().(clients := map[0 := Finding(id, Rejection)]);
      var r := DeleteMaterial(id, calls, Rejection);
      match r {
        case MaterialNotFound => return NotFound;
        case DeleteFailed => return ServerError;
        case Deleted => return NoContent;
      }
    }

    method ResolveFlag(flag: Id, named: Option<Id>, calls: DeleteCalls, mark: Call) returns (resp: Response)
      modifies db, store
      ensures var s' := SerialResolve(old(Now()), 0, flag, named, calls, mark);
        && 0 in s'.clients
        && (s'.clients[0].Resolved? <==> resp == NoContent)
        && (!s'.clients[0].Resolved? ==> s'.clients[0] == Done(resp))
        && db.Contents() == s'.tables
        && (store != null ==> store.objects == s'.objects)
    {
      ghost var ids := {flag} + if named.Some? then {named.value} else {};
      db.Mention(ids);
      ghost var s1 := ApplyStartResolve(old(Now()), 0, flag, named);
      ghost var s2 := SerialDelete(s1, 0, calls);
      if named.Some? {
        assert s1 == Now().(clients := map[0 := Finding(named.value, Resolution(flag))]);
        var r := DeleteMaterial(named.value, calls, Resolution(flag));
        hide SerialDelete;
        if r == DeleteFailed {
          return ServerError;
        }
      }
      hide Closed;
      assert s2.clients[0].Resolving? && s2.clients[0].flag == flag && s2.tables == db.Contents();
      var ok := db.Resolve(flag, mark);
      if !ok {
        return ServerError;
      }
      return NoContent;
    }

    method Approve(id: Id, call: Call, ghost env: Env) returns (resp: Response)
      modifies db
      ensures db.Contents() == Apply(env, old(Now()), Action.Approve(id, call)).tables
      ensures resp == if call == Succeeds then NoContent else ServerError
    {
      var ok := db.Approve(id, call);
      return if ok then NoContent else ServerError;
    }

    method CreateFlag(claims: Option<Id>, material: Id, reason: string, newId: Id, call: Call, ghost env: Env)
      returns (resp: Response)
      requires newId !in db.seen
      modifies db
      ensures claims == None ==> resp == Unauthorized && db.Contents() == old(db.Contents())
      ensures claims.Some? ==>
        && db.Contents()
           == Apply(env, old(Now()), Action.CreateFlag(newId, material, claims.value, reason, call)).tables
        && resp == if call == Succeeds && material in old(db.materials) then Created(newId) else ServerError
    {
      if claims == None {
        return Unauthorized;
      }
      var id := db.InsertFlagRow(newId, material, claims.value, reason, call);
      return if id.Some? then Created(id.value) else ServerError;
    }
  }
}
