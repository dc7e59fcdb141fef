// The repositories over the database, and the object store, as objects that the handlers share.
module Repositories {
  import opened Bytes
  import opened ModerationHistory
  import opened Protocol
  import opened Tables

  class Database {
    var courses: map<CourseSpec, Id>
    var materials: map<Id, Material>
    var flags: seq<Flag>
    ghost var seen: set<Id>    // every UUID that has appeared so far

    ghost function Contents(): Tables
      reads this
    {
      Tables(courses, materials, flags, seen)
    }

    constructor ()
      ensures Contents() == EMPTY
    {
      courses, materials, flags, seen := map[], map[], [], {};
    }

    // A request names these UUIDs.
    ghost method Mention(ids: set<Id>)
      modifies this
      ensures Contents() == old(Contents()).(seen := old(seen) + ids)
    {
      seen := seen + ids;
    }

    method ExistsByContentHash(hash: string, ok: bool) returns (r: Option<bool>)
      ensures r == None <==> !ok
      ensures ok ==> (r == Some(true) <==> exists id :: id in materials && materials[id].contentHash == hash)
      ensures r == if ok then Some(HashTaken(Contents(), hash)) else None
    {
      r := if ok then Some(exists id | id in materials :: materials[id].contentHash == hash) else None;
    }

    method FindOrCreate(spec: CourseSpec, call: Call, newId: Id) returns (r: Option<Id>)
      requires newId !in seen
      modifies this
      ensures var (t, id) := FindCourse(old(Contents()), spec, newId);
        && Contents() == (if TakesEffect(call) then t else old(Contents()))
        && r == if call == Succeeds then Some(id) else None
    {
      var id := if spec in courses then courses[spec] else newId;
      if call != FailsBefore && spec !in courses {
        courses := courses[spec := newId];
        seen := seen + {newId};
      }
      r := if call == Succeeds then Some(id) else None;
    }

    method Create(input: CreateInput, call: Call, newId: Id) returns (r: Option<Id>)
      requires newId !in seen
      modifies this
      ensures Contents() == if MayInsert(old(Contents()), input) && TakesEffect(call)
                            then InsertMaterial(old(Contents()), newId, input) else old(Contents())
      ensures r == if MayInsert(old(Contents()), input) && call == Succeeds then Some(newId) else None
      ensures r.Some? ==>
        && materials.Keys == old(materials).Keys + {newId} && newId !in old(seen)
        && var m := materials[newId];
        && m.uploader == input.uploader && m.course == input.course && m.kind == input.kind && m.title == input.title
        && m.fileKey == input.fileKey && m.contentHash == input.contentHash && m.fileSize == input.fileSize
        && m.hasTextLayer == input.hasTextLayer && m.status == Pending
        && m.extractedText == if input.extractedText == [] then None else Some(input.extractedText)
    {
      var unique := !exists id | id in materials :: materials[id].contentHash == input.contentHash;
      if unique && input.course in courses.Values && ValidKind(input.kind) {
        if call != FailsBefore {
          var text := if input.extractedText == [] then None else Some(input.extractedText);
          materials := materials[newId := Material(input.uploader, input.course, input.kind, input.title, input.fileKey,
            input.contentHash, input.fileSize, input.hasTextLayer, text, Pending)];
          seen := seen + {newId};
        }
        r := if call == Succeeds then Some(newId) else None;
      } else {
        r := None;
      }
    }

    method Approve(id: Id, call: Call) returns (ok: bool)
      modifies this
      ensures Contents() == if TakesEffect(call) then SetApproved(old(Contents()), id) else old(Contents())
      ensures ok == (call == Succeeds)
      ensures ok && id in old(materials) ==> id in materials && materials[id].status == Approved
    {
      if call != FailsBefore && id in materials {
        materials := materials[id := materials[id].(status := Approved)];
      }
      ok := call == Succeeds;
    }

    method GetFileKey(id: Id, ok: bool) returns (r: Option<string>)
      ensures r == if ok && id in materials then Some(materials[id].fileKey) else None
    {
      r := if ok && id in materials then Some(materials[id].fileKey) else None;
    }

    method Delete(id: Id, call: Call) returns (ok: bool)
      modifies this
      ensures Contents() == if TakesEffect(call) then DeleteMaterial(old(Contents()), id) else old(Contents())
      ensures ok == (call == Succeeds)
      ensures ok ==> materials == old(materials) - {id}
      ensures ok && id in old(materials) ==> forall f :: f in flags <==> f in old(flags) && f.material != id
    {
      if call != FailsBefore && id in materials {
        materials := materials - {id};
        flags := Cascade(flags, id);
      }
      ok := call == Succeeds;
    }

    method InsertFlagRow(newId: Id, material: Id, reporter: Id, reason: string, call: Call) returns (r: Option<Id>)
      requires newId !in seen
      modifies this
      ensures Contents() == if TakesEffect(call) && material in old(materials)
                            then InsertFlag(old(Contents()), newId, material, reporter, reason) else old(Contents())
      ensures r == if call == Succeeds && material in old(materials) then Some(newId) else None
      ensures r.Some? ==> flags == old(flags) + [Flag(newId, material, reporter, reason, true)]
    {
      if call != FailsBefore && material in materials {
        flags := flags + [Flag(newId, material, reporter, reason, true)];
        seen := seen + {newId};
      }
      r := if call == Succeeds && material in materials then Some(newId) else None;
    }

    method Resolve(id: Id, call: Call) returns (ok: bool)
      modifies this
      ensures Contents() == if TakesEffect(call) then ResolveFlagRow(old(Contents()), id) else old(Contents())
      ensures ok == (call == Succeeds)
      ensures |flags| == |old(flags)|
      ensures ok ==> forall k :: 0 <= k < |flags| ==>
                flags[k] == if old(flags)[k].id == id then old(flags)[k].(open := false) else old(flags)[k]
    {
      if call != FailsBefore {
        flags := Closed(flags, id);
      }
      ok := call == Succeeds;
    }

    // The loop appends the joined rows one by one, in order of creation.
    method ListOpen() returns (list: seq<OpenFlag>)
      ensures list == OpenFlags(Contents(), |flags|)
      ensures (forall f :: f in flags ==> f.material in materials) ==> Ids(list) == OpenIds(flags, |flags|)
      ensures forall e :: e in list ==> exists f :: f in flags && Tells(materials, f, e)
      ensures forall f :: f in flags && f.open && f.material in materials ==>
                exists e :: e in list && Tells(materials, f, e)
    {
      list := [];
      var k := 0;
      while k < |flags|
        invariant 0 <= k <= |flags|
        invariant list == OpenFlags(Contents(), k)
      {
        var f := flags[k];
        if f.open && f.material in materials {
          var m := materials[f.material];
          list := list + [OpenFlag(f.id, f.material, m.title, m.uploader, f.reason)];
        }
        k := k + 1;
      }
      if forall f :: f in flags ==> f.material in materials {
        JoinDropsNothing(Contents(), |flags|);
      }
      forall e | e in list
        ensures exists f :: f in flags && Tells(materials, f, e)
      {
        EntriesComeFromFlags(Contents(), |flags|, e);
      }
      forall f | f in flags && f.open && f.material in materials
        ensures exists e :: e in list && Tells(materials, f, e)
      {
        assert flags[..|flags|] == flags;
        OpenFlagsHaveEntries(Contents(), |flags|, f);
      }
    }
  }

  class ObjectStore {
    var objects: map<string, bytes>

    constructor ()
      ensures objects == map[]
    {
      objects := map[];
    }

    method Put(key: string, body: bytes, call: Call) returns (ok: bool)
      modifies this
      ensures objects == if TakesEffect(call) then old(objects)[key := body] else old(objects)
      ensures ok == (call == Succeeds)
    {
      if call != FailsBefore {
        objects := objects[key := body];
      }
      ok := call == Succeeds;
    }

    method Delete(key: string, call: Call) returns (ok: bool)
      modifies this
      ensures objects == if TakesEffect(call) then old(objects) - {key} else old(objects)
      ensures ok == (call == Succeeds)
    {
      if call != FailsBefore {
        objects := objects - {key};
      }
      ok := call == Succeeds;
    }
  }
}
