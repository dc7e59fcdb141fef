// The upload endpoint, run without interference: it takes the protocol's steps in order.
module UploadHandler {
  import opened Bytes
  import opened Protocol
  import opened Repositories
  import opened SerialRuns
  import opened Tables
  import TextLayer

  class UploadEndpoint {
    const db: Database
    const store: ObjectStore?    // null: files are not kept
    const env: Env

    constructor (db: Database, store: ObjectStore?, env: Env)
      ensures this.db == db && this.store == store && this.env == env
    {
      this.db, this.store, this.env := db, store, env;
    }

    ghost function Objects(): map<string, bytes>
      reads store
    {
      if store == null then map[] else store.objects
    }

    // What the protocol's steps make of the request, from the present state. A store that is not
    // there behaves like one whose Put succeeds.
    ghost function Expected(req: Upload, calls: UploadCalls): State
      reads db, store
    {
      SerialUpload(env, State(db.Contents(), Objects(), map[]), 0, req,
                   if store == null then calls.(put := Succeeds) else calls)
    }

    // resolveCourse.
    method ResolveCourse(req: Upload, calls: UploadCalls) returns (r: Option<Id>)
      requires calls.courseId !in db.seen
      modifies db
      ensures var t := old(db.Contents());
        match req.course
        case Malformed => r == None && db.Contents() == t
        case ById(id) => r == Some(id) && db.Contents() == t.(seen := t.seen + {id})
        case ByName(spec) =>
          var (t', id) := FindCourse(t, spec, calls.courseId);
          && db.Contents() == (if TakesEffect(calls.course) then t' else t)
          && r == if calls.course == Succeeds then Some(id) else None
    {
      match req.course {
        case Malformed => r := None;
        case ById(id) =>
          db.Mention({id});
          r := Some(id);
        case ByName(spec) => r := db.FindOrCreate(spec, calls.course, calls.courseId);
      }
    }

    ghost function PutCall(calls: UploadCalls): Call {
      if store == null then Succeeds else calls.put
    }

    // The row to insert, with the text extracted from the file.
    method BuildInput(req: Upload, course: Id, hash: string) returns (input: CreateInput)
      requires req.claims.Some? && hash == HashOf(env, req)
      ensures input == InputFor(env, req, req.claims.value, course)
    {
      var text, hasLayer := TextLayer.ExtractText(env.read, req.file);
      input := CreateInput(req.claims.value, course, req.kind, req.title, KeyOf(hash), hash, |req.content|, hasLayer,
        text);
    }

    // The last step of the handler.
    method Insert(req: Upload, course: Id, input: CreateInput, calls: UploadCalls, ghost s: State)
      returns (resp: Response)
      requires s.clients == map[0 := Stored(req, course)] && s.tables == db.Contents()
      requires req.claims.Some? && input == InputFor(env, req, req.claims.value, course) && calls.rowId !in db.seen
      modifies db
      ensures var s' := ApplyCreateRow(env, s, 0, calls.create, calls.rowId);
        && s'.clients == map[0 := Done(resp)]
        && s'.objects == s.objects
        && db.Contents() == s'.tables
    {
      hide InputFor, MayInsert, InsertMaterial;
      var id := db.Create(input, calls.create, calls.rowId);
      if id == None {
        return ServerError;
      }
      return Created(id.value);
    }

    // The second half of the handler: extract the text, store the file, insert the row.
    method Save(req: Upload, course: Id, hash: string, calls: UploadCalls, ghost s: State) returns (resp: Response)
      requires s.clients == map[0 := Placing(req, course)]
      requires s.tables == db.Contents() && s.objects == Objects()
      requires req.claims.Some? && hash == HashOf(env, req) && calls.rowId !in db.seen
      modifies db, store
      ensures var s' := ApplyCreateRow(env, ApplyPutObject(env, s, 0, PutCall(calls)), 0, calls.create, calls.rowId);
        && s'.clients == map[0 := Done(resp)]
        && db.Contents() == s'.tables
        && (store != null ==> store.objects == s'.objects)
    {
      var input := BuildInput(req, course, hash);
      var fileKey := KeyOf(hash);
      hide InputFor, HashOf, KeyOf, ApplyCreateRow;
      ghost var s4 := ApplyPutObject(env, s, 0, PutCall(calls));
      if store != null {
        var ok := store.Put(fileKey, req.content, calls.put);
        if !ok {
          return ServerError;
        }
      }
      assert s4.clients == map[0 := Stored(req, course)] && s4.tables == s.tables;
      assert store != null ==> s4.objects == store.objects;
      hide ApplyPutObject;
      resp := Insert(req, course, input, calls, s4);
    }

    // From the existence check on: authentication, the course, the form, the file and the row.
    method Accept(req: Upload, hash: string, calls: UploadCalls, ghost s2: State) returns (resp: Response)
      requires s2 == State(db.Contents(), Objects(), map[0 := Checked(req)]) && hash == HashOf(env, req)
      requires UsableCalls(State(db.Contents(), Objects(), map[]), req, calls)
      modifies db, store
      ensures var s3 := ApplyResolveCourse(s2, 0, calls.course, calls.courseId);
        var s' := ApplyCreateRow(env, ApplyPutObject(env, s3, 0, PutCall(calls)), 0, calls.create, calls.rowId);
        && s'.clients == map[0 := Done(resp)]
        && db.Contents() == s'.tables
        && (store != null ==> store.objects == s'.objects)
    {
      hide InputFor, HashTaken, KeyOf, HashOf, ApplyPutObject, ApplyCreateRow;
      ghost var s3 := ApplyResolveCourse(s2, 0, calls.course, calls.courseId);
      if req.claims == None {
        AnsweredStays(env, s3, 0, calls);
        return Unauthorized;
      }
      var course := ResolveCourse(req, calls);
      if course == None {
        AnsweredStays(env, s3, 0, calls);
        return BadRequest;
      }
      if req.title == "" {
        AnsweredStays(env, s3, 0, calls);
        return BadRequest;
      }
      if !ValidKind(req.kind) {
        AnsweredStays(env, s3, 0, calls);
        return BadRequest;
      }
      assert s3 == State(db.Contents(), Objects(), map[0 := Placing(req, course.value)]);
      hide ApplyResolveCourse;
      resp := Save(req, course.value, hash, calls, s3);
    }

    method ServeHTTP(req: Upload, calls: UploadCalls) returns (resp: Response)
      requires UsableCalls(State(db.Contents(), Objects(), map[]), req, calls)
      modifies db, store
      ensures var s' := old(Expected(req, calls));
        && s'.clients == map[0 := Done(resp)]
        && db.Contents() == s'.tables
        && (store != null ==> store.objects == s'.objects)
    {
      hide InputFor, HashTaken, KeyOf, ApplyResolveCourse, ApplyPutObject, ApplyCreateRow;
      ghost var s1 := ApplyStartUpload(State(db.Contents(), Objects(), map[]), 0, req);
      var hash := env.sha(req.content);
      if !IsPDF(req.content) {
        AnsweredStays(env, s1, 0, calls);
        return BadRequest;
      }
      ghost var s2 := ApplyCheckExists(env, s1, 0, calls.existsOk);
      var taken := db.ExistsByContentHash(hash, calls.existsOk);
      if taken == None {
        AnsweredStays(env, s2, 0, calls);
        return ServerError;
      }
      if taken.value {
        AnsweredStays(env, s2, 0, calls);
        return Conflict;
      }
      assert s2 == State(db.Contents(), Objects(), map[0 := Checked(req)]);
      resp := Accept(req, hash, calls, s2);
    }
  }
}
