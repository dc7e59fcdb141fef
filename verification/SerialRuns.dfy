// Requests run on their own, one step after the other: what each answer means for the data.
module SerialRuns {
  import opened Bytes
  import opened Protocol
  import opened ProtocolInvariant
  import opened ObjectAgreement
  import opened Tables
  import TextLayer

  // How the calls of one upload turn out, and the UUIDs it may draw.
  datatype UploadCalls = UploadCalls(existsOk: bool, course: Call, courseId: Id, put: Call, create: Call, rowId: Id)

  function SerialUpload(env: Env, s: State, c: Id, req: Upload, calls: UploadCalls): State {
    var s1 := ApplyStartUpload(s, c, req);
    var s2 := ApplyCheckExists(env, s1, c, calls.existsOk);
    var s3 := ApplyResolveCourse(s2, c, calls.course, calls.courseId);
    var s4 := ApplyPutObject(env, s3, c, calls.put);
    ApplyCreateRow(env, s4, c, calls.create, calls.rowId)
  }

  datatype DeleteCalls = DeleteCalls(lookupOk: bool, drop: Call, row: Call)

  const ALL_WELL: DeleteCalls := DeleteCalls(true, Succeeds, Succeeds)

  function SerialDelete(s: State, c: Id, calls: DeleteCalls): State {
    ApplyDropRow(ApplyDropObject(ApplyFindKey(s, c, calls.lookupOk), c, calls.drop), c, calls.row)
  }

  function SerialReject(s: State, c: Id, id: Id, calls: DeleteCalls): State {
    SerialDelete(ApplyStartReject(s, c, id), c, calls)
  }

  function SerialResolve(s: State, c: Id, flag: Id, named: Option<Id>, calls: DeleteCalls, mark: Call): State {
    ApplyMarkResolved(SerialDelete(ApplyStartResolve(s, c, flag, named), c, calls), c, mark)
  }

  lemma SerialUploadIsARun(env: Env, s: State, c: Id, req: Upload, calls: UploadCalls)
    ensures SerialUpload(env, s, c, req, calls)
            == Exec(env, s, [StartUpload(c, req), CheckExists(c, calls.existsOk),
                             ResolveCourse(c, calls.course, calls.courseId), PutObject(c, calls.put),
                             CreateRow(c, calls.create, calls.rowId)])
  {
    hide ApplyStartUpload, ApplyCheckExists, ApplyResolveCourse, ApplyPutObject, ApplyCreateRow;
    var a1, a2, a3, a4, a5 := StartUpload(c, req), CheckExists(c, calls.existsOk),
      ResolveCourse(c, calls.course, calls.courseId), PutObject(c, calls.put), CreateRow(c, calls.create, calls.rowId);
    ExecOne(env, s, [a1, a2, a3, a4], a5);
    ExecOne(env, s, [a1, a2, a3], a4);
    ExecOne(env, s, [a1, a2], a3);
    ExecOne(env, s, [a1], a2);
    ExecOne(env, s, [], a1);
    assert [] + [a1] == [a1] && [a1] + [a2] == [a1, a2] && [a1, a2] + [a3] == [a1, a2, a3];
    assert [a1, a2, a3] + [a4] == [a1, a2, a3, a4] && [a1, a2, a3, a4] + [a5] == [a1, a2, a3, a4, a5];
  }

  // A request that has been answered takes no further step.
  lemma AnsweredStays(env: Env, s: State, c: Id, calls: UploadCalls)
    requires c in s.clients && s.clients[c].Done?
    ensures ApplyCheckExists(env, s, c, calls.existsOk) == s
    ensures ApplyResolveCourse(s, c, calls.course, calls.courseId) == s
    ensures forall call :: ApplyPutObject(env, s, c, call) == s
    ensures ApplyCreateRow(env, s, c, calls.create, calls.rowId) == s
  {
  }

  // ---------------------------------------------------------------------------------------------
  // Uploads.

  predicate UsableCalls(s: State, req: Upload, calls: UploadCalls) {
    && calls.courseId !in s.tables.seen && calls.rowId !in s.tables.seen && calls.rowId != calls.courseId
    && (req.course.ById? ==> calls.rowId != req.course.id && calls.courseId != req.course.id)
  }

  // The course the form stands for can be had: an id of a course there is, or a name.
  predicate CourseAvailable(t: Tables, form: CourseForm, call: Call) {
    match form
    case ById(id) => id in t.courses.Values
    case Malformed => false
    case ByName(_) => call == Succeeds
  }

  // The courses once resolveCourse is over.
  function CoursesAfter(t: Tables, form: CourseForm, newId: Id): map<CourseSpec, Id> {
    if form.ByName? && form.spec !in t.courses then t.courses[form.spec := newId] else t.courses
  }

  predicate PassesChecks(env: Env, t: Tables, req: Upload, calls: UploadCalls) {
    && IsPDF(req.content) && calls.existsOk && !HashTaken(t, HashOf(env, req))
    && req.claims.Some?
  }

  predicate ReachesStore(env: Env, t: Tables, req: Upload, calls: UploadCalls) {
    && PassesChecks(env, t, req, calls)
    && (req.course.ByName? ==> calls.course == Succeeds) && !req.course.Malformed?
    && req.title != "" && ValidKind(req.kind)
  }

  // The state in which an upload that got so far stands between Put and Create.
  lemma UploadReachesCreate(env: Env, s: State, c: Id, req: Upload, calls: UploadCalls)
    requires c !in s.clients && UsableCalls(s, req, calls)
    requires ReachesStore(env, s.tables, req, calls) && calls.put == Succeeds
    ensures var s4 := ApplyPutObject(env, ApplyResolveCourse(ApplyCheckExists(env, ApplyStartUpload(s, c, req), c,
          calls.existsOk), c, calls.course, calls.courseId), c, calls.put);
      && s4.tables.materials == s.tables.materials && s4.tables.flags == s.tables.flags
      && s4.tables.courses == CoursesAfter(s.tables, req.course, calls.courseId)
      && s4.objects == s.objects[KeyFor(env, req) := req.content]
      && c in s4.clients && s4.clients[c].Stored? && s4.clients[c].req == req
      && (s4.clients[c].course in s4.tables.courses.Values <==> CourseAvailable(s.tables, req.course, calls.course))
      && CourseTells(s4.tables.courses, req.course, s4.clients[c].course)
      && calls.rowId !in s4.tables.seen
      && s4.clients == s.clients[c := s4.clients[c]]
  {
    hide KeyFor, HashTaken;
    var s1 := ApplyStartUpload(s, c, req);
    assert s1 == Goto(s, c, Hashed(req));
    var s2 := ApplyCheckExists(env, s1, c, calls.existsOk);
    assert s2.tables == s.tables && s2.clients[c] == Checked(req);
    var s3 := ApplyResolveCourse(s2, c, calls.course, calls.courseId);
    match req.course {
      case ById(id) => assert s3.clients[c] == Placing(req, id);
      case ByName(spec) =>
        assert s3.clients[c].Placing? && spec in s3.tables.courses && s3.tables.courses[spec] == s3.clients[c].course;
    }
  }

  // An upload is answered 201 exactly when every check passes and every call succeeds; then one
  // pending row with a new id has been added, its object is stored, and nothing else has changed
  // but, at most, a course created.
  lemma CreatedExactlyWhen(env: Env, s: State, c: Id, req: Upload, calls: UploadCalls)
    requires c !in s.clients && UsableCalls(s, req, calls)
    ensures var s' := SerialUpload(env, s, c, req, calls);
      && c in s'.clients
      && (s'.clients[c] == Done(Created(calls.rowId))
          <==> ReachesStore(env, s.tables, req, calls) && CourseAvailable(s.tables, req.course, calls.course)
               && calls.put == Succeeds && calls.create == Succeeds)
      && (s'.clients[c] == Done(Created(calls.rowId)) ==>
            && s'.tables.materials.Keys == s.tables.materials.Keys + {calls.rowId}
            && (forall id :: id in s.tables.materials && id != calls.rowId ==>
                  s'.tables.materials[id] == s.tables.materials[id])
            && var m := s'.tables.materials[calls.rowId];
            && m.status == Pending && RowTells(env, req, m) && CourseTells(s'.tables.courses, req.course, m.course)
            && s'.objects == s.objects[m.fileKey := req.content]
            && s'.tables.flags == s.tables.flags
            && s'.tables.courses == CoursesAfter(s.tables, req.course, calls.courseId))
  {
    if ReachesStore(env, s.tables, req, calls) && calls.put == Succeeds {
      CreateOutcome(env, s, c, req, calls);
    } else {
      StopsBeforeCreate(env, s, c, req, calls);
    }
    hide SerialUpload, TextLayer.Extract;
  }

  // From Put on: the row is inserted where the course is there and Create takes effect.
  lemma CreateOutcome(env: Env, s: State, c: Id, req: Upload, calls: UploadCalls)
    requires c !in s.clients && UsableCalls(s, req, calls)
    requires ReachesStore(env, s.tables, req, calls) && calls.put == Succeeds
    ensures var s' := SerialUpload(env, s, c, req, calls);
      var available := CourseAvailable(s.tables, req.course, calls.course);
      && c in s'.clients
      && (s'.clients[c] == Done(Created(calls.rowId)) <==> available && calls.create == Succeeds)
      && s'.tables.flags == s.tables.flags
      && s'.tables.courses == CoursesAfter(s.tables, req.course, calls.courseId)
      && s'.objects == s.objects[KeyFor(env, req) := req.content]
      && (if available && TakesEffect(calls.create) then
            && s'.tables.materials.Keys == s.tables.materials.Keys + {calls.rowId}
            && (forall id :: id in s.tables.materials && id != calls.rowId ==>
                  s'.tables.materials[id] == s.tables.materials[id])
            && var m := s'.tables.materials[calls.rowId];
            && m.status == Pending && RowTells(env, req, m) && CourseTells(s'.tables.courses, req.course, m.course)
          else s'.tables.materials == s.tables.materials)
  {
    UploadReachesCreate(env, s, c, req, calls);
    hide ApplyStartUpload, ApplyCheckExists, ApplyResolveCourse, ApplyPutObject, CoursesAfter, CourseAvailable;
    var s4 := ApplyPutObject(env, ApplyResolveCourse(ApplyCheckExists(env, ApplyStartUpload(s, c, req), c,
      calls.existsOk), c, calls.course, calls.courseId), c, calls.put);
    var input := InputFor(env, req, req.claims.value, s4.clients[c].course);
    assert input.contentHash == HashOf(env, req) && input.kind == req.kind && input.course == s4.clients[c].course;
    InsertedRowTells(env, s4.tables, calls.rowId, req, s4.clients[c].course);
    hide InputFor, KeyFor, HashOf, RowTells, CourseTells, RowFor;
    assert SerialUpload(env, s, c, req, calls) == ApplyCreateRow(env, s4, c, calls.create, calls.rowId);
    assert HashTaken(s4.tables, input.contentHash) == HashTaken(s.tables, input.contentHash);
    assert MayInsert(s4.tables, input) <==> CourseAvailable(s.tables, req.course, calls.course);
  }

  // Up to Put: the course may have been created and the object stored, but no row inserted.
  lemma StopsBeforeCreate(env: Env, s: State, c: Id, req: Upload, calls: UploadCalls)
    requires c !in s.clients && UsableCalls(s, req, calls)
    requires !(ReachesStore(env, s.tables, req, calls) && calls.put == Succeeds)
    ensures var s' := SerialUpload(env, s, c, req, calls);
      && c in s'.clients && s'.clients[c].Done? && !s'.clients[c].resp.Created?
      && s'.tables.materials == s.tables.materials && s'.tables.flags == s.tables.flags
      && s'.tables.courses == (if PassesChecks(env, s.tables, req, calls) && TakesEffect(calls.course)
                               then CoursesAfter(s.tables, req.course, calls.courseId) else s.tables.courses)
      && s'.objects == if ReachesStore(env, s.tables, req, calls) && TakesEffect(calls.put)
                       then s.objects[KeyFor(env, req) := req.content] else s.objects
  {
    hide InputFor, HashOf, HashTaken, KeyFor;
    var s1 := ApplyStartUpload(s, c, req);
    if IsPDF(req.content) {
      assert s1 == Goto(s, c, Hashed(req));
      hide IsPDF;
      var s2 := ApplyCheckExists(env, s1, c, calls.existsOk);
      if calls.existsOk && !HashTaken(s.tables, HashOf(env, req)) {
        assert s2 == Goto(s, c, Checked(req));
      }
    }
  }

  // Every answer, from the request, the tables and the calls alone.
  lemma UploadAnswers(env: Env, s: State, c: Id, req: Upload, calls: UploadCalls)
    requires c !in s.clients && UsableCalls(s, req, calls)
    ensures var s' := SerialUpload(env, s, c, req, calls);
      && c in s'.clients
      && s'.clients[c] == Done(
           if !(|req.content| >= 5 && req.content[..5] == [0x25, 0x50, 0x44, 0x46, 0x2D]) then BadRequest
           else if !calls.existsOk then ServerError
           else if exists id :: id in s.tables.materials && s.tables.materials[id].contentHash == env.sha(req.content)
             then Conflict
           else if req.claims == None then Unauthorized
           else if req.course.Malformed? || (req.course.ByName? && calls.course != Succeeds) then BadRequest
           else if req.title == "" || req.kind !in {"notes", "pyq", "assignment"} then BadRequest
           else if calls.put != Succeeds then ServerError
           else if req.course.ById? && req.course.id !in s.tables.courses.Values then ServerError
           else if calls.create != Succeeds then ServerError
           else Created(calls.rowId))
  {
    PdfExactlyWhen(req.content);
    LiteralsOfTheSchema(req.kind, "");
    assert HashTaken(s.tables, env.sha(req.content))
           <==> exists id :: id in s.tables.materials && s.tables.materials[id].contentHash == env.sha(req.content);
    if ReachesStore(env, s.tables, req, calls) && calls.put == Succeeds {
      CreateOutcome(env, s, c, req, calls);
      CreateAnswers(env, s, c, req, calls);
      hide SerialUpload, IsPDF, ValidKind, HashTaken;
    } else {
      StopAnswers(env, s, c, req, calls);
      hide SerialUpload, IsPDF, ValidKind, HashTaken;
    }
  }

  lemma CreateAnswers(env: Env, s: State, c: Id, req: Upload, calls: UploadCalls)
    requires c !in s.clients && UsableCalls(s, req, calls)
    requires ReachesStore(env, s.tables, req, calls) && calls.put == Succeeds
    ensures var s' := SerialUpload(env, s, c, req, calls);
      c in s'.clients && (s'.clients[c] == Done(ServerError) || s'.clients[c] == Done(Created(calls.rowId)))
  {
    UploadReachesCreate(env, s, c, req, calls);
    hide ApplyStartUpload, ApplyCheckExists, ApplyResolveCourse, ApplyPutObject, CoursesAfter, InputFor, MayInsert;
  }

  lemma StopAnswers(env: Env, s: State, c: Id, req: Upload, calls: UploadCalls)
    requires c !in s.clients && UsableCalls(s, req, calls)
    requires !(ReachesStore(env, s.tables, req, calls) && calls.put == Succeeds)
    ensures var s' := SerialUpload(env, s, c, req, calls);
      && c in s'.clients
      && s'.clients[c] == Done(
           if !IsPDF(req.content) then BadRequest
           else if !calls.existsOk then ServerError
           else if HashTaken(s.tables, HashOf(env, req)) then Conflict
           else if req.claims == None then Unauthorized
           else if ReachesStore(env, s.tables, req, calls) then ServerError
           else BadRequest)
  {
    hide InputFor, HashOf, HashTaken, KeyFor;
    var s1 := ApplyStartUpload(s, c, req);
    if IsPDF(req.content) {
      assert s1 == Goto(s, c, Hashed(req));
      hide IsPDF;
      var s2 := ApplyCheckExists(env, s1, c, calls.existsOk);
      if calls.existsOk && !HashTaken(s.tables, HashOf(env, req)) {
        assert s2 == Goto(s, c, Checked(req));
      }
    }
  }

  // 409 means exactly that the content is there already, and then nothing at all has changed.
  lemma ConflictExactlyWhen(env: Env, s: State, c: Id, req: Upload, calls: UploadCalls)
    requires c !in s.clients && UsableCalls(s, req, calls)
    ensures var s' := SerialUpload(env, s, c, req, calls);
      && (c in s'.clients && s'.clients[c] == Done(Conflict)
          <==> IsPDF(req.content) && calls.existsOk && HashTaken(s.tables, HashOf(env, req)))
      && (c in s'.clients && s'.clients[c] == Done(Conflict) ==> s'.tables == s.tables && s'.objects == s.objects)
  {
    hide InputFor, HashOf, HashTaken, KeyOf;
  }

  // What any upload leaves behind, however far it got.
  lemma UploadOutcome(env: Env, s: State, c: Id, req: Upload, calls: UploadCalls)
    requires c !in s.clients && UsableCalls(s, req, calls)
    ensures var s' := SerialUpload(env, s, c, req, calls);
      var reaches := ReachesStore(env, s.tables, req, calls);
      && s'.tables.flags == s.tables.flags
      && s'.tables.courses == (if PassesChecks(env, s.tables, req, calls) && TakesEffect(calls.course)
                               then CoursesAfter(s.tables, req.course, calls.courseId) else s.tables.courses)
      && s'.objects == (if reaches && TakesEffect(calls.put) then s.objects[KeyFor(env, req) := req.content]
                        else s.objects)
      && (if reaches && calls.put == Succeeds && CourseAvailable(s.tables, req.course, calls.course)
             && TakesEffect(calls.create)
          then s'.tables.materials.Keys == s.tables.materials.Keys + {calls.rowId}
          else s'.tables.materials == s.tables.materials)
  {
    if ReachesStore(env, s.tables, req, calls) && calls.put == Succeeds {
      CreateOutcome(env, s, c, req, calls);
    } else {
      StopsBeforeCreate(env, s, c, req, calls);
    }
    hide SerialUpload, KeyFor, HashOf, UsableCalls;
  }

  lemma ObjectsSame(objects: map<string, bytes>, key: string, content: bytes)
    ensures objects[key := content] == objects <==> key in objects && objects[key] == content
  {
    if objects[key := content] == objects {
      assert key in objects[key := content] && objects[key := content][key] == content;
    }
  }

  lemma EffectOrSuccess(call: Call)
    ensures TakesEffect(call) <==> call == Succeeds || call == FailsAfter
  {
  }

  lemma CoursesSame(t: Tables, form: CourseForm, newId: Id)
    ensures CoursesAfter(t, form, newId) == t.courses <==> !(form.ByName? && form.spec !in t.courses)
  {
    if form.ByName? && form.spec !in t.courses {
      assert form.spec in CoursesAfter(t, form, newId);
    }
  }

  // Exactly when an upload that is not answered 201 changes nothing: it creates no course, its Put
  // writes nothing new, and its Create is not a lost success.
  lemma RefusalChangesNothingExactlyWhen(env: Env, s: State, c: Id, req: Upload, calls: UploadCalls)
    requires c !in s.clients && UsableCalls(s, req, calls) && calls.rowId !in s.tables.materials
    requires SerialUpload(env, s, c, req, calls).clients[c] != Done(Created(calls.rowId))
    ensures var s' := SerialUpload(env, s, c, req, calls);
      var t, t', key := s.tables, s'.tables, KeyFor(env, req);
      t'.courses == t.courses && t'.materials == t.materials && t'.flags == t.flags && s'.objects == s.objects
      <==>
      && !(PassesChecks(env, t, req, calls) && req.course.ByName? && TakesEffect(calls.course)
           && req.course.spec !in t.courses)
      && !(ReachesStore(env, t, req, calls) && TakesEffect(calls.put)
           && !(key in s.objects && s.objects[key] == req.content))
      && !(ReachesStore(env, t, req, calls) && calls.put == Succeeds
           && CourseAvailable(t, req.course, calls.course) && calls.create == FailsAfter)
  {
    CreatedExactlyWhen(env, s, c, req, calls);
    UploadOutcome(env, s, c, req, calls);
    CoursesSame(s.tables, req.course, calls.courseId);
    hide *;
    ObjectsSame(s.objects, KeyFor(env, req), req.content);
    assert calls.rowId !in s.tables.materials.Keys;
    EffectOrSuccess(calls.create);
  }

  // A refused upload may still have created its course: the course is resolved before the title and
  // the type are looked at.
  lemma RefusalKeepsTheCourse(env: Env, s: State, c: Id, req: Upload, calls: UploadCalls)
    requires c !in s.clients && UsableCalls(s, req, calls)
    requires PassesChecks(env, s.tables, req, calls) && req.course.ByName? && TakesEffect(calls.course)
    requires req.course.spec !in s.tables.courses && (req.title == "" || !ValidKind(req.kind))
    ensures var s' := SerialUpload(env, s, c, req, calls);
      && s'.clients == s.clients[c := Done(BadRequest)]
      && s'.tables == s.tables.(courses := s.tables.courses[req.course.spec := calls.courseId],
                                seen := s.tables.seen + {calls.courseId})
      && s'.objects == s.objects
  {
    hide InputFor, HashOf, HashTaken, KeyOf;
    var s2 := ApplyCheckExists(env, ApplyStartUpload(s, c, req), c, calls.existsOk);
    assert s2 == Goto(s, c, Checked(req));
    var s3 := ApplyResolveCourse(s2, c, calls.course, calls.courseId);
    assert s3.clients[c] == Done(BadRequest);
  }

  // ---------------------------------------------------------------------------------------------
  // Rejections.

  // deleteMaterial from the lookup on, for either of its callers.
  lemma DeleteOutcome(s: State, c: Id, id: Id, why: Purpose, calls: DeleteCalls)
    requires c in s.clients && s.clients[c] == Finding(id, why)
    ensures var s' := SerialDelete(s, c, calls);
      var found := calls.lookupOk && id in s.tables.materials;
      && s'.clients == s.clients[c := if found then AfterDelete(id, why, calls.row == Succeeds)
                                      else AfterNotFound(id, why, !calls.lookupOk)]
      && s'.tables == (if found && TakesEffect(calls.row) then DeleteMaterial(s.tables, id) else s.tables)
      && s'.objects == if found && TakesEffect(calls.drop) then s.objects - {s.tables.materials[id].fileKey}
                       else s.objects
  {
    hide DeleteMaterial;
    var s1 := ApplyFindKey(s, c, calls.lookupOk);
    if calls.lookupOk && id in s.tables.materials {
      assert s1.clients[c] == Keyed(id, s.tables.materials[id].fileKey, why);
    }
  }

  lemma RejectOutcome(s: State, c: Id, id: Id, calls: DeleteCalls)
    requires c !in s.clients
    ensures var s' := SerialReject(s, c, id, calls);
      var t, t' := s.tables, s'.tables;
      && c in s'.clients && s'.clients == s.clients[c := s'.clients[c]]
      && (s'.clients[c] == Done(NotFound) <==> !calls.lookupOk || id !in t.materials)
      && (s'.clients[c] == Done(NoContent) <==> calls.lookupOk && id in t.materials && calls.row == Succeeds)
      && (s'.clients[c] == Done(ServerError) <==> calls.lookupOk && id in t.materials && calls.row != Succeeds)
      && (calls.lookupOk && id in t.materials && TakesEffect(calls.row)
          ==> t'.materials == t.materials - {id} && t'.flags == Cascade(t.flags, id))
      && (!(calls.lookupOk && id in t.materials && TakesEffect(calls.row))
          ==> t'.materials == t.materials && t'.flags == t.flags)
      && t'.courses == t.courses && t'.seen == t.seen + {id}
      && s'.objects == if calls.lookupOk && id in t.materials && TakesEffect(calls.drop)
                       then s.objects - {t.materials[id].fileKey} else s.objects
  {
    DeleteOutcome(ApplyStartReject(s, c, id), c, id, Rejection, calls);
    hide Cascade, SerialDelete;
  }

  // After a rejection the same bytes can be uploaded again: they make a new pending row with a new
  // id, with its object and with no flag.
  lemma RejectionFreesTheContent(env: Env, s: State, c: Id, d: Id, id: Id, req: Upload, calls: UploadCalls)
    requires Inv(env, s) && c !in s.clients && d !in s.clients && c != d
    requires id in s.tables.materials && s.tables.materials[id].contentHash == HashOf(env, req)
    requires UsableCalls(s, req, calls)
    requires IsPDF(req.content) && req.claims.Some? && req.title != "" && ValidKind(req.kind)
    requires CourseAvailable(s.tables, req.course, calls.course)
    requires calls.existsOk && calls.put == Succeeds && calls.create == Succeeds
    ensures var s' := SerialUpload(env, SerialReject(s, c, id, ALL_WELL), d, req, calls);
      && d in s'.clients && s'.clients[d] == Done(Created(calls.rowId)) && calls.rowId != id
      && id !in s'.tables.materials
      && calls.rowId in s'.tables.materials
      && var m := s'.tables.materials[calls.rowId];
      && m.status == Pending && m.contentHash == HashOf(env, req)
      && m.fileKey in s'.objects && s'.objects[m.fileKey] == req.content
      && forall f :: f in s'.tables.flags ==> f.material != calls.rowId
  {
    RejectOutcome(s, c, id, ALL_WELL);
    var s1 := SerialReject(s, c, id, ALL_WELL);
    assert id in s.tables.seen;
    assert !HashTaken(s1.tables, HashOf(env, req)) by {
      forall i | i in s1.tables.materials
        ensures s1.tables.materials[i].contentHash != HashOf(env, req)
      {
        assert i in s.tables.materials && i != id;
      }
    }
    assert forall f :: f in s1.tables.flags ==> f in s.tables.flags && f.material in s.tables.seen;
    hide Inv, SerialReject, SerialUpload, HashTaken, Cascade, HashOf;
    CreatedExactlyWhen(env, s1, d, req, calls);
  }

  // ---------------------------------------------------------------------------------------------
  // Resolving a flag.

  predicate Found(t: Tables, named: Option<Id>, calls: DeleteCalls) {
    named.Some? && calls.lookupOk && named.value in t.materials
  }

  // The tables once ResolveFlag has named its ids and maybe dropped the row and closed the flag.
  function ResolveTables(t: Tables, flag: Id, named: Option<Id>, dropped: bool, closed: bool): Tables {
    var ids := {flag} + if named.Some? then {named.value} else {};
    var t1 := t.(seen := t.seen + ids);
    var t2 := if named.Some? && dropped then DeleteMaterial(t1, named.value) else t1;
    if closed then ResolveFlagRow(t2, flag) else t2
  }

  // ResolveFlag, call by call: the answer, and what becomes of the rows and the flags.
  lemma ResolveOutcome(s: State, c: Id, flag: Id, named: Option<Id>, calls: DeleteCalls, mark: Call)
    requires c !in s.clients
    ensures var s' := SerialResolve(s, c, flag, named, calls, mark);
      var found := Found(s.tables, named, calls);
      && c in s'.clients && s'.clients == s.clients[c := s'.clients[c]]
      && (s'.clients[c].Resolved? || s'.clients[c] == Done(ServerError))
      && (s'.clients[c].Resolved? <==> mark == Succeeds && (found ==> calls.row == Succeeds))
      && s'.tables == ResolveTables(s.tables, flag, named, found && TakesEffect(calls.row),
                                    TakesEffect(mark) && (found ==> calls.row == Succeeds))
      && s'.objects == if found && TakesEffect(calls.drop) then s.objects - {s.tables.materials[named.value].fileKey}
                       else s.objects
  {
    var s1 := ApplyStartResolve(s, c, flag, named);
    hide DeleteMaterial, ResolveFlagRow;
    if named.Some? {
      DeleteOutcome(s1, c, named.value, Resolution(flag), calls);
      hide SerialDelete;
    }
  }

  // A row delete that fails leaves every flag as it was, the flag itself open; the answer is 500.
  lemma FailedDeleteLeavesFlagsAlone(s: State, c: Id, flag: Id, named: Option<Id>, calls: DeleteCalls, mark: Call)
    requires c !in s.clients && Found(s.tables, named, calls) && calls.row == FailsBefore
    ensures var s' := SerialResolve(s, c, flag, named, calls, mark);
      && c in s'.clients && s'.clients[c] == Done(ServerError)
      && s'.tables.flags == s.tables.flags && s'.tables.materials == s.tables.materials
  {
    ResolveOutcome(s, c, flag, named, calls, mark);
    hide SerialResolve;
  }

  // After 204 the flag is not open, and the material it named is gone, with every flag on it, exactly
  // when the lookup did not fail on a material that was there.
  lemma ResolvedMeansGone(env: Env, s: State, c: Id, flag: Id, named: Option<Id>, calls: DeleteCalls, mark: Call)
    requires Inv(env, s) && c !in s.clients
    requires SerialResolve(s, c, flag, named, calls, mark).clients[c].Resolved?
    ensures var t, t' := s.tables, SerialResolve(s, c, flag, named, calls, mark).tables;
      && NoOpenFlag(t', flag)
      && (named.Some? ==>
            && (named.value !in t'.materials <==> calls.lookupOk || named.value !in t.materials)
            && (named.value !in t'.materials ==> forall f :: f in t'.flags ==> f.material != named.value))
  {
    ResolveOutcome(s, c, flag, named, calls, mark);
    var flags := if Found(s.tables, named, calls) && TakesEffect(calls.row) then Cascade(s.tables.flags, named.value)
                 else s.tables.flags;
    hide SerialResolve, Inv, Cascade;
    ClosedFlags(flags, flag);
    if named.Some? && named.value !in s.tables.materials {
      assert Inv(env, s) ==> forall f :: f in s.tables.flags ==> f.material in s.tables.materials by {
        FlagsLive(env, s);
      }
    }
  }

  lemma FlagsLive(env: Env, s: State)
    ensures Inv(env, s) ==> forall f :: f in s.tables.flags ==> f.material in s.tables.materials
  {
  }

  lemma {:induction false} ClosedFlags(flags: seq<Flag>, id: Id)
    ensures forall f :: f in Closed(flags, id) ==>
              (f.id == id ==> !f.open) && exists g :: g in flags && g.id == f.id && g.material == f.material
  {
    var r := Closed(flags, id);
    forall f | f in r
      ensures (f.id == id ==> !f.open) && exists g :: g in flags && g.id == f.id && g.material == f.material
    {
      var k :| 0 <= k < |r| && r[k] == f;
      assert flags[k] in flags;
    }
  }

  // ---------------------------------------------------------------------------------------------
  // Without a condition on overlaps a row does lose its object, even when every call succeeds: two
  // uploads of the same bytes pass the existence check together, and the row of the one that inserts
  // first is rejected before the other inserts.

  predicate Smooth(a: Action) {
    match a
    case CheckExists(_, ok) => ok
    case ResolveCourse(_, call, _) => call == Succeeds
    case PutObject(_, call) => call == Succeeds
    case CreateRow(_, call, _) => call == Succeeds
    case FindKey(_, ok) => ok
    case DropObject(_, call) => call == Succeeds
    case DropRow(_, call) => call == Succeeds
    case MarkResolved(_, call) => call == Succeeds
    case Approve(_, call) => call == Succeeds
    case CreateFlag(_, _, _, _, call) => call == Succeeds
    case _ => true
  }

  ghost predicate Reaches(env: Env, acts: seq<Action>, s: State) {
    (forall k :: 0 <= k < |acts| ==> Smooth(acts[k])) && Exec(env, INITIAL, acts) == s
  }

  ghost predicate SmoothlyReachable(env: Env, s: State) {
    exists acts :: Reaches(env, acts, s)
  }

  lemma ReachStep(env: Env, s: State, a: Action)
    requires SmoothlyReachable(env, s) && Smooth(a)
    ensures SmoothlyReachable(env, Apply(env, s, a))
  {
    var acts :| Reaches(env, acts, s);
    hide Apply;
    ExecOne(env, INITIAL, acts, a);
    assert Reaches(env, acts + [a], Apply(env, s, a));
  }

  lemma ReachStored(env: Env, s: State, c: Id, req: Upload, calls: UploadCalls)
    requires SmoothlyReachable(env, s)
    requires calls.existsOk && calls.course == Succeeds && calls.put == Succeeds
    ensures SmoothlyReachable(env,
              ApplyPutObject(env, ApplyResolveCourse(ApplyCheckExists(env, ApplyStartUpload(s, c, req), c,
                calls.existsOk), c, calls.course, calls.courseId), c, calls.put))
  {
    var s1 := ApplyStartUpload(s, c, req);
    var s2 := ApplyCheckExists(env, s1, c, calls.existsOk);
    var s3 := ApplyResolveCourse(s2, c, calls.course, calls.courseId);
    hide ApplyStartUpload, ApplyCheckExists, ApplyResolveCourse, ApplyPutObject, SmoothlyReachable;
    ReachStep(env, s, StartUpload(c, req));
    ReachStep(env, s1, CheckExists(c, calls.existsOk));
    ReachStep(env, s2, ResolveCourse(c, calls.course, calls.courseId));
    ReachStep(env, s3, PutObject(c, calls.put));
  }

  // Two uploads of the same bytes stand between Put and Create; the second one inserts and its row
  // is rejected.
  lemma RaceFirstHalf(env: Env, s: State, req: Upload) returns (s': State)
    requires 0 in s.clients && s.clients[0].Stored? && s.clients[0].req == req
    requires 1 in s.clients && s.clients[1].Stored? && s.clients[1].req == req
    requires 2 !in s.clients && 3 !in s.tables.seen && 4 !in s.tables.seen
    requires s.tables.materials == map[] && req.claims.Some? && ValidKind(req.kind)
    requires s.clients[1].course in s.tables.courses.Values
    requires forall c :: c in s.clients ==> !s.clients[c].Unstored?
    requires SmoothlyReachable(env, s)
    ensures SmoothlyReachable(env, s') && s'.tables.courses == s.tables.courses
    ensures s'.tables.materials == map[] && KeyFor(env, req) !in s'.objects && 4 !in s'.tables.seen
    ensures 0 in s'.clients && s'.clients[0] == s.clients[0]
    ensures forall c :: c in s'.clients ==> !s'.clients[c].Unstored?
  {
    var input := InputFor(env, req, req.claims.value, s.clients[1].course);
    var key := KeyFor(env, req);
    assert input.fileKey == key && input.kind == req.kind && input.course == s.clients[1].course;
    hide InputFor, KeyFor, HashOf, SmoothlyReachable, Cascade;
    var s1 := ApplyCreateRow(env, s, 1, Succeeds, 3);
    ReachStep(env, s, CreateRow(1, Succeeds, 3));
    assert s1 == Goto(s.(tables := InsertMaterial(s.tables, 3, input)), 1, Done(Created(3)));
    hide ApplyCreateRow, Smooth;
    ReachRejected(env, s1, 2, 3);
    RejectOutcome(s1, 2, 3, ALL_WELL);
    s' := SerialReject(s1, 2, 3, ALL_WELL);
  }

  lemma ReachRejected(env: Env, s: State, c: Id, id: Id)
    requires SmoothlyReachable(env, s)
    ensures SmoothlyReachable(env, SerialReject(s, c, id, ALL_WELL))
  {
    hide SmoothlyReachable, ApplyStartReject, ApplyFindKey, ApplyDropObject, ApplyDropRow;
    var s1 := ApplyStartReject(s, c, id);
    ReachStep(env, s, StartReject(c, id));
    var s2 := ApplyFindKey(s1, c, true);
    ReachStep(env, s1, FindKey(c, true));
    ReachStep(env, s2, DropObject(c, Succeeds));
    ReachStep(env, ApplyDropObject(s2, c, Succeeds), DropRow(c, Succeeds));
  }

  lemma RaceSecondHalf(env: Env, s: State, req: Upload)
    requires 0 in s.clients && s.clients[0].Stored? && s.clients[0].req == req
    requires 4 !in s.tables.seen && req.claims.Some? && ValidKind(req.kind)
    requires s.tables.materials == map[] && KeyFor(env, req) !in s.objects
    requires s.clients[0].course in s.tables.courses.Values
    requires forall c :: c in s.clients ==> !s.clients[c].Unstored?
    requires SmoothlyReachable(env, s)
    ensures exists s' :: SmoothlyReachable(env, s') && Orphaned(s', 4)
  {
    var input := InputFor(env, req, req.claims.value, s.clients[0].course);
    assert input.fileKey == KeyFor(env, req) && input.kind == req.kind && input.course == s.clients[0].course;
    hide InputFor, KeyFor, SmoothlyReachable;
    var s' := ApplyCreateRow(env, s, 0, Succeeds, 4);
    ReachStep(env, s, CreateRow(0, Succeeds, 4));
    assert MayInsert(s.tables, input) && s'.tables == InsertMaterial(s.tables, 4, input);
    assert Orphaned(s', 4);
  }

  // One upload after another of the same bytes, both up to their Put.
  lemma TwoUploadsWait(env: Env, req: Upload) returns (s': State)
    requires IsPDF(req.content) && req.title != "" && req.kind == "notes" && req.claims == Some(0)
    requires req.course == ByName(CourseSpec("Networks", "CSE", 2026, 5))
    ensures SmoothlyReachable(env, s') && s'.tables.materials == map[]
    ensures s'.clients.Keys == {0, 1}
    ensures forall c :: c in s'.clients ==> s'.clients[c].Stored? && s'.clients[c].req == req
                                            && s'.clients[c].course in s'.tables.courses.Values
    ensures 3 !in s'.tables.seen && 4 !in s'.tables.seen
  {
    assert Reaches(env, [], INITIAL);
    var calls := UploadCalls(true, Succeeds, 5, Succeeds, Succeeds, 3);
    UploadReachesCreate(env, INITIAL, 0, req, calls);
    ReachStored(env, INITIAL, 0, req, calls);
    var s := ApplyPutObject(env, ApplyResolveCourse(ApplyCheckExists(env, ApplyStartUpload(INITIAL, 0, req), 0, true),
      0, Succeeds, 5), 0, Succeeds);
    var calls' := UploadCalls(true, Succeeds, 6, Succeeds, Succeeds, 3);
    hide ApplyStartUpload, ApplyCheckExists, ApplyResolveCourse, ApplyPutObject, SmoothlyReachable, IsPDF;
    UploadReachesCreate(env, s, 1, req, calls');
    ReachStored(env, s, 1, req, calls');
    s' := ApplyPutObject(env, ApplyResolveCourse(ApplyCheckExists(env, ApplyStartUpload(s, 1, req), 1, true), 1,
      Succeeds, 6), 1, Succeeds);
  }

  lemma ARowCanLoseItsObject(env: Env, content: bytes, title: string, file: TextLayer.Content)
    requires IsPDF(content) && title != ""
    ensures exists s :: SmoothlyReachable(env, s) && Orphaned(s, 4)
  {
    var req := Upload(content, Some(0), ByName(CourseSpec("Networks", "CSE", 2026, 5)), title, "notes", file);
    hide SmoothlyReachable, Orphaned, IsPDF;
    var s := TwoUploadsWait(env, req);
    var s' := RaceFirstHalf(env, s, req);
    RaceSecondHalf(env, s', req);
  }
}
