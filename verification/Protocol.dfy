// The upload, moderation and flag requests as an interleaved state machine: every call to the
// database or the object store is one step, and any number of requests run at once.
module Protocol {
  import opened Bytes
  import opened Tables
  import TextExtractor
  import TextLayer

  // SHA-256 in hexadecimal and strconv.ParseFloat, which the model does not look into.
  datatype Env = Env(sha: bytes -> string, read: TextExtractor.FloatReader)

  // How one call to the database or the store turns out for the caller and for the data.
  datatype Call = Succeeds | FailsBefore | FailsAfter

  predicate TakesEffect(call: Call) {
    call != FailsBefore
  }

  datatype CourseForm = ById(id: Id) | Malformed | ByName(spec: CourseSpec)

  // An upload request; `title` is the form value after trimming, `file` what unpacking the PDF gives.
  datatype Upload = Upload(
    content: bytes, claims: Option<Id>, course: CourseForm, title: string, kind: string, file: TextLayer.Content)

  datatype Response =
    | Created(id: Id)
    | NoContent
    | BadRequest
    | Unauthorized
    | NotFound
    | Conflict
    | ServerError

  // What deleteMaterial was called for.
  datatype Purpose = Rejection | Resolution(flag: Id)

  // Where a request stands, with the local variables it still needs.
  datatype Phase =
    | Hashed(req: Upload)                                     // before ExistsByContentHash
    | Checked(req: Upload)                                    // before resolveCourse
    | Placing(req: Upload, course: Id)                        // before Put
    | Stored(req: Upload, course: Id)                         // between Put and Create
    | Finding(id: Id, why: Purpose)                           // before GetFileKey
    | Keyed(id: Id, key: string, why: Purpose)                // between GetFileKey and the store's Delete
    | Unstored(id: Id, key: string, why: Purpose)             // between the store's Delete and the row's
    | Resolving(flag: Id, named: Option<Id>, missed: bool)    // before flags.Resolve
    | Resolved(flag: Id, named: Option<Id>, missed: bool)     // answered 204
    | Done(resp: Response)

  datatype State = State(tables: Tables, objects: map<string, bytes>, clients: map<Id, Phase>)

  const INITIAL: State := State(EMPTY, map[], map[])

  // Call outcomes and new UUIDs are chosen by the environment; `c` names the request.
  datatype Action =
    | StartUpload(c: Id, req: Upload)
    | CheckExists(c: Id, ok: bool)
    | ResolveCourse(c: Id, call: Call, newId: Id)
    | PutObject(c: Id, call: Call)
    | CreateRow(c: Id, call: Call, newId: Id)
    | StartReject(c: Id, id: Id)
    | StartResolve(c: Id, flag: Id, named: Option<Id>)
    | FindKey(c: Id, ok: bool)
    | DropObject(c: Id, call: Call)
    | DropRow(c: Id, call: Call)
    | MarkResolved(c: Id, call: Call)
    | Approve(id: Id, call: Call)
    | CreateFlag(newId: Id, material: Id, reporter: Id, reason: string, call: Call)

  const PDF_MAGIC: bytes := ['%' as byte, 'P' as byte, 'D' as byte, 'F' as byte, '-' as byte]

  predicate IsPDF(data: bytes) {
    PDF_MAGIC <= data
  }

  // A PDF starts with the five bytes 25 50 44 46 2D.
  lemma PdfExactlyWhen(data: bytes)
    ensures IsPDF(data) <==> |data| >= 5 && data[..5] == [0x25, 0x50, 0x44, 0x46, 0x2D]
  {
    if |data| >= 5 {
      assert PDF_MAGIC <= data <==> data[..5] == PDF_MAGIC;
    }
  }

  function HashOf(env: Env, req: Upload): string {
    env.sha(req.content)
  }

  function KeyFor(env: Env, req: Upload): string {
    KeyOf(HashOf(env, req))
  }

  function InputFor(env: Env, req: Upload, uploader: Id, course: Id): CreateInput {
    var e := TextLayer.Extract(env.read, req.file);
    CreateInput(uploader, course, req.kind, req.title, KeyFor(env, req), HashOf(env, req), |req.content|,
                e.hasLayer, e.text)
  }

  // The row says what the upload asked for and what its file and content come to.
  predicate RowTells(env: Env, req: Upload, m: Material) {
    && req.claims == Some(m.uploader)
    && m.kind == req.kind && m.title == req.title && m.fileSize == |req.content|
    && m.contentHash == env.sha(req.content) && m.fileKey == "materials/" + env.sha(req.content) + ".pdf"
    && m.hasTextLayer == TextLayer.Extract(env.read, req.file).hasLayer
    && m.extractedText == (if TextLayer.Extract(env.read, req.file).text == [] then None
                           else Some(TextLayer.Extract(env.read, req.file).text))
  }

  // The course a form stands for, among those there are.
  predicate CourseTells(courses: map<CourseSpec, Id>, form: CourseForm, course: Id) {
    match form
    case ById(id) => course == id
    case Malformed => false
    case ByName(spec) => spec in courses && course == courses[spec]
  }

  lemma InsertedRowTells(env: Env, t: Tables, id: Id, req: Upload, course: Id)
    requires req.claims.Some?
    ensures var m := InsertMaterial(t, id, InputFor(env, req, req.claims.value, course)).materials[id];
      RowTells(env, req, m) && m.course == course && m.status == Pending
  {
    hide TextLayer.Extract;
  }

  function Goto(s: State, c: Id, p: Phase): State {
    s.(clients := s.clients[c := p])
  }

  // An upload between its checks: past resolveCourse the title and the type are validated.
  function AfterCourse(req: Upload, course: Id): Phase {
    if req.title == "" || !ValidKind(req.kind) then Done(BadRequest) else Placing(req, course)
  }

  function ApplyStartUpload(s: State, c: Id, req: Upload): State {
    if c in s.clients then s else Goto(s, c, if IsPDF(req.content) then Hashed(req) else Done(BadRequest))
  }

  function ApplyCheckExists(env: Env, s: State, c: Id, ok: bool): State {
    if c in s.clients && s.clients[c].Hashed? then
      var req := s.clients[c].req;
      Goto(s, c, if !ok then Done(ServerError)
                 else if HashTaken(s.tables, HashOf(env, req)) then Done(Conflict)
                 else Checked(req))
    else s
  }

  function ApplyResolveCourse(s: State, c: Id, call: Call, newId: Id): State {
    if c in s.clients && s.clients[c].Checked? && newId !in s.tables.seen then
      var req := s.clients[c].req;
      if req.claims == None then Goto(s, c, Done(Unauthorized))
      else
        match req.course
        case Malformed => Goto(s, c, Done(BadRequest))
        case ById(id) => Goto(s.(tables := s.tables.(seen := s.tables.seen + {id})), c, AfterCourse(req, id))
        case ByName(spec) =>
          var (t, id) := FindCourse(s.tables, spec, newId);
          Goto(if TakesEffect(call) then s.(tables := t) else s, c,
               if call == Succeeds then AfterCourse(req, id) else Done(BadRequest))
    else s
  }

  function ApplyPutObject(env: Env, s: State, c: Id, call: Call): State {
    if c in s.clients && s.clients[c].Placing? then
      var Placing(req, course) := s.clients[c];
      var s' := if TakesEffect(call) then s.(objects := s.objects[KeyFor(env, req) := req.content]) else s;
      Goto(s', c, if call == Succeeds then Stored(req, course) else Done(ServerError))
    else s
  }

  function ApplyCreateRow(env: Env, s: State, c: Id, call: Call, newId: Id): State {
    if c in s.clients && s.clients[c].Stored? && newId !in s.tables.seen then
      var Stored(req, course) := s.clients[c];
      if req.claims == None then s
      else
        var input := InputFor(env, req, req.claims.value, course);
        if !MayInsert(s.tables, input) then Goto(s, c, Done(ServerError))
        else
          var s' := if TakesEffect(call) then s.(tables := InsertMaterial(s.tables, newId, input)) else s;
          Goto(s', c, if call == Succeeds then Done(Created(newId)) else Done(ServerError))
    else s
  }

  function ApplyStartReject(s: State, c: Id, id: Id): State {
    if c in s.clients then s
    else Goto(s.(tables := s.tables.(seen := s.tables.seen + {id})), c, Finding(id, Rejection))
  }

  function ApplyStartResolve(s: State, c: Id, flag: Id, named: Option<Id>): State {
    if c in s.clients then s
    else
      var ids := {flag} + if named.Some? then {named.value} else {};
      Goto(s.(tables := s.tables.(seen := s.tables.seen + ids)), c,
           if named.Some? then Finding(named.value, Resolution(flag)) else Resolving(flag, None, false))
  }

  // What follows deleteMaterial once it has returned errMaterialNotFound; `missed` when the lookup
  // failed although the row may be there.
  function AfterNotFound(id: Id, why: Purpose, missed: bool): Phase {
    match why
    case Rejection => Done(NotFound)
    case Resolution(flag) => Resolving(flag, Some(id), missed)
  }

  function AfterDelete(id: Id, why: Purpose, ok: bool): Phase {
    if !ok then Done(ServerError)
    else
      match why
      case Rejection => Done(NoContent)
      case Resolution(flag) => Resolving(flag, Some(id), false)
  }

  function ApplyFindKey(s: State, c: Id, ok: bool): State {
    if c in s.clients && s.clients[c].Finding? then
      var Finding(id, why) := s.clients[c];
      Goto(s, c, if !ok then AfterNotFound(id, why, true)
                 else if id !in s.tables.materials then AfterNotFound(id, why, false)
                 else Keyed(id, s.tables.materials[id].fileKey, why))
    else s
  }

  // The error of the store's Delete is ignored.
  function ApplyDropObject(s: State, c: Id, call: Call): State {
    if c in s.clients && s.clients[c].Keyed? then
      var Keyed(id, key, why) := s.clients[c];
      Goto(if TakesEffect(call) then s.(objects := s.objects - {key}) else s, c, Unstored(id, key, why))
    else s
  }

  function ApplyDropRow(s: State, c: Id, call: Call): State {
    if c in s.clients && s.clients[c].Unstored? then
      var Unstored(id, key, why) := s.clients[c];
      Goto(if TakesEffect(call) then s.(tables := DeleteMaterial(s.tables, id)) else s, c,
           AfterDelete(id, why, call == Succeeds))
    else s
  }

  function ApplyMarkResolved(s: State, c: Id, call: Call): State {
    if c in s.clients && s.clients[c].Resolving? then
      var Resolving(flag, named, missed) := s.clients[c];
      Goto(if TakesEffect(call) then s.(tables := ResolveFlagRow(s.tables, flag)) else s, c,
           if call == Succeeds then Resolved(flag, named, missed) else Done(ServerError))
    else s
  }

  function ApplyApprove(s: State, id: Id, call: Call): State {
    if TakesEffect(call) then s.(tables := SetApproved(s.tables, id)) else s
  }

  // The foreign key refuses a flag on a material that is not there.
  function ApplyCreateFlag(s: State, newId: Id, material: Id, reporter: Id, reason: string, call: Call): State {
    if TakesEffect(call) && newId !in s.tables.seen && material in s.tables.materials
    then s.(tables := InsertFlag(s.tables, newId, material, reporter, reason))
    else s
  }

  // A step that is not enabled changes nothing.
  function Apply(env: Env, s: State, a: Action): State {
    match a
    case StartUpload(c, req) => ApplyStartUpload(s, c, req)
    case CheckExists(c, ok) => ApplyCheckExists(env, s, c, ok)
    case ResolveCourse(c, call, newId) => ApplyResolveCourse(s, c, call, newId)
    case PutObject(c, call) => ApplyPutObject(env, s, c, call)
    case CreateRow(c, call, newId) => ApplyCreateRow(env, s, c, call, newId)
    case StartReject(c, id) => ApplyStartReject(s, c, id)
    case StartResolve(c, flag, named) => ApplyStartResolve(s, c, flag, named)
    case FindKey(c, ok) => ApplyFindKey(s, c, ok)
    case DropObject(c, call) => ApplyDropObject(s, c, call)
    case DropRow(c, call) => ApplyDropRow(s, c, call)
    case MarkResolved(c, call) => ApplyMarkResolved(s, c, call)
    case Approve(id, call) => ApplyApprove(s, id, call)
    case CreateFlag(newId, material, reporter, reason, call) =>
      ApplyCreateFlag(s, newId, material, reporter, reason, call)
  }

  // The state after a run: any interleaving of any number of requests, any call failing.
  function Exec(env: Env, s: State, acts: seq<Action>): State {
    if acts == [] then s else Apply(env, Exec(env, s, acts[..|acts| - 1]), acts[|acts| - 1])
  }

  // The state after the first n steps of a run.
  function After(env: Env, acts: seq<Action>, n: nat): State
    requires n <= |acts|
  {
    Exec(env, INITIAL, acts[..n])
  }

  lemma AfterNothing(env: Env, acts: seq<Action>)
    ensures After(env, acts, 0) == INITIAL
  {
  }

  lemma AfterStep(env: Env, acts: seq<Action>, n: nat)
    requires n < |acts|
    ensures After(env, acts, n + 1) == Apply(env, After(env, acts, n), acts[n])
  {
    hide Apply;
    var p := acts[..n + 1];
    assert p[..|p| - 1] == acts[..n] && p[|p| - 1] == acts[n];
  }

  lemma ExecOne(env: Env, s: State, acts: seq<Action>, a: Action)
    ensures Exec(env, s, acts + [a]) == Apply(env, Exec(env, s, acts), a)
  {
    hide Apply;
    var all := acts + [a];
    assert all[..|all| - 1] == acts && all[|all| - 1] == a;
  }

  lemma ExecThree(env: Env, s: State, a: Action, b: Action, c: Action)
    ensures Exec(env, s, [a, b, c]) == Apply(env, Apply(env, Apply(env, s, a), b), c)
  {
    hide Apply;
    ExecOne(env, s, [], a);
    ExecOne(env, s, [a], b);
    ExecOne(env, s, [a, b], c);
    assert [] + [a] == [a] && [a] + [b] == [a, b] && [a, b] + [c] == [a, b, c];
  }
}
