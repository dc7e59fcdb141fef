// What every step of every interleaving keeps.
module ProtocolInvariant {
  import opened Bytes
  import opened Protocol
  import opened Tables
  import TextLayer

  // No open flag has the id.
  ghost predicate NoOpenFlag(t: Tables, id: Id) {
    forall f :: f in t.flags && f.id == id ==> !f.open
  }

  predicate RowOk(m: Material) {
    m.fileKey == KeyOf(m.contentHash) && (m.hasTextLayer <==> m.extractedText.Some?)
  }

  ghost predicate TablesOk(t: Tables) {
    && (forall id :: id in t.materials ==> id in t.seen && RowOk(t.materials[id]))
    && (forall i, j :: i in t.materials && j in t.materials && i != j ==>
          t.materials[i].contentHash != t.materials[j].contentHash)
    && (forall f :: f in t.flags ==> f.id in t.seen && f.material in t.materials)
  }

  ghost predicate ObjectsOk(env: Env, objects: map<string, bytes>) {
    forall k :: k in objects ==> k == KeyOf(env.sha(objects[k]))
  }

  // A material that was named in a request and looked for is gone.
  predicate Gone(t: Tables, named: Option<Id>, missed: bool) {
    named.Some? ==> named.value in t.seen && (!missed ==> named.value !in t.materials)
  }

  ghost predicate PurposeOk(t: Tables, why: Purpose) {
    why.Resolution? ==> why.flag in t.seen
  }

  ghost predicate PhaseOk(t: Tables, p: Phase) {
    match p
    case Placing(req, _) => req.claims.Some? && ValidKind(req.kind)
    case Stored(req, _) => req.claims.Some? && ValidKind(req.kind)
    case Finding(id, why) => id in t.seen && PurposeOk(t, why)
    case Keyed(id, key, why) =>
      id in t.seen && PurposeOk(t, why) && (id in t.materials ==> t.materials[id].fileKey == key)
    case Unstored(id, key, why) =>
      id in t.seen && PurposeOk(t, why) && (id in t.materials ==> t.materials[id].fileKey == key)
    case Resolving(flag, named, missed) => flag in t.seen && Gone(t, named, missed)
    case Resolved(flag, named, missed) => flag in t.seen && Gone(t, named, missed) && NoOpenFlag(t, flag)
    case _ => true
  }

  ghost predicate Inv(env: Env, s: State) {
    && TablesOk(s.tables)
    && ObjectsOk(env, s.objects)
    && forall c :: c in s.clients ==> PhaseOk(s.tables, s.clients[c])
  }

  // How the tables change while requests that have seen an earlier state of them are under way: rows
  // keep their keys, deleted rows do not come back, resolved flags stay resolved.
  ghost predicate Advances(t: Tables, t': Tables) {
    && t.seen <= t'.seen
    && (forall id :: id in t'.materials ==>
          id !in t.seen || (id in t.materials && t.materials[id].fileKey == t'.materials[id].fileKey))
    && (forall x :: x in t.seen && NoOpenFlag(t, x) ==> NoOpenFlag(t', x))
  }

  lemma PhaseStays(t: Tables, t': Tables, p: Phase)
    requires PhaseOk(t, p) && Advances(t, t')
    ensures PhaseOk(t', p)
  {
  }

  // ---------------------------------------------------------------------------------------------
  // The statements.

  ghost predicate Keeps(t: Tables, t': Tables) {
    TablesOk(t') && Advances(t, t')
  }

  lemma SeenKeeps(t: Tables, ids: set<Id>)
    requires TablesOk(t)
    ensures Keeps(t, t.(seen := t.seen + ids))
  {
    var t' := t.(seen := t.seen + ids);
    assert forall x :: NoOpenFlag(t, x) ==> NoOpenFlag(t', x);
  }

  lemma FindCourseKeeps(t: Tables, spec: CourseSpec, newId: Id)
    requires TablesOk(t)
    ensures Keeps(t, FindCourse(t, spec, newId).0)
  {
    var t' := FindCourse(t, spec, newId).0;
    assert forall x :: NoOpenFlag(t, x) ==> NoOpenFlag(t', x);
  }

  lemma InsertMaterialKeeps(t: Tables, id: Id, input: CreateInput)
    requires TablesOk(t) && id !in t.seen && MayInsert(t, input)
    requires RowOk(RowFor(input))
    ensures Keeps(t, InsertMaterial(t, id, input))
  {
    var t' := InsertMaterial(t, id, input);
    assert forall x :: NoOpenFlag(t, x) ==> NoOpenFlag(t', x);
    assert forall j :: j in t.materials ==> t.materials[j].contentHash != input.contentHash;
  }

  lemma SetApprovedKeeps(t: Tables, id: Id)
    requires TablesOk(t)
    ensures Keeps(t, SetApproved(t, id))
  {
    var t' := SetApproved(t, id);
    assert forall x :: NoOpenFlag(t, x) ==> NoOpenFlag(t', x);
  }

  lemma DeleteMaterialKeeps(t: Tables, id: Id)
    requires TablesOk(t)
    ensures Keeps(t, DeleteMaterial(t, id))
  {
    var t' := DeleteMaterial(t, id);
    assert forall x :: NoOpenFlag(t, x) ==> NoOpenFlag(t', x);
  }

  lemma InsertFlagKeeps(t: Tables, id: Id, material: Id, reporter: Id, reason: string)
    requires TablesOk(t) && id !in t.seen && material in t.materials
    ensures Keeps(t, InsertFlag(t, id, material, reporter, reason))
  {
    var t' := InsertFlag(t, id, material, reporter, reason);
    assert forall x :: x in t.seen && NoOpenFlag(t, x) ==> NoOpenFlag(t', x);
  }

  lemma ResolveFlagKeeps(t: Tables, id: Id)
    requires TablesOk(t)
    ensures Keeps(t, ResolveFlagRow(t, id)) && NoOpenFlag(ResolveFlagRow(t, id), id)
  {
    var t' := ResolveFlagRow(t, id);
    forall f | f in t'.flags
      ensures exists g :: g in t.flags && g.id == f.id && g.material == f.material && (f.open ==> g.open && f.id != id)
    {
      var k :| 0 <= k < |t'.flags| && t'.flags[k] == f;
      assert t.flags[k] in t.flags;
    }
    assert forall x :: NoOpenFlag(t, x) ==> NoOpenFlag(t', x);
  }

  // ---------------------------------------------------------------------------------------------
  // The steps.

  lemma GotoInv(env: Env, s: State, t: Tables, objects: map<string, bytes>, c: Id, p: Phase)
    requires Inv(env, s) && Keeps(s.tables, t) && ObjectsOk(env, objects) && PhaseOk(t, p)
    ensures Inv(env, State(t, objects, s.clients[c := p]))
  {
    var s' := State(t, objects, s.clients[c := p]);
    hide PhaseOk, TablesOk, ObjectsOk, Advances;
    forall d | d in s'.clients
      ensures PhaseOk(t, s'.clients[d])
    {
      if d != c {
        PhaseStays(s.tables, t, s.clients[d]);
      }
    }
  }

  lemma StayInv(env: Env, s: State, t: Tables)
    requires Inv(env, s) && Keeps(s.tables, t)
    ensures Inv(env, s.(tables := t))
  {
    hide PhaseOk, TablesOk, ObjectsOk, Advances;
    forall d | d in s.clients
      ensures PhaseOk(t, s.clients[d])
    {
      PhaseStays(s.tables, t, s.clients[d]);
    }
  }

  lemma SameKeeps(t: Tables)
    requires TablesOk(t)
    ensures Keeps(t, t)
  {
  }

  lemma StartUploadInv(env: Env, s: State, c: Id, req: Upload)
    requires Inv(env, s)
    ensures Inv(env, ApplyStartUpload(s, c, req))
  {
    SameKeeps(s.tables);
    hide TablesOk, ObjectsOk, Advances, IsPDF;
    if c !in s.clients {
      GotoInv(env, s, s.tables, s.objects, c, ApplyStartUpload(s, c, req).clients[c]);
    }
  }

  lemma CheckExistsInv(env: Env, s: State, c: Id, ok: bool)
    requires Inv(env, s)
    ensures Inv(env, ApplyCheckExists(env, s, c, ok))
  {
    SameKeeps(s.tables);
    hide TablesOk, ObjectsOk, Advances, HashTaken;
    if c in s.clients && s.clients[c].Hashed? {
      GotoInv(env, s, s.tables, s.objects, c, ApplyCheckExists(env, s, c, ok).clients[c]);
    }
  }

  lemma ResolveCourseInv(env: Env, s: State, c: Id, call: Call, newId: Id)
    requires Inv(env, s)
    ensures Inv(env, ApplyResolveCourse(s, c, call, newId))
  {
    SameKeeps(s.tables);
    hide TablesOk, ObjectsOk, Advances;
    if c in s.clients && s.clients[c].Checked? && newId !in s.tables.seen {
      var s', req := ApplyResolveCourse(s, c, call, newId), s.clients[c].req;
      match req.course {
        case Malformed =>
        case ById(id) => SeenKeeps(s.tables, {id});
        case ByName(spec) => FindCourseKeeps(s.tables, spec, newId);
      }
      hide FindCourse;
      GotoInv(env, s, s'.tables, s.objects, c, s'.clients[c]);
    }
  }

  lemma StartRejectInv(env: Env, s: State, c: Id, id: Id)
    requires Inv(env, s)
    ensures Inv(env, ApplyStartReject(s, c, id))
  {
    SeenKeeps(s.tables, {id});
    hide TablesOk, ObjectsOk, Advances;
    if c !in s.clients {
      var s' := ApplyStartReject(s, c, id);
      GotoInv(env, s, s'.tables, s.objects, c, s'.clients[c]);
    }
  }

  lemma StartResolveInv(env: Env, s: State, c: Id, flag: Id, named: Option<Id>)
    requires Inv(env, s)
    ensures Inv(env, ApplyStartResolve(s, c, flag, named))
  {
    SeenKeeps(s.tables, {flag} + if named.Some? then {named.value} else {});
    hide TablesOk, ObjectsOk, Advances;
    if c !in s.clients {
      var s' := ApplyStartResolve(s, c, flag, named);
      GotoInv(env, s, s'.tables, s.objects, c, s'.clients[c]);
    }
  }

  lemma StoreInv(env: Env, s: State, a: Action)
    requires Inv(env, s)
    requires a.PutObject? || a.DropObject? || a.FindKey?
    ensures Inv(env, Apply(env, s, a))
  {
    SameKeeps(s.tables);
    hide TablesOk, Advances;
    var s' := Apply(env, s, a);
    match a {
      case PutObject(c, call) =>
        if c in s.clients && s.clients[c].Placing? {
          assert PhaseOk(s.tables, s.clients[c]);
          GotoInv(env, s, s.tables, s'.objects, c, s'.clients[c]);
        }
      case DropObject(c, call) =>
        if c in s.clients && s.clients[c].Keyed? {
          assert PhaseOk(s.tables, s.clients[c]);
          GotoInv(env, s, s.tables, s'.objects, c, s'.clients[c]);
        }
      case FindKey(c, ok) =>
        if c in s.clients && s.clients[c].Finding? {
          assert PhaseOk(s.tables, s.clients[c]);
          GotoInv(env, s, s.tables, s.objects, c, s'.clients[c]);
        }
    }
  }

  lemma InputOk(env: Env, req: Upload, uploader: Id, course: Id)
    ensures RowOk(RowFor(InputFor(env, req, uploader, course)))
  {
    TextLayer.LayerIffSomethingIsShown(env.read, req.file);
    hide TextLayer.Extract;
  }

  lemma RefusalOrInsertKeeps(env: Env, t: Tables, newId: Id, req: Upload, uploader: Id, course: Id)
    requires TablesOk(t) && newId !in t.seen
    ensures var input := InputFor(env, req, uploader, course);
      Keeps(t, t) && (MayInsert(t, input) ==> Keeps(t, InsertMaterial(t, newId, input)))
  {
    var input := InputFor(env, req, uploader, course);
    InputOk(env, req, uploader, course);
    SameKeeps(t);
    hide InputFor, RowFor, RowOk;
    if MayInsert(t, input) {
      InsertMaterialKeeps(t, newId, input);
    }
  }

  lemma CreateRowInv(env: Env, s: State, c: Id, call: Call, newId: Id)
    requires Inv(env, s)
    ensures Inv(env, ApplyCreateRow(env, s, c, call, newId))
  {
    var s' := ApplyCreateRow(env, s, c, call, newId);
    hide InputFor, TablesOk, Advances, ObjectsOk, MayInsert, InsertMaterial;
    if c in s.clients && s.clients[c].Stored? && newId !in s.tables.seen && s.clients[c].req.claims.Some? {
      var Stored(req, course) := s.clients[c];
      RefusalOrInsertKeeps(env, s.tables, newId, req, req.claims.value, course);
      hide Keeps;
      GotoInv(env, s, s'.tables, s.objects, c, s'.clients[c]);
    }
  }

  lemma DropRowInv(env: Env, s: State, c: Id, call: Call)
    requires Inv(env, s)
    ensures Inv(env, ApplyDropRow(s, c, call))
  {
    var s' := ApplyDropRow(s, c, call);
    if c in s.clients && s.clients[c].Unstored? {
      var Unstored(id, key, why) := s.clients[c];
      assert PhaseOk(s.tables, s.clients[c]);
      DeleteMaterialKeeps(s.tables, id);
      SameKeeps(s.tables);
      hide TablesOk, Advances, ObjectsOk;
      GotoInv(env, s, s'.tables, s.objects, c, s'.clients[c]);
    }
  }

  lemma MarkResolvedInv(env: Env, s: State, c: Id, call: Call)
    requires Inv(env, s)
    ensures Inv(env, ApplyMarkResolved(s, c, call))
  {
    var s' := ApplyMarkResolved(s, c, call);
    if c in s.clients && s.clients[c].Resolving? {
      var Resolving(flag, named, missed) := s.clients[c];
      assert PhaseOk(s.tables, s.clients[c]);
      ResolveFlagKeeps(s.tables, flag);
      SameKeeps(s.tables);
      hide TablesOk, Advances, ObjectsOk, NoOpenFlag;
      GotoInv(env, s, s'.tables, s.objects, c, s'.clients[c]);
    }
  }

  lemma StepInv(env: Env, s: State, a: Action)
    requires Inv(env, s)
    ensures Inv(env, Apply(env, s, a))
  {
    hide Inv, ApplyStartUpload, ApplyCheckExists, ApplyResolveCourse, ApplyStartReject, ApplyStartResolve,
      ApplyCreateRow, ApplyDropRow, ApplyMarkResolved;
    match a {
      case StartUpload(c, req) => StartUploadInv(env, s, c, req);
      case CheckExists(c, ok) => CheckExistsInv(env, s, c, ok);
      case ResolveCourse(c, call, newId) => ResolveCourseInv(env, s, c, call, newId);
      case StartReject(c, id) => StartRejectInv(env, s, c, id);
      case StartResolve(c, flag, named) => StartResolveInv(env, s, c, flag, named);
      case CreateRow(c, call, newId) => CreateRowInv(env, s, c, call, newId);
      case DropRow(c, call) => DropRowInv(env, s, c, call);
      case MarkResolved(c, call) => MarkResolvedInv(env, s, c, call);
      case PutObject(_, _) => StoreInv(env, s, a);
      case DropObject(_, _) => StoreInv(env, s, a);
      case FindKey(_, _) => StoreInv(env, s, a);
      case Approve(id, call) => ApproveInv(env, s, id, call);
      case CreateFlag(newId, material, reporter, reason, call) =>
        CreateFlagInv(env, s, newId, material, reporter, reason, call);
    }
  }

  lemma ApproveInv(env: Env, s: State, id: Id, call: Call)
    requires Inv(env, s)
    ensures Inv(env, ApplyApprove(s, id, call))
  {
    SetApprovedKeeps(s.tables, id);
    hide TablesOk, Advances, ObjectsOk, PhaseOk, SetApproved;
    StayInv(env, s, SetApproved(s.tables, id));
  }

  lemma CreateFlagInv(env: Env, s: State, newId: Id, material: Id, reporter: Id, reason: string, call: Call)
    requires Inv(env, s)
    ensures Inv(env, ApplyCreateFlag(s, newId, material, reporter, reason, call))
  {
    if newId !in s.tables.seen && material in s.tables.materials {
      InsertFlagKeeps(s.tables, newId, material, reporter, reason);
      hide TablesOk, Advances, ObjectsOk, PhaseOk, InsertFlag;
      StayInv(env, s, InsertFlag(s.tables, newId, material, reporter, reason));
    }
  }

  // The invariant holds after every run from the empty state.
  lemma {:induction false} ReachableInv(env: Env, acts: seq<Action>)
    ensures Inv(env, Exec(env, INITIAL, acts))
  {
    hide Apply;
    if acts == [] {
      assert forall x :: NoOpenFlag(EMPTY, x);
    } else {
      ReachableInv(env, acts[..|acts| - 1]);
      hide Inv;
      StepInv(env, Exec(env, INITIAL, acts[..|acts| - 1]), acts[|acts| - 1]);
    }
  }
}
