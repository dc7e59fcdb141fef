// The tables and constraints of the schema, and each repository statement as one atomic transition.
module Tables {
  import opened Bytes

  // A UUID. gen_random_uuid never yields one that has appeared before, as a key or in a request.
  type Id = nat

  datatype CourseSpec = CourseSpec(name: string, branch: string, year: int, semester: int)

  datatype Status = Pending | Approved

  datatype Material = Material(
    uploader: Id, course: Id, kind: string, title: string, fileKey: string, contentHash: string, fileSize: nat,
    hasTextLayer: bool, extractedText: Option<bytes>, status: Status)

  datatype Flag = Flag(id: Id, material: Id, reportedBy: Id, reason: string, open: bool)

  // `flags` is in order of creation; `seen` holds every UUID that has appeared so far.
  datatype Tables = Tables(
    courses: map<CourseSpec, Id>, materials: map<Id, Material>, flags: seq<Flag>, seen: set<Id>)

  const EMPTY: Tables := Tables(map[], map[], [], {})

  datatype CreateInput = CreateInput(
    uploader: Id, course: Id, kind: string, title: string, fileKey: string, contentHash: string, fileSize: nat,
    hasTextLayer: bool, extractedText: bytes)

  predicate HashTaken(t: Tables, hash: string) {
    exists id | id in t.materials :: t.materials[id].contentHash == hash
  }

  predicate ValidKind(kind: string) {
    kind == "notes" || kind == "pyq" || kind == "assignment"
  }

  // The constraints an INSERT into materials must meet: unique content_hash, existing course, type.
  predicate MayInsert(t: Tables, input: CreateInput) {
    !HashTaken(t, input.contentHash) && input.course in t.courses.Values && ValidKind(input.kind)
  }

  function RowFor(input: CreateInput): Material {
    Material(input.uploader, input.course, input.kind, input.title, input.fileKey, input.contentHash, input.fileSize,
             input.hasTextLayer, if input.extractedText == [] then None else Some(input.extractedText), Pending)
  }

  function InsertMaterial(t: Tables, id: Id, input: CreateInput): Tables {
    t.(materials := t.materials[id := RowFor(input)], seen := t.seen + {id})
  }

  // Approving touches no row when there is none with the id.
  function SetApproved(t: Tables, id: Id): Tables {
    if id in t.materials then t.(materials := t.materials[id := t.materials[id].(status := Approved)]) else t
  }

  // A deleted material takes its flags with it.
  function Cascade(flags: seq<Flag>, material: Id): (r: seq<Flag>)
    ensures forall f :: f in r <==> f in flags && f.material != material
  {
    if flags == [] then []
    else
      assert flags == [flags[0]] + flags[1..];
      (if flags[0].material == material then [] else [flags[0]]) + Cascade(flags[1..], material)
  }

  function DeleteMaterial(t: Tables, id: Id): Tables {
    if id in t.materials then t.(materials := t.materials - {id}, flags := Cascade(t.flags, id)) else t
  }

  function FindCourse(t: Tables, spec: CourseSpec, newId: Id): (r: (Tables, Id))
    ensures spec in r.0.courses && r.0.courses[spec] == r.1
  {
    if spec in t.courses then (t, t.courses[spec])
    else (t.(courses := t.courses[spec := newId], seen := t.seen + {newId}), newId)
  }

  function InsertFlag(t: Tables, id: Id, material: Id, reporter: Id, reason: string): Tables {
    t.(flags := t.flags + [Flag(id, material, reporter, reason, true)], seen := t.seen + {id})
  }

  function Closed(flags: seq<Flag>, id: Id): (r: seq<Flag>)
    ensures |r| == |flags|
    ensures forall k :: 0 <= k < |r| ==> r[k] == if flags[k].id == id then flags[k].(open := false) else flags[k]
  {
    if flags == [] then []
    else [if flags[0].id == id then flags[0].(open := false) else flags[0]] + Closed(flags[1..], id)
  }

  function ResolveFlagRow(t: Tables, id: Id): Tables {
    t.(flags := Closed(t.flags, id))
  }

  // ---------------------------------------------------------------------------------------------

  // "materials/" + hash + ".pdf"
  function KeyOf(hash: string): string {
    "materials/" + hash + ".pdf"
  }

  // The literals of the schema and of the key.
  lemma LiteralsOfTheSchema(kind: string, hash: string)
    ensures ValidKind(kind) <==> kind in {"notes", "pyq", "assignment"}
    ensures KeyOf(hash) == "materials/" + hash + ".pdf"
    ensures |KeyOf(hash)| == 10 + |hash| + 4
  {
  }

  lemma KeyOfInjective(x: string, y: string)
    requires KeyOf(x) == KeyOf(y)
    ensures x == y
  {
    assert |KeyOf(x)| == |x| + 14 && |KeyOf(y)| == |y| + 14;
    assert x == KeyOf(x)[10..10 + |x|] && y == KeyOf(y)[10..10 + |y|];
  }
}
