// What rows and flags go through over a whole run.
module ModerationHistory {
  import opened Bytes
  import opened Protocol
  import opened ProtocolInvariant
  import opened Tables

  // A row whose status aside is the same, and an approval not taken back.
  predicate SameRow(m: Material, m': Material) {
    m.(status := Pending) == m'.(status := Pending) && (m.status == Approved ==> m'.status == Approved)
  }

  // What one step may do to the rows: add one that is pending, drop one, approve one.
  ghost predicate RowStep(t: Tables, t': Tables, a: Action) {
    && t.seen <= t'.seen
    && forall id :: id in t'.materials ==>
         || (id !in t.seen && t'.materials[id].status == Pending)
         || (id in t.materials && t'.materials[id] == t.materials[id])
         || (id in t.materials && a.Approve? && a.id == id && TakesEffect(a.call)
             && t'.materials[id] == t.materials[id].(status := Approved))
  }

  lemma StepRows(env: Env, s: State, a: Action)
    ensures RowStep(s.tables, Apply(env, s, a).tables, a)
  {
    hide InputFor, HashTaken, MayInsert, Cascade, Closed;
  }

  // ---------------------------------------------------------------------------------------------

  // A row that is there at two moments is the same row, and has been there in between; it can only
  // have been approved meanwhile.
  lemma {:induction false} RowsAreFrozen(env: Env, acts: seq<Action>, i: nat, j: nat, id: Id)
    requires i <= j <= |acts|
    requires id in After(env, acts, i).tables.materials && id in After(env, acts, j).tables.materials
    ensures SameRow(After(env, acts, i).tables.materials[id], After(env, acts, j).tables.materials[id])
    ensures forall k :: i <= k <= j ==> id in After(env, acts, k).tables.materials
    decreases j
  {
    hide After;
    if i < j {
      RowPersists(env, acts, i, j, id);
      RowsAreFrozen(env, acts, i, j - 1, id);
    }
  }

  lemma {:induction false} SeenGrows(env: Env, acts: seq<Action>, i: nat, j: nat)
    requires i <= j <= |acts|
    ensures After(env, acts, i).tables.seen <= After(env, acts, j).tables.seen
    decreases j
  {
    hide After, Apply;
    if i < j {
      SeenGrows(env, acts, i, j - 1);
      AfterStep(env, acts, j - 1);
      StepRows(env, After(env, acts, j - 1), acts[j - 1]);
    }
  }

  lemma RowPersists(env: Env, acts: seq<Action>, i: nat, j: nat, id: Id)
    requires i < j <= |acts|
    requires id in After(env, acts, i).tables.materials && id in After(env, acts, j).tables.materials
    ensures id in After(env, acts, j - 1).tables.materials
    ensures SameRow(After(env, acts, j - 1).tables.materials[id], After(env, acts, j).tables.materials[id])
  {
    ReachableInv(env, acts[..i]);
    hide Apply, Exec;
    assert id in After(env, acts, i).tables.seen;
    hide After, Inv;
    SeenGrows(env, acts, i, j - 1);
    AfterStep(env, acts, j - 1);
    StepRows(env, After(env, acts, j - 1), acts[j - 1]);
  }

  // The request that approved row `id`, at step k, found it there, and it has been there ever since.
  ghost predicate ApprovedAt(env: Env, acts: seq<Action>, k: nat, id: Id)
    requires k < |acts|
  {
    && acts[k].Approve? && acts[k].id == id && TakesEffect(acts[k].call)
    && forall j :: k <= j <= |acts| ==> id in After(env, acts, j).tables.materials
  }

  // A row is approved only if an Approve of its id took effect after it was created.
  lemma {:induction false} ApprovedOnlyByApproval(env: Env, acts: seq<Action>, id: Id)
    requires id in After(env, acts, |acts|).tables.materials
    requires After(env, acts, |acts|).tables.materials[id].status == Approved
    ensures exists k :: 0 <= k < |acts| && ApprovedAt(env, acts, k, id)
    decreases |acts|
  {
    assert Exec(env, INITIAL, []) == INITIAL;
    if acts != [] {
      var n := |acts| - 1;
      ApprovalStep(env, acts, n, id);
      if acts[n].Approve? && acts[n].id == id && TakesEffect(acts[n].call) {
        hide After;
        assert ApprovedAt(env, acts, n, id);
      } else {
        var init := acts[..n];
        PrefixesAgree(env, acts, n);
        assert After(env, init, n) == After(env, acts, n);
        ApprovedOnlyByApproval(env, init, id);
        var k :| 0 <= k < n && ApprovedAt(env, init, k, id);
        hide After;
        assert ApprovedAt(env, acts, k, id);
      }
    }
  }

  lemma PrefixesAgree(env: Env, acts: seq<Action>, n: nat)
    requires n <= |acts|
    ensures forall j :: 0 <= j <= n ==> After(env, acts[..n], j) == After(env, acts, j)
  {
    forall j | 0 <= j <= n
      ensures After(env, acts[..n], j) == After(env, acts, j)
    {
      assert acts[..n][..j] == acts[..j];
    }
  }

  lemma ApprovalStep(env: Env, acts: seq<Action>, n: nat, id: Id)
    requires n < |acts|
    requires id in After(env, acts, n + 1).tables.materials
    requires After(env, acts, n + 1).tables.materials[id].status == Approved
    ensures id in After(env, acts, n).tables.materials
    ensures After(env, acts, n).tables.materials[id].status == Approved
            || (acts[n].Approve? && acts[n].id == id && TakesEffect(acts[n].call))
  {
    hide After, Apply;
    AfterStep(env, acts, n);
    StepRows(env, After(env, acts, n), acts[n]);
  }

  // What an Approve does: where it takes effect, the row is approved if it is there; nothing else
  // changes.
  lemma ApproveStep(env: Env, s: State, id: Id, call: Call)
    ensures var s' := Apply(env, s, Approve(id, call));
      && s'.objects == s.objects && s'.clients == s.clients
      && s'.tables == s.tables.(materials := s'.tables.materials)
      && s'.tables.materials == if id in s.tables.materials && call != FailsBefore
                                then s.tables.materials[id := s.tables.materials[id].(status := Approved)]
                                else s.tables.materials
  {
  }

  // From an approval that takes effect on, the row is approved at every moment at which it is there.
  lemma ApprovalLasts(env: Env, acts: seq<Action>, k: nat, n: nat, id: Id)
    requires k < n <= |acts| && acts[k].Approve? && acts[k].id == id && TakesEffect(acts[k].call)
    requires id in After(env, acts, k).tables.materials && id in After(env, acts, n).tables.materials
    ensures After(env, acts, n).tables.materials[id].status == Approved
  {
    AfterStep(env, acts, k);
    ApproveStep(env, After(env, acts, k), id, acts[k].call);
    hide After, Apply;
    RowsAreFrozen(env, acts, k + 1, n, id);
  }

  // Step k is an approval of row `id` that finds it there and takes effect.
  predicate Approves(env: Env, acts: seq<Action>, k: nat, id: Id)
    requires k < |acts|
  {
    acts[k] in {Approve(id, Succeeds), Approve(id, FailsAfter)} && id in After(env, acts, k).tables.materials
  }

  // A row is approved if and only if such an approval found it there.
  lemma ApprovedExactlyWhen(env: Env, acts: seq<Action>, id: Id)
    requires id in After(env, acts, |acts|).tables.materials
    ensures After(env, acts, |acts|).tables.materials[id].status == Approved
            <==> exists k :: 0 <= k < |acts| && Approves(env, acts, k, id)
  {
    hide After;
    if After(env, acts, |acts|).tables.materials[id].status == Approved {
      ApprovedOnlyByApproval(env, acts, id);
      var k :| 0 <= k < |acts| && ApprovedAt(env, acts, k, id);
      assert Approves(env, acts, k, id);
    }
    if k :| 0 <= k < |acts| && Approves(env, acts, k, id) {
      ApprovalLasts(env, acts, k, |acts|, id);
    }
  }

  // ---------------------------------------------------------------------------------------------
  // Flags.

  // What a CreateFlag does: where it takes effect on a material that is there, one open flag is
  // appended as reported; nothing else changes but the UUIDs that have appeared.
  lemma CreateFlagStep(env: Env, s: State, newId: Id, material: Id, reporter: Id, reason: string, call: Call)
    requires newId !in s.tables.seen
    ensures var s' := Apply(env, s, CreateFlag(newId, material, reporter, reason, call));
      && s'.objects == s.objects && s'.clients == s.clients
      && s'.tables.materials == s.tables.materials && s'.tables.courses == s.tables.courses
      && s'.tables.flags == s.tables.flags + if material in s.tables.materials && call != FailsBefore
                                             then [Flag(newId, material, reporter, reason, true)] else []
  {
    assert s.tables.flags + [] == s.tables.flags;
  }

  datatype OpenFlag = OpenFlag(id: Id, materialId: Id, materialTitle: string, uploaderId: Id, reason: string)

  // The entry for an open flag, with the material it is on.
  predicate Tells(materials: map<Id, Material>, f: Flag, e: OpenFlag) {
    && f.open && e.id == f.id && e.materialId == f.material && e.reason == f.reason
    && f.material in materials
    && e.materialTitle == materials[f.material].title && e.uploaderId == materials[f.material].uploader
  }

  // The open flags among the first k, each joined with the material it is on; a flag without one is
  // dropped.
  function OpenFlags(t: Tables, k: nat): seq<OpenFlag>
    requires k <= |t.flags|
  {
    if k == 0 then []
    else
      var f := t.flags[k - 1];
      OpenFlags(t, k - 1)
      + if f.open && f.material in t.materials
        then [OpenFlag(f.id, f.material, t.materials[f.material].title, t.materials[f.material].uploader, f.reason)]
        else []
  }

  function OpenIds(flags: seq<Flag>, k: nat): seq<Id>
    requires k <= |flags|
  {
    if k == 0 then [] else OpenIds(flags, k - 1) + if flags[k - 1].open then [flags[k - 1].id] else []
  }

  function Ids(fs: seq<OpenFlag>): seq<Id> {
    seq(|fs|, i requires 0 <= i < |fs| => fs[i].id)
  }

  lemma {:induction false} JoinDropsNothing(t: Tables, k: nat)
    requires k <= |t.flags|
    requires forall f :: f in t.flags ==> f.material in t.materials
    ensures Ids(OpenFlags(t, k)) == OpenIds(t.flags, k)
  {
    if k > 0 {
      JoinDropsNothing(t, k - 1);
      assert t.flags[k - 1] in t.flags;
    }
  }

  // Every entry comes from an open flag and tells that flag's id, material and reason, and the title
  // and the uploader of the material.
  lemma {:induction false} EntriesComeFromFlags(t: Tables, k: nat, e: OpenFlag)
    requires k <= |t.flags| && e in OpenFlags(t, k)
    ensures exists f :: f in t.flags && Tells(t.materials, f, e)
  {
    var f := t.flags[k - 1];
    if e in OpenFlags(t, k - 1) {
      EntriesComeFromFlags(t, k - 1, e);
    } else {
      assert f in t.flags && Tells(t.materials, f, e);
    }
  }

  // And every open flag on a material that is there has such an entry.
  lemma {:induction false} OpenFlagsHaveEntries(t: Tables, k: nat, f: Flag)
    requires k <= |t.flags| && f in t.flags[..k] && f.open && f.material in t.materials
    ensures exists e :: e in OpenFlags(t, k) && Tells(t.materials, f, e)
  {
    if f == t.flags[k - 1] {
      var m := t.materials[f.material];
      var e := OpenFlag(f.id, f.material, m.title, m.uploader, f.reason);
      assert OpenFlags(t, k) == OpenFlags(t, k - 1) + [e];
      assert Tells(t.materials, f, e);
    } else {
      assert t.flags[..k] == t.flags[..k - 1] + [t.flags[k - 1]];
      OpenFlagsHaveEntries(t, k - 1, f);
    }
  }

  // In every run each flag refers to a live material, so the moderation queue lists every open flag,
  // in order of creation: the join drops none.
  lemma {:induction false} EveryOpenFlagIsListed(env: Env, acts: seq<Action>)
    ensures var t := Exec(env, INITIAL, acts).tables;
      && (forall f :: f in t.flags ==> f.material in t.materials)
      && Ids(OpenFlags(t, |t.flags|)) == OpenIds(t.flags, |t.flags|)
  {
    ReachableInv(env, acts);
    hide Exec;
    var t := Exec(env, INITIAL, acts).tables;
    JoinDropsNothing(t, |t.flags|);
  }

  lemma ResolvedStaysResolved(env: Env, acts: seq<Action>, i: nat, c: Id)
    requires i <= |acts|
    requires c in After(env, acts, i).clients && After(env, acts, i).clients[c].Resolved?
    ensures c in After(env, acts, |acts|).clients
    ensures After(env, acts, |acts|).clients[c] == After(env, acts, i).clients[c]
    decreases |acts| - i
  {
    if i < |acts| {
      AfterStep(env, acts, i);
      ClientStep(env, After(env, acts, i), acts[i], c);
      hide After, Apply;
      ResolvedStaysResolved(env, acts, i + 1, c);
    }
  }

  lemma ClientStep(env: Env, s: State, a: Action, c: Id)
    requires c in s.clients && s.clients[c].Resolved?
    ensures c in Apply(env, s, a).clients && Apply(env, s, a).clients[c] == s.clients[c]
  {
    hide InputFor, HashTaken, MayInsert, Cascade, Closed;
  }

  // From the moment ResolveFlag has answered 204 and for the rest of the run, whatever else happens,
  // that flag is not open, and the material it named is gone with all its flags, provided the lookup
  // of the material did not fail.
  lemma ResolvedForGood(env: Env, acts: seq<Action>, i: nat, c: Id)
    requires i <= |acts|
    requires c in After(env, acts, i).clients && After(env, acts, i).clients[c].Resolved?
    ensures var Resolved(flag, named, missed) := After(env, acts, i).clients[c];
      var t := After(env, acts, |acts|).tables;
      && NoOpenFlag(t, flag)
      && (named.Some? && !missed ==>
            named.value !in t.materials && forall f :: f in t.flags ==> f.material != named.value)
  {
    ResolvedStaysResolved(env, acts, i, c);
    assert acts[..|acts|] == acts;
    ReachableInv(env, acts);
    hide Exec;
    var s := After(env, acts, |acts|);
    assert PhaseOk(s.tables, s.clients[c]);
  }
}
