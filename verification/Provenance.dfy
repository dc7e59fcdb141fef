// Where the rows and the open flags of a run come from.
module Provenance {
  import opened Bytes
  import opened ModerationHistory
  import opened Protocol
  import opened ProtocolInvariant
  import opened Tables

  // ---------------------------------------------------------------------------------------------
  // Rows.

  predicate IsUploading(p: Phase) {
    p.Hashed? || p.Checked? || p.Placing? || p.Stored?
  }

  // Request c was started as upload `req` within the first n steps.
  ghost predicate Requested(acts: seq<Action>, n: nat, c: Id, req: Upload)
    requires n <= |acts|
  {
    exists k :: 0 <= k < n && acts[k] == StartUpload(c, req)
  }

  lemma UploadStep(env: Env, s: State, a: Action, c: Id)
    requires var s' := Apply(env, s, a); c in s'.clients && IsUploading(s'.clients[c])
    ensures var s' := Apply(env, s, a);
      || a == StartUpload(c, s'.clients[c].req)
      || (c in s.clients && IsUploading(s.clients[c]) && s.clients[c].req == s'.clients[c].req)
  {
    hide InputFor, HashTaken, MayInsert, Cascade, Closed, KeyFor, FindCourse;
  }

  lemma {:induction false} UploadsWereRequested(env: Env, acts: seq<Action>, n: nat, c: Id)
    requires n <= |acts|
    requires c in After(env, acts, n).clients && IsUploading(After(env, acts, n).clients[c])
    ensures Requested(acts, n, c, After(env, acts, n).clients[c].req)
  {
    if n == 0 {
      AfterNothing(env, acts);
    } else {
      AfterStep(env, acts, n - 1);
      UploadStep(env, After(env, acts, n - 1), acts[n - 1], c);
      hide After, Apply;
      if acts[n - 1] != StartUpload(c, After(env, acts, n).clients[c].req) {
        UploadsWereRequested(env, acts, n - 1, c);
      }
    }
  }

  // A row after a step is the row before it, status aside, or that of an upload that inserts it.
  lemma RowStepTells(env: Env, s: State, a: Action, id: Id)
    requires id in Apply(env, s, a).tables.materials
    ensures var m := Apply(env, s, a).tables.materials[id];
      || (id in s.tables.materials && m.(status := Pending) == s.tables.materials[id].(status := Pending))
      || (a.CreateRow? && a.c in s.clients && s.clients[a.c].Stored? && RowTells(env, s.clients[a.c].req, m))
  {
    if a.CreateRow? {
      if a.c in s.clients && s.clients[a.c].Stored? && s.clients[a.c].req.claims.Some? {
        InsertedRowTells(env, s.tables, a.newId, s.clients[a.c].req, s.clients[a.c].course);
      }
      hide InputFor, MayInsert, RowFor, RowTells;
    } else {
      OtherRows(env, s, a, id);
      hide Apply;
    }
  }

  lemma OtherRows(env: Env, s: State, a: Action, id: Id)
    requires !a.CreateRow? && id in Apply(env, s, a).tables.materials
    ensures id in s.tables.materials
    ensures Apply(env, s, a).tables.materials[id].(status := Pending) == s.tables.materials[id].(status := Pending)
  {
    hide HashTaken, Cascade, Closed, KeyFor;
  }

  // Some upload asked for a row like m within the first n steps.
  ghost predicate AskedFor(env: Env, acts: seq<Action>, n: nat, m: Material)
    requires n <= |acts|
  {
    exists c, req :: Requested(acts, n, c, req) && RowTells(env, req, m)
  }

  lemma AskedForLater(env: Env, acts: seq<Action>, n: nat, m: Material, m': Material)
    requires n < |acts| && AskedFor(env, acts, n, m) && m.(status := Pending) == m'.(status := Pending)
    ensures AskedFor(env, acts, n + 1, m')
  {
    var c, req :| Requested(acts, n, c, req) && RowTells(env, req, m);
    assert Requested(acts, n + 1, c, req) && RowTells(env, req, m') by {
      hide TextLayer.Extract;
    }
  }

  // In every run every row tells what some upload asked for, with the text of that upload's file.
  lemma {:induction false} EveryRowTellsAnUpload(env: Env, acts: seq<Action>, n: nat, id: Id)
    requires n <= |acts| && id in After(env, acts, n).tables.materials
    ensures AskedFor(env, acts, n, After(env, acts, n).tables.materials[id])
  {
    if n == 0 {
      AfterNothing(env, acts);
    } else {
      var s, a := After(env, acts, n - 1), acts[n - 1];
      var m := After(env, acts, n).tables.materials[id];
      AfterStep(env, acts, n - 1);
      RowStepTells(env, s, a, id);
      hide After, Apply, RowTells;
      if id in s.tables.materials && m.(status := Pending) == s.tables.materials[id].(status := Pending) {
        EveryRowTellsAnUpload(env, acts, n - 1, id);
        AskedForLater(env, acts, n - 1, s.tables.materials[id], m);
      } else {
        UploadsWereRequested(env, acts, n - 1, a.c);
        assert Requested(acts, n, a.c, s.clients[a.c].req);
      }
    }
  }

  // ---------------------------------------------------------------------------------------------
  // Open flags.

  // The step reports flag f on a material that is there, and takes effect.
  predicate Reports(s: State, a: Action, f: Flag) {
    && a in {CreateFlag(f.id, f.material, f.reportedBy, f.reason, Succeeds),
             CreateFlag(f.id, f.material, f.reportedBy, f.reason, FailsAfter)}
    && f.id !in s.tables.seen && f.material in s.tables.materials
  }

  // The step closes the flag.
  predicate Closes(s: State, a: Action, flag: Id) {
    && a.MarkResolved? && TakesEffect(a.call)
    && a.c in s.clients && s.clients[a.c].Resolving? && s.clients[a.c].flag == flag
  }

  // A step of any other kind leaves the flags alone.
  lemma OtherSteps(env: Env, s: State, a: Action)
    requires !a.CreateFlag? && !a.MarkResolved? && !a.DropRow?
    ensures Apply(env, s, a).tables.flags == s.tables.flags
  {
    hide InputFor, HashTaken, MayInsert, KeyFor;
  }

  lemma FlagsAfterStep(env: Env, s: State, a: Action, f: Flag)
    requires f.open
    ensures var s' := Apply(env, s, a);
      f.material in s'.tables.materials ==>
        (f in s'.tables.flags <==> (f in s.tables.flags && !Closes(s, a, f.id)) || Reports(s, a, f))
  {
    match a {
      case CreateFlag(newId, material, reporter, reason, call) =>
        assert f in s.tables.flags + [Flag(newId, material, reporter, reason, true)]
               <==> f in s.tables.flags || f == Flag(newId, material, reporter, reason, true);
      case MarkResolved(c, call) =>
        if c in s.clients && s.clients[c].Resolving? {
          ClosedKeeps(s.tables.flags, s.clients[c].flag, f);
        }
        hide Closed;
      case DropRow(c, call) =>
        hide Cascade;
      case _ =>
        OtherSteps(env, s, a);
        hide Apply;
    }
  }

  lemma ClosedKeeps(flags: seq<Flag>, id: Id, f: Flag)
    requires f.open
    ensures f in Closed(flags, id) <==> f in flags && f.id != id
  {
    var r := Closed(flags, id);
    if f in r {
      var k :| 0 <= k < |r| && r[k] == f;
      assert flags[k] == f;
    }
    if f in flags && f.id != id {
      var k :| 0 <= k < |flags| && flags[k] == f;
      assert r[k] == f;
    }
  }

  // Flag f was reported at some step before n and not closed since.
  ghost predicate StandsReported(env: Env, acts: seq<Action>, n: nat, f: Flag)
    requires n <= |acts|
  {
    exists k :: 0 <= k < n && Reports(After(env, acts, k), acts[k], f)
                && forall j :: k < j < n ==> !Closes(After(env, acts, j), acts[j], f.id)
  }

  lemma StandsStep(env: Env, acts: seq<Action>, n: nat, f: Flag)
    requires n < |acts|
    ensures StandsReported(env, acts, n + 1, f)
            <==> (StandsReported(env, acts, n, f) && !Closes(After(env, acts, n), acts[n], f.id))
                 || Reports(After(env, acts, n), acts[n], f)
  {
    hide After, Closes, Reports;
  }

  lemma FlagsLive(env: Env, s: State, f: Flag)
    requires Inv(env, s) && f in s.tables.flags
    ensures f.material in s.tables.materials
  {
  }

  // In every run, on a material that is there: a flag is open if and only if it has been reported so
  // and not closed since.
  lemma {:induction false} OpenExactlyWhen(env: Env, acts: seq<Action>, n: nat, f: Flag)
    requires n <= |acts| && f.open && f.material in After(env, acts, n).tables.materials
    ensures f in After(env, acts, n).tables.flags <==> StandsReported(env, acts, n, f)
  {
    if n == 0 {
      AfterNothing(env, acts);
    } else {
      var s := After(env, acts, n - 1);
      ReachableInv(env, acts[..n - 1]);
      assert Inv(env, s);
      AfterStep(env, acts, n - 1);
      FlagsAfterStep(env, s, acts[n - 1], f);
      StandsStep(env, acts, n - 1, f);
      if f in s.tables.flags {
        FlagsLive(env, s, f);
      }
      hide After, Apply, Inv, Closes, Reports, StandsReported;
      if f.material in s.tables.materials {
        OpenExactlyWhen(env, acts, n - 1, f);
      } else if StandsReported(env, acts, n - 1, f) {
        ReportedWasThere(env, acts, n - 1, f);
        assert false;
      }
    }
  }

  lemma ReportedWasThere(env: Env, acts: seq<Action>, n: nat, f: Flag)
    requires n < |acts| && StandsReported(env, acts, n, f)
    requires f.material in After(env, acts, n + 1).tables.materials
    ensures f.material in After(env, acts, n).tables.materials
  {
    var k :| 0 <= k < n && Reports(After(env, acts, k), acts[k], f);
    hide After;
    RowsAreFrozen(env, acts, k, n + 1, f.material);
  }
}
