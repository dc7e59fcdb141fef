// Calling ResolveFlag again after a failure.
module FlagRetries {
  import opened Bytes
  import opened Protocol
  import opened SerialRuns
  import opened Tables

  lemma CascadeCons(f: Flag, rest: seq<Flag>, m: Id)
    ensures Cascade([f] + rest, m) == (if f.material == m then [] else [f]) + Cascade(rest, m)
  {
    assert ([f] + rest)[1..] == rest;
  }

  lemma ClosedCons(f: Flag, rest: seq<Flag>, id: Id)
    ensures Closed([f] + rest, id) == [if f.id == id then f.(open := false) else f] + Closed(rest, id)
  {
    assert ([f] + rest)[1..] == rest;
  }

  lemma ClosedTwice(flags: seq<Flag>, id: Id)
    ensures Closed(Closed(flags, id), id) == Closed(flags, id)
  {
    var once := Closed(flags, id);
    var twice := Closed(once, id);
    assert forall k :: 0 <= k < |once| ==> twice[k] == once[k];
  }

  lemma {:induction false} CascadeClosed(flags: seq<Flag>, m: Id, id: Id)
    ensures Cascade(Closed(flags, id), m) == Closed(Cascade(flags, m), id)
  {
    if flags != [] {
      var f, rest := flags[0], flags[1..];
      CascadeClosed(rest, m, id);
      CascadeCons(if f.id == id then f.(open := false) else f, Closed(rest, id), m);
      assert flags == [f] + rest;
      ClosedCons(f, rest, id);
      CascadeCons(f, rest, m);
      if f.material != m {
        ClosedCons(f, Cascade(rest, m), id);
      } else {
        assert [] + Cascade(rest, m) == Cascade(rest, m);
      }
      hide Cascade, Closed;
    }
  }

  lemma FlagsConverge(flags: seq<Flag>, m: Id, id: Id)
    ensures Closed(Closed(flags, id), id) == Closed(flags, id)
    ensures Closed(Closed(Cascade(flags, m), id), id) == Closed(Cascade(flags, m), id)
    ensures Closed(Cascade(Closed(flags, id), m), id) == Closed(Cascade(flags, m), id)
  {
    ClosedTwice(flags, id);
    ClosedTwice(Cascade(flags, m), id);
    CascadeClosed(flags, m, id);
  }

  lemma SeenAndCoursesCompose(t: Tables, flag: Id, named: Option<Id>, d0: bool, c0: bool, d1: bool, c1: bool)
    ensures var y := ResolveTables(ResolveTables(t, flag, named, d0, c0), flag, named, d1, c1);
      var z := ResolveTables(t, flag, named, d0 || d1, c0 || c1);
      y.seen == z.seen && y.courses == z.courses
  {
    hide Cascade, Closed;
  }

  lemma MaterialsCompose(t: Tables, flag: Id, named: Option<Id>, d0: bool, c0: bool, d1: bool, c1: bool)
    ensures var y := ResolveTables(ResolveTables(t, flag, named, d0, c0), flag, named, d1, c1);
      y.materials == ResolveTables(t, flag, named, d0 || d1, c0 || c1).materials
  {
    MaterialsAfter(t, flag, named, d0, c0);
    MaterialsAfter(ResolveTables(t, flag, named, d0, c0), flag, named, d1, c1);
    MaterialsAfter(t, flag, named, d0 || d1, c0 || c1);
    hide ResolveTables;
  }

  // The flags once an attempt has maybe dropped the row and closed the flag.
  lemma FlagsAfter(t: Tables, flag: Id, named: Option<Id>, dropped: bool, closed: bool)
    ensures var flags := if dropped && There(t, named) then Cascade(t.flags, named.value) else t.flags;
      ResolveTables(t, flag, named, dropped, closed).flags == if closed then Closed(flags, flag) else flags
  {
    hide Cascade, Closed;
  }

  lemma FlagsCompose(t: Tables, flag: Id, named: Option<Id>, d0: bool, c0: bool, d1: bool, c1: bool)
    ensures var y := ResolveTables(ResolveTables(t, flag, named, d0, c0), flag, named, d1, c1);
      y.flags == ResolveTables(t, flag, named, d0 || d1, c0 || c1).flags
  {
    var id := if named.Some? then named.value else 0;
    MaterialsAfter(t, flag, named, d0, c0);
    FlagsAfter(t, flag, named, d0, c0);
    FlagsAfter(ResolveTables(t, flag, named, d0, c0), flag, named, d1, c1);
    FlagsAfter(t, flag, named, d0 || d1, c0 || c1);
    FlagsConverge(t.flags, id, flag);
    CascadeClosed(t.flags, id, flag);
    hide ResolveTables, Cascade, Closed;
  }

  // Two attempts one after the other do what one does that gets as far as either.
  lemma TablesCompose(t: Tables, flag: Id, named: Option<Id>, d0: bool, c0: bool, d1: bool, c1: bool)
    ensures ResolveTables(ResolveTables(t, flag, named, d0, c0), flag, named, d1, c1)
            == ResolveTables(t, flag, named, d0 || d1, c0 || c1)
  {
    hide *;
    SeenAndCoursesCompose(t, flag, named, d0, c0, d1, c1);
    MaterialsCompose(t, flag, named, d0, c0, d1, c1);
    FlagsCompose(t, flag, named, d0, c0, d1, c1);
  }

  lemma MaterialsAfter(t: Tables, flag: Id, named: Option<Id>, dropped: bool, closed: bool)
    ensures ResolveTables(t, flag, named, dropped, closed).materials
            == if named.Some? && dropped then t.materials - {named.value} else t.materials
  {
    hide Cascade, Closed;
  }

  // ---------------------------------------------------------------------------------------------
  // Any number of attempts.

  datatype Attempt = Attempt(c: Id, calls: DeleteCalls, mark: Call)

  function SerialAttempts(s: State, flag: Id, named: Option<Id>, xs: seq<Attempt>): State
    decreases |xs|
  {
    if xs == [] then s
    else SerialAttempts(SerialResolve(s, xs[0].c, flag, named, xs[0].calls, xs[0].mark), flag, named, xs[1..])
  }

  predicate FreshClients(s: State, xs: seq<Attempt>) {
    && (forall i :: 0 <= i < |xs| ==> xs[i].c !in s.clients)
    && forall i, j :: 0 <= i < j < |xs| ==> xs[i].c != xs[j].c
  }

  // The last attempt has been answered 204.
  predicate EndsResolved(s: State, flag: Id, named: Option<Id>, xs: seq<Attempt>) {
    var final := SerialAttempts(s, flag, named, xs);
    && xs != [] && xs[|xs| - 1].c in final.clients && final.clients[xs[|xs| - 1].c].Resolved?
  }

  // An attempt that drops the row if it is there.
  predicate DropsRow(x: Attempt) {
    x.calls.lookupOk && TakesEffect(x.calls.row)
  }

  predicate SomeDropsRow(xs: seq<Attempt>) {
    exists i :: 0 <= i < |xs| && DropsRow(xs[i])
  }

  // Attempt i drops the object, the row being there still for it to look up.
  predicate DropsObject(xs: seq<Attempt>, i: nat)
    requires i < |xs|
  {
    && xs[i].calls.lookupOk && TakesEffect(xs[i].calls.drop)
    && forall j :: 0 <= j < i ==> !DropsRow(xs[j])
  }

  predicate SomeDropsObject(xs: seq<Attempt>) {
    exists i :: 0 <= i < |xs| && DropsObject(xs, i)
  }

  lemma SomeDropsCons(xs: seq<Attempt>)
    requires xs != []
    ensures SomeDropsRow(xs) <==> DropsRow(xs[0]) || SomeDropsRow(xs[1..])
    ensures SomeDropsObject(xs) <==>
      || (xs[0].calls.lookupOk && TakesEffect(xs[0].calls.drop))
      || (!DropsRow(xs[0]) && SomeDropsObject(xs[1..]))
  {
    var rest := xs[1..];
    if i :| 0 <= i < |rest| && DropsRow(rest[i]) {
      assert DropsRow(xs[i + 1]);
    }
    if i :| 0 < i < |xs| && DropsRow(xs[i]) {
      assert rest[i - 1] == xs[i];
    }
    assert xs[0].calls.lookupOk && TakesEffect(xs[0].calls.drop) ==> DropsObject(xs, 0);
    if i :| 0 <= i < |rest| && DropsObject(rest, i) && !DropsRow(xs[0]) {
      assert forall j :: 0 < j < i + 1 ==> xs[j] == rest[j - 1];
      assert DropsObject(xs, i + 1);
    }
    if i :| 0 < i < |xs| && DropsObject(xs, i) {
      assert forall j :: 0 <= j < i - 1 ==> rest[j] == xs[j + 1];
      assert DropsObject(rest, i - 1);
    }
  }

  predicate There(t: Tables, named: Option<Id>) {
    named.Some? && named.value in t.materials
  }

  // An attempt that gets to the flag and closes it.
  predicate ClosesFlag(t: Tables, named: Option<Id>, x: Attempt) {
    TakesEffect(x.mark) && (Found(t, named, x.calls) ==> x.calls.row == Succeeds)
  }

  lemma RestIsFresh(s: State, flag: Id, named: Option<Id>, xs: seq<Attempt>)
    requires xs != [] && FreshClients(s, xs)
    ensures FreshClients(SerialResolve(s, xs[0].c, flag, named, xs[0].calls, xs[0].mark), xs[1..])
  {
    ResolveOutcome(s, xs[0].c, flag, named, xs[0].calls, xs[0].mark);
    hide SerialResolve, ResolveTables, Found;
  }

  lemma OneAttempt(s: State, flag: Id, named: Option<Id>, xs: seq<Attempt>)
    requires |xs| == 1 && FreshClients(s, xs) && EndsResolved(s, flag, named, xs)
    ensures SerialAttempts(s, flag, named, xs)
            == SerialResolve(s, xs[0].c, flag, named, xs[0].calls, xs[0].mark)
    ensures ClosesFlag(s.tables, named, xs[0])
  {
    hide SerialResolve, ResolveTables, Found;
    assert xs[1..] == [];
    ResolveOutcome(s, xs[0].c, flag, named, xs[0].calls, xs[0].mark);
  }

  lemma RestOfAttempts(s: State, flag: Id, named: Option<Id>, xs: seq<Attempt>)
    requires FreshClients(s, xs) && EndsResolved(s, flag, named, xs)
    ensures var s1 := SerialResolve(s, xs[0].c, flag, named, xs[0].calls, xs[0].mark);
      && SerialAttempts(s, flag, named, xs) == SerialAttempts(s1, flag, named, xs[1..])
      && (|xs| > 1 ==> FreshClients(s1, xs[1..]) && EndsResolved(s1, flag, named, xs[1..]))
      && (|xs| == 1 ==> ClosesFlag(s.tables, named, xs[0]) && SerialAttempts(s, flag, named, xs) == s1)
  {
    hide SerialResolve, ResolveTables, Found, FreshClients, ClosesFlag;
    RestIsFresh(s, flag, named, xs);
    if |xs| == 1 {
      OneAttempt(s, flag, named, xs);
    }
  }

  lemma FirstAttempt(s: State, flag: Id, named: Option<Id>, x: Attempt)
    requires x.c !in s.clients
    ensures var s1 := SerialResolve(s, x.c, flag, named, x.calls, x.mark);
      var there := There(s.tables, named);
      && s1.tables == ResolveTables(s.tables, flag, named, there && DropsRow(x), ClosesFlag(s.tables, named, x))
      && s1.tables.materials == (if there && DropsRow(x) then s.tables.materials - {named.value}
                                 else s.tables.materials)
      && s1.objects == if there && x.calls.lookupOk && TakesEffect(x.calls.drop)
                       then s.objects - {s.tables.materials[named.value].fileKey} else s.objects
  {
    ResolveOutcome(s, x.c, flag, named, x.calls, x.mark);
    hide SerialResolve;
    MaterialsAfter(s.tables, flag, named, There(s.tables, named) && DropsRow(x), ClosesFlag(s.tables, named, x));
    hide ResolveTables;
  }

  lemma {:induction false} AttemptsTables(s: State, flag: Id, named: Option<Id>, xs: seq<Attempt>)
    requires FreshClients(s, xs) && EndsResolved(s, flag, named, xs)
    ensures SerialAttempts(s, flag, named, xs).tables
            == ResolveTables(s.tables, flag, named, There(s.tables, named) && SomeDropsRow(xs), true)
    decreases |xs|
  {
    var s1 := SerialResolve(s, xs[0].c, flag, named, xs[0].calls, xs[0].mark);
    var dropped, closed := There(s.tables, named) && DropsRow(xs[0]), ClosesFlag(s.tables, named, xs[0]);
    FirstAttempt(s, flag, named, xs[0]);
    RestOfAttempts(s, flag, named, xs);
    SomeDropsCons(xs);
    hide *;
    if |xs| > 1 {
      AttemptsTables(s1, flag, named, xs[1..]);
      var later := There(s1.tables, named) && SomeDropsRow(xs[1..]);
      TablesCompose(s.tables, flag, named, dropped, closed, later, true);
      ThereAfter(s.tables, s1.tables, named, dropped);
    } else {
      NoneDrops();
      assert xs[1..] == [];
    }
  }

  lemma {:induction false} AttemptsObjects(s: State, flag: Id, named: Option<Id>, xs: seq<Attempt>)
    requires FreshClients(s, xs) && EndsResolved(s, flag, named, xs)
    ensures SerialAttempts(s, flag, named, xs).objects
            == if There(s.tables, named) && SomeDropsObject(xs)
               then s.objects - {s.tables.materials[named.value].fileKey} else s.objects
    decreases |xs|
  {
    var s1 := SerialResolve(s, xs[0].c, flag, named, xs[0].calls, xs[0].mark);
    FirstAttempt(s, flag, named, xs[0]);
    RestOfAttempts(s, flag, named, xs);
    SomeDropsCons(xs);
    hide SerialAttempts, SerialResolve, ResolveTables, SomeDropsRow, SomeDropsObject, FreshClients, EndsResolved,
      ClosesFlag, DropsRow;
    if |xs| > 1 {
      AttemptsObjects(s1, flag, named, xs[1..]);
    } else {
      NoneDrops();
      assert xs[1..] == [];
    }
  }

  lemma ThereAfter(t: Tables, t1: Tables, named: Option<Id>, dropped: bool)
    requires dropped ==> There(t, named)
    requires t1.materials == if dropped then t.materials - {named.value} else t.materials
    ensures There(t1, named) <==> There(t, named) && !dropped
  {
  }

  lemma NoneDrops()
    ensures !SomeDropsRow([]) && !SomeDropsObject([])
  {
  }

  lemma OneCall(s: State, d: Id, flag: Id, named: Option<Id>)
    requires d !in s.clients
    ensures var once := SerialResolve(s, d, flag, named, ALL_WELL, Succeeds);
      && once.tables == ResolveTables(s.tables, flag, named, There(s.tables, named), true)
      && once.objects == if There(s.tables, named) then s.objects - {s.tables.materials[named.value].fileKey}
                         else s.objects
  {
    ResolveOutcome(s, d, flag, named, ALL_WELL, Succeeds);
    hide SerialResolve, ResolveTables;
  }

  // Calling ResolveFlag again until it answers 204 leads to the tables of one undisturbed call if and
  // only if some attempt found the material and got its row dropped, or it was not there to begin
  // with; the object goes if and only if some attempt that still found the row got it dropped.
  lemma RetryConverges(s: State, d: Id, flag: Id, named: Option<Id>, xs: seq<Attempt>)
    requires FreshClients(s, xs) && EndsResolved(s, flag, named, xs) && d !in s.clients
    ensures var final := SerialAttempts(s, flag, named, xs);
      var once := SerialResolve(s, d, flag, named, ALL_WELL, Succeeds);
      && (final.tables == once.tables <==> (There(s.tables, named) ==> SomeDropsRow(xs)))
      && (final.objects == once.objects <==>
            (There(s.tables, named) && s.tables.materials[named.value].fileKey in s.objects ==> SomeDropsObject(xs)))
  {
    var there := There(s.tables, named);
    AttemptsTables(s, flag, named, xs);
    AttemptsObjects(s, flag, named, xs);
    MaterialsAfter(s.tables, flag, named, there, true);
    MaterialsAfter(s.tables, flag, named, there && SomeDropsRow(xs), true);
    OneCall(s, d, flag, named);
    hide SerialResolve, SerialAttempts, ResolveTables, EndsResolved, FreshClients, SomeDropsRow, SomeDropsObject;
  }

  // In particular, however a first attempt went, one undisturbed call afterwards leads to the tables
  // that it would have led to alone. The object stays behind exactly when the first attempt dropped
  // the row but not the object.
  lemma UndisturbedRetryConverges(s: State, c: Id, d: Id, flag: Id, named: Option<Id>, calls: DeleteCalls, mark: Call)
    requires c !in s.clients && d !in s.clients && c != d
    ensures var first := SerialResolve(s, c, flag, named, calls, mark);
      var again := SerialResolve(first, d, flag, named, ALL_WELL, Succeeds);
      var once := SerialResolve(s, d, flag, named, ALL_WELL, Succeeds);
      && d in again.clients && again.clients[d].Resolved?
      && again.tables == once.tables
      && (again.objects != once.objects <==>
            Found(s.tables, named, calls) && TakesEffect(calls.row) && calls.drop == FailsBefore
            && s.tables.materials[named.value].fileKey in s.objects)
  {
    var first := SerialResolve(s, c, flag, named, calls, mark);
    var x, y := Attempt(c, calls, mark), Attempt(d, ALL_WELL, Succeeds);
    ResolveOutcome(s, c, flag, named, calls, mark);
    ResolveOutcome(first, d, flag, named, ALL_WELL, Succeeds);
    hide SerialResolve, ResolveTables, SomeDropsRow, SomeDropsObject;
    SomeDropsCons([x, y]);
    SomeDropsCons([y]);
    NoneDrops();
    assert [x, y][1..] == [y] && [y][1..] == [];
    assert SerialAttempts(s, flag, named, [x, y]) == SerialResolve(first, d, flag, named, ALL_WELL, Succeeds) by {
      assert SerialAttempts(first, flag, named, [y]) == SerialResolve(first, d, flag, named, ALL_WELL, Succeeds);
    }
    hide SerialAttempts;
    RetryConverges(s, d, flag, named, [x, y]);
  }

  // A retry whose lookup fails is answered 204 with the material still there.
  lemma RetryCanMissTheMaterial(s: State, c: Id, d: Id, flag: Id, id: Id)
    requires c !in s.clients && d !in s.clients && c != d && id in s.tables.materials
    ensures var first := SerialResolve(s, c, flag, Some(id), DeleteCalls(true, Succeeds, FailsBefore), Succeeds);
      var again := SerialResolve(first, d, flag, Some(id), DeleteCalls(false, Succeeds, Succeeds), Succeeds);
      && first.clients[c] == Done(ServerError) && again.clients[d].Resolved?
      && id in again.tables.materials && again.tables.materials[id] == s.tables.materials[id]
  {
    var calls := DeleteCalls(true, Succeeds, FailsBefore);
    var first := SerialResolve(s, c, flag, Some(id), calls, Succeeds);
    ResolveOutcome(s, c, flag, Some(id), calls, Succeeds);
    ResolveOutcome(first, d, flag, Some(id), DeleteCalls(false, Succeeds, Succeeds), Succeeds);
    MaterialsAfter(s.tables, flag, Some(id), false, false);
    MaterialsAfter(first.tables, flag, Some(id), false, true);
    hide SerialResolve, ResolveTables;
  }
}
