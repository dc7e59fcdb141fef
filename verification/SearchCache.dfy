// The search cache: searches that read and write it through, table changes, a clock, evictions and
// corrupted entries, in any order. Every call to Redis or the database is one step.
module SearchCache {
  import opened Bytes
  import opened QueryKey

  const TTL: nat := 120_000    // two minutes, in milliseconds
  const RESULT_CAP: nat := 50

  datatype Result = Result(id: Uuid, title: bytes, kind: bytes, course: bytes, hasTextLayer: bool, rank: real)

  type Results = seq<Result>

  // `matches` gives the rows that match a query in descending order of rank, or None where the
  // database refuses the statement; `marshal` and `unmarshal` are the codec of cached values.
  datatype Env<!T> = Env(
    sha: bytes -> bytes,
    caching: bool,
    matches: (T, Query) -> Option<Results>,
    marshal: Results -> Option<bytes>,
    unmarshal: bytes -> Option<Results>)

  ghost predicate EnvOk<T>(env: Env<T>) {
    && Injective(env.sha)
    && forall r :: env.marshal(r).Some? ==> env.unmarshal(env.marshal(r).value) == Some(r)
  }

  // The answer that does without the cache: the best-ranked matches, as many as the cap allows.
  function Direct<T>(env: Env<T>, t: T, q: Query): (r: Option<Results>)
    ensures r.Some? <==> env.matches(t, q).Some?
    ensures r.Some? ==> r.value <= env.matches(t, q).value && |r.value| <= RESULT_CAP
    ensures r.Some? && |r.value| < RESULT_CAP ==> r == env.matches(t, q)
  {
    var m := env.matches(t, q);
    if m.Some? && |m.value| > RESULT_CAP then Some(m.value[..RESULT_CAP]) else m
  }

  datatype Version<T> = Version(table: T, since: nat)

  datatype Stored = Stored(value: bytes, expires: nat)

  // What a search that went to the database read, when it read it, and when it wrote it through.
  datatype Reading = Reading(query: Query, version: nat, rows: Results, readAt: nat, writtenAt: nat)

  datatype Phase =
    | Asked(q: Query)
    | Missed(q: Query)
    | Fetched(q: Query, version: nat, rows: Results, readAt: nat)
    | Answered(q: Query, rows: Results, at: nat, hit: bool)
    | Failed(q: Query)

  // `history` holds every version of the tables, `journal` every reading; no step looks at either,
  // except that the database reads the last version.
  datatype State<T> = State(
    now: nat, history: seq<Version<T>>, cache: map<bytes, Stored>, journal: seq<Reading>, clients: map<nat, Phase>)

  datatype Action<T> =
    | Ask(c: nat, q: Query)
    | Lookup(c: nat, ok: bool)
    | Fetch(c: nat, ok: bool)
    | Store(c: nat, ok: bool)
    | Change(table: T)
    | Tick(d: nat)
    | Evict(key: bytes)
    | Corrupt(key: bytes, entry: Stored)

  function Start<T>(t: T): State<T> {
    State(0, [Version(t, 0)], map[], [], map[])
  }

  // What Redis and the decoder make of a key at some time.
  function Cached<T>(env: Env<T>, cache: map<bytes, Stored>, now: nat, q: Query): Option<Results> {
    var key := CacheKey(env.sha, q);
    if env.caching && key in cache && now < cache[key].expires then env.unmarshal(cache[key].value) else None
  }

  function WriteThrough<T>(env: Env<T>, cache: map<bytes, Stored>, now: nat, q: Query, rows: Results)
    : map<bytes, Stored>
  {
    var data := env.marshal(rows);
    if env.caching && data.Some? then cache[CacheKey(env.sha, q) := Stored(data.value, now + TTL)] else cache
  }

  function Goto<T>(s: State<T>, c: nat, p: Phase): State<T> {
    s.(clients := s.clients[c := p])
  }

  function ApplyLookup<T>(env: Env<T>, s: State<T>, c: nat, ok: bool): State<T> {
    if c in s.clients && s.clients[c].Asked? then
      var q := s.clients[c].q;
      var r := Cached(env, s.cache, s.now, q);
      Goto(s, c, if ok && r.Some? then Answered(q, r.value, s.now, true) else Missed(q))
    else s
  }

  function ApplyFetch<T>(env: Env<T>, s: State<T>, c: nat, ok: bool): State<T>
    requires s.history != []
  {
    if c in s.clients && s.clients[c].Missed? then
      var q, v := s.clients[c].q, |s.history| - 1;
      var r := Direct(env, s.history[v].table, q);
      Goto(s, c, if ok && r.Some? then Fetched(q, v, r.value, s.now) else Failed(q))
    else s
  }

  function ApplyStore<T>(env: Env<T>, s: State<T>, c: nat, ok: bool): State<T> {
    if c in s.clients && s.clients[c].Fetched? then
      var p := s.clients[c];
      s.(cache := if ok then WriteThrough(env, s.cache, s.now, p.q, p.rows) else s.cache,
         journal := s.journal + [Reading(p.q, p.version, p.rows, p.readAt, s.now)],
         clients := s.clients[c := Answered(p.q, p.rows, s.now, false)])
    else s
  }

  // A corrupted entry is one that does not decode.
  function Apply<T>(env: Env<T>, s: State<T>, a: Action<T>): (s': State<T>)
    requires s.history != []
    ensures s'.history != []
  {
    match a
    case Ask(c, q) => if c in s.clients then s else Goto(s, c, Asked(q))
    case Lookup(c, ok) => ApplyLookup(env, s, c, ok)
    case Fetch(c, ok) => ApplyFetch(env, s, c, ok)
    case Store(c, ok) => ApplyStore(env, s, c, ok)
    case Change(t) => s.(history := s.history + [Version(t, s.now)])
    case Tick(d) => s.(now := s.now + d)
    case Evict(key) => s.(cache := s.cache - {key})
    case Corrupt(key, entry) =>
      if env.unmarshal(entry.value).None? then s.(cache := s.cache[key := entry]) else s
  }

  function Exec<T>(env: Env<T>, s: State<T>, actions: seq<Action<T>>): (s': State<T>)
    requires s.history != []
    ensures s'.history != []
    decreases |actions|
  {
    if actions == [] then s else Exec(env, Apply(env, s, actions[0]), actions[1..])
  }

  // ---------------------------------------------------------------------------------------------
  // The invariant.

  // Version v was the present one at time r.
  predicate Current<T>(s: State<T>, v: nat, r: nat) {
    && v < |s.history|
    && s.history[v].since <= r
    && (v + 1 < |s.history| ==> r <= s.history[v + 1].since)
  }

  predicate ReadFrom<T>(env: Env<T>, s: State<T>, q: Query, version: nat, rows: Results, readAt: nat) {
    && readAt <= s.now
    && Current(s, version, readAt)
    && Direct(env, s.history[version].table, q) == Some(rows)
  }

  predicate ReadingOk<T>(env: Env<T>, s: State<T>, w: Reading) {
    && ReadFrom(env, s, w.query, w.version, w.rows, w.readAt)
    && w.readAt <= w.writtenAt <= s.now
  }

  // Reading w explains an answer to q: it was made for q itself, or it was written through less
  // than the time to live earlier, for a query with the same key.
  predicate Explains(w: Reading, q: Query, rows: Results, at: nat, hit: bool) {
    && w.rows == rows
    && (!hit ==> w.query == q && w.writtenAt == at)
    && (hit ==> Show(w.query) == Show(q) && w.writtenAt <= at < w.writtenAt + TTL)
  }

  predicate Backs<T>(env: Env<T>, w: Reading, key: bytes, entry: Stored) {
    && CacheKey(env.sha, w.query) == key
    && env.unmarshal(entry.value) == Some(w.rows)
    && entry.expires == w.writtenAt + TTL
  }

  ghost predicate EntryOk<T>(env: Env<T>, s: State<T>, key: bytes, entry: Stored) {
    env.unmarshal(entry.value).Some? ==> exists w :: w in s.journal && Backs(env, w, key, entry)
  }

  ghost predicate PhaseOk<T>(env: Env<T>, s: State<T>, p: Phase) {
    match p
    case Fetched(q, version, rows, readAt) => ReadFrom(env, s, q, version, rows, readAt)
    case Answered(q, rows, at, hit) => exists w :: w in s.journal && Explains(w, q, rows, at, hit)
    case _ => true
  }

  predicate HistoryOk<T>(s: State<T>) {
    && s.history != []
    && (forall v :: 0 <= v < |s.history| ==> s.history[v].since <= s.now)
    && (forall u, v :: 0 <= u <= v < |s.history| ==> s.history[u].since <= s.history[v].since)
  }

  ghost predicate Inv<T>(env: Env<T>, s: State<T>) {
    && HistoryOk(s)
    && (forall w :: w in s.journal ==> ReadingOk(env, s, w))
    && (forall key :: key in s.cache ==> EntryOk(env, s, key, s.cache[key]))
    && (forall c :: c in s.clients ==> PhaseOk(env, s, s.clients[c]))
  }

  // Time passes, the tables change and readings are added; nothing recorded is altered.
  ghost predicate Advances<T>(s: State<T>, s': State<T>) {
    && s.now <= s'.now
    && |s.history| <= |s'.history|
    && (forall v :: 0 <= v < |s.history| ==> s'.history[v] == s.history[v])
    && (forall v :: |s.history| <= v < |s'.history| ==> s.now <= s'.history[v].since)
    && (forall w :: w in s.journal ==> w in s'.journal)
  }

  lemma ReadFromKept<T>(env: Env<T>, s: State<T>, s': State<T>, q: Query, version: nat, rows: Results, readAt: nat)
    requires Advances(s, s') && ReadFrom(env, s, q, version, rows, readAt)
    ensures ReadFrom(env, s', q, version, rows, readAt)
  {
  }

  lemma ReadingKept<T>(env: Env<T>, s: State<T>, s': State<T>, w: Reading)
    requires Advances(s, s') && ReadingOk(env, s, w)
    ensures ReadingOk(env, s', w)
  {
    ReadFromKept(env, s, s', w.query, w.version, w.rows, w.readAt);
  }

  lemma EntryKept<T>(env: Env<T>, s: State<T>, s': State<T>, key: bytes, entry: Stored)
    requires Advances(s, s') && EntryOk(env, s, key, entry)
    ensures EntryOk(env, s', key, entry)
  {
  }

  lemma PhaseKept<T>(env: Env<T>, s: State<T>, s': State<T>, p: Phase)
    requires Advances(s, s') && PhaseOk(env, s, p)
    ensures PhaseOk(env, s', p)
  {
    if p.Fetched? {
      ReadFromKept(env, s, s', p.q, p.version, p.rows, p.readAt);
    }
  }

  // What a step has to establish anew: its own client, and whatever it adds to cache and journal.
  lemma InvByStep<T>(env: Env<T>, s: State<T>, s': State<T>)
    requires Inv(env, s) && Advances(s, s') && HistoryOk(s')
    requires forall w :: w in s'.journal ==> w in s.journal || ReadingOk(env, s', w)
    requires forall key :: key in s'.cache ==>
               (key in s.cache && s'.cache[key] == s.cache[key]) || EntryOk(env, s', key, s'.cache[key])
    requires forall c :: c in s'.clients ==>
               (c in s.clients && s'.clients[c] == s.clients[c]) || PhaseOk(env, s', s'.clients[c])
    ensures Inv(env, s')
  {
    forall w | w in s'.journal
      ensures ReadingOk(env, s', w)
    {
      if w in s.journal {
        ReadingKept(env, s, s', w);
      }
    }
    forall key | key in s'.cache
      ensures EntryOk(env, s', key, s'.cache[key])
    {
      if key in s.cache && s'.cache[key] == s.cache[key] {
        EntryKept(env, s, s', key, s.cache[key]);
      }
    }
    forall c | c in s'.clients
      ensures PhaseOk(env, s', s'.clients[c])
    {
      if c in s.clients && s'.clients[c] == s.clients[c] {
        PhaseKept(env, s, s', s.clients[c]);
      }
    }
  }

  // A hit is backed by a reading for a query with the same key, written less than the TTL earlier.
  lemma HitIsExplained<T>(env: Env<T>, s: State<T>, q: Query)
    requires EnvOk(env) && Inv(env, s) && Cached(env, s.cache, s.now, q).Some?
    ensures PhaseOk(env, s, Answered(q, Cached(env, s.cache, s.now, q).value, s.now, true))
  {
    var key := CacheKey(env.sha, q);
    assert EntryOk(env, s, key, s.cache[key]);
    var w :| w in s.journal && Backs(env, w, key, s.cache[key]);
    assert ReadingOk(env, s, w);
    SameKeyExactlyWhen(env.sha, w.query, q);
    assert Explains(w, q, w.rows, s.now, true);
  }

  lemma LookupKeeps<T>(env: Env<T>, s: State<T>, c: nat, ok: bool)
    requires EnvOk(env) && Inv(env, s)
    ensures Inv(env, ApplyLookup(env, s, c, ok))
  {
    var s' := ApplyLookup(env, s, c, ok);
    hide CacheKey, EnvOk, ReadingOk, EntryOk;
    if c in s.clients && s.clients[c].Asked? && s'.clients[c].Answered? {
      HitIsExplained(env, s, s.clients[c].q);
      PhaseKept(env, s, s', s'.clients[c]);
    }
    InvByStep(env, s, s');
  }

  lemma StoreKeeps<T>(env: Env<T>, s: State<T>, c: nat, ok: bool)
    requires EnvOk(env) && Inv(env, s)
    ensures Inv(env, ApplyStore(env, s, c, ok))
  {
    if c in s.clients && s.clients[c].Fetched? {
      FetchedIsStored(env, s, c, ok);
    }
  }

  lemma FetchedIsStored<T>(env: Env<T>, s: State<T>, c: nat, ok: bool)
    requires EnvOk(env) && Inv(env, s)
    requires c in s.clients && s.clients[c].Fetched?
    ensures Inv(env, ApplyStore(env, s, c, ok))
  {
    var p, s' := s.clients[c], ApplyStore(env, s, c, ok);
    var w := Reading(p.q, p.version, p.rows, p.readAt, s.now);
    assert w in s'.journal;
    assert Advances(s, s');
    assert PhaseOk(env, s, p);
    ReadFromKept(env, s, s', p.q, p.version, p.rows, p.readAt);
    assert ReadingOk(env, s', w);
    assert Explains(w, p.q, p.rows, s.now, false);
    assert PhaseOk(env, s', s'.clients[c]);
    var key := CacheKey(env.sha, p.q);
    if ok && env.caching && env.marshal(p.rows).Some? {
      assert Backs(env, w, key, s'.cache[key]);
      assert EntryOk(env, s', key, s'.cache[key]);
    }
    InvByStep(env, s, s');
  }

  lemma AskOrFetchKeeps<T>(env: Env<T>, s: State<T>, a: Action<T>)
    requires Inv(env, s) && (a.Ask? || a.Fetch?)
    ensures Inv(env, Apply(env, s, a))
  {
    hide ReadingOk, EntryOk, Direct;
    InvByStep(env, s, Apply(env, s, a));
  }

  lemma OutsideKeeps<T>(env: Env<T>, s: State<T>, a: Action<T>)
    requires Inv(env, s) && (a.Change? || a.Tick? || a.Evict? || a.Corrupt?)
    ensures Inv(env, Apply(env, s, a))
  {
    hide ReadingOk, PhaseOk, Backs;
    InvByStep(env, s, Apply(env, s, a));
  }

  lemma StepInv<T>(env: Env<T>, s: State<T>, a: Action<T>)
    requires EnvOk(env) && Inv(env, s)
    ensures Inv(env, Apply(env, s, a))
  {
    hide Inv, EnvOk;
    match a
    case Ask(_, _) => AskOrFetchKeeps(env, s, a);
    case Fetch(_, _) => AskOrFetchKeeps(env, s, a);
    case Lookup(c, ok) => LookupKeeps(env, s, c, ok);
    case Store(c, ok) => StoreKeeps(env, s, c, ok);
    case _ => OutsideKeeps(env, s, a);
  }

  lemma {:induction false} RunInv<T>(env: Env<T>, s: State<T>, actions: seq<Action<T>>)
    requires EnvOk(env) && Inv(env, s)
    ensures Inv(env, Exec(env, s, actions))
    decreases |actions|
  {
    if actions != [] {
      StepInv(env, s, actions[0]);
      RunInv(env, Apply(env, s, actions[0]), actions[1..]);
    }
  }

  // ---------------------------------------------------------------------------------------------
  // What every answer means.

  // In every run each answer is the direct answer, on the tables as they were at one instant, to a
  // query that differs at most in malformed bytes; a hit was written through less than two minutes
  // before it was answered.
  lemma CacheAgreement<T>(env: Env<T>, t: T, actions: seq<Action<T>>, c: nat) returns (w: Reading)
    requires EnvOk(env)
    requires var s := Exec(env, Start(t), actions); c in s.clients && s.clients[c].Answered?
    ensures var s := Exec(env, Start(t), actions);
      var p := s.clients[c];
      && w in s.journal && Explains(w, p.q, p.rows, p.at, p.hit)
      && Current(s, w.version, w.readAt) && w.readAt <= w.writtenAt <= p.at
      && Direct(env, s.history[w.version].table, w.query) == Some(p.rows)
      && (ValidQuery(p.q) ==> w.query == p.q)
      && (p.hit ==> p.at < w.writtenAt + 2 * 60 * 1000) && |p.rows| <= 50
  {
    RunInv(env, Start(t), actions);
    var s := Exec(env, Start(t), actions);
    var p := s.clients[c];
    assert PhaseOk(env, s, p);
    w :| w in s.journal && Explains(w, p.q, p.rows, p.at, p.hit);
    assert ReadingOk(env, s, w);
    if ValidQuery(p.q) {
      SameKeyExactlyWhen(env.sha, p.q, w.query);
      ValidQueryOwnsItsKey(env.sha, p.q, w.query);
    }
  }

  // A database that accepts well-formed text only, as one with UTF-8 encoding does.
  ghost predicate RefusesMalformed<T(!new)>(env: Env<T>) {
    forall t: T, q: Query :: env.matches(t, q).Some? ==> ValidQuery(q)
  }

  // Over such a database every answer is the direct answer to the very query that was asked, on the
  // tables as they were at one instant, and a hit was written through less than two minutes before.
  lemma AgreementForEveryQuery<T(!new)>(env: Env<T>, t: T, actions: seq<Action<T>>, c: nat) returns (w: Reading)
    requires EnvOk(env) && RefusesMalformed(env)
    requires var s := Exec(env, Start(t), actions); c in s.clients && s.clients[c].Answered?
    ensures var s := Exec(env, Start(t), actions);
      var p := s.clients[c];
      && ValidQuery(p.q) && w.query == p.q
      && w in s.journal && Explains(w, p.q, p.rows, p.at, p.hit)
      && Current(s, w.version, w.readAt) && w.readAt <= w.writtenAt <= p.at
      && Direct(env, s.history[w.version].table, p.q) == Some(p.rows)
      && (p.hit ==> p.at < w.writtenAt + 2 * 60 * 1000) && |p.rows| <= 50
  {
    w := CacheAgreement(env, t, actions, c);
    var s := Exec(env, Start(t), actions);
    var p := s.clients[c];
    assert ValidQuery(w.query);
    SameKeyExactlyWhen(env.sha, w.query, p.q);
    ValidQueryOwnsItsKey(env.sha, w.query, p.q);
  }

  // No search takes longer than d between reading the tables and writing the result through.
  predicate Prompt<T>(s: State<T>, d: nat) {
    forall w :: w in s.journal ==> w.writtenAt <= w.readAt + d
  }

  predicate Lists(rows: Results, id: Uuid) {
    exists k :: 0 <= k < |rows| && rows[k].id == id
  }

  // No version from v on answers the query with this material.
  predicate GoneSince<T>(env: Env<T>, s: State<T>, q: Query, id: Uuid, v: nat) {
    forall k :: v <= k < |s.history| ==>
      var r := Direct(env, s.history[k].table, q);
      r.Some? ==> !Lists(r.value, id)
  }

  lemma ReadBeforeChange<T>(s: State<T>, version: nat, readAt: nat, v: nat)
    requires HistoryOk(s) && Current(s, version, readAt) && version < v < |s.history|
    ensures readAt <= s.history[v].since
  {
    assert s.history[version + 1].since <= s.history[v].since;
  }

  // A material that left the results for good is out of every answer given two minutes, and the
  // slowest search, after the change.
  lemma GoneAfterTtl<T>(env: Env<T>, t: T, actions: seq<Action<T>>, c: nat, id: Uuid, v: nat, d: nat)
    requires EnvOk(env)
    requires var s := Exec(env, Start(t), actions);
      && c in s.clients && s.clients[c].Answered? && ValidQuery(s.clients[c].q)
      && Prompt(s, d) && 0 < v < |s.history| && GoneSince(env, s, s.clients[c].q, id, v)
      && s.history[v].since + TTL + d <= s.clients[c].at
    ensures !Lists(Exec(env, Start(t), actions).clients[c].rows, id)
  {
    var w := CacheAgreement(env, t, actions, c);
    RunInv(env, Start(t), actions);
    var s := Exec(env, Start(t), actions);
    if w.version < v {
      ReadBeforeChange(s, w.version, w.readAt, v);
    }
  }

  // ---------------------------------------------------------------------------------------------
  // One search without interference.

  datatype SearchCalls = SearchCalls(lookup: bool, fetch: bool, store: bool)

  function SearchSteps<T>(c: nat, q: Query, calls: SearchCalls): seq<Action<T>> {
    [Ask(c, q), Lookup(c, calls.lookup), Fetch(c, calls.fetch), Store(c, calls.store)]
  }

  function Serial<T>(env: Env<T>, s: State<T>, c: nat, q: Query, calls: SearchCalls): State<T>
    requires s.history != []
  {
    Exec(env, s, SearchSteps(c, q, calls))
  }

  function LastTable<T>(s: State<T>): T
    requires s.history != []
  {
    s.history[|s.history| - 1].table
  }

  lemma ExecCons<T>(env: Env<T>, s: State<T>, a: Action<T>, rest: seq<Action<T>>)
    requires s.history != []
    ensures Exec(env, s, [a] + rest) == Exec(env, Apply(env, s, a), rest)
  {
    assert ([a] + rest)[1..] == rest;
  }

  lemma ExecTwo<T>(env: Env<T>, s: State<T>, a: Action<T>, b: Action<T>)
    requires s.history != []
    ensures Exec(env, s, [a, b]) == Apply(env, Apply(env, s, a), b)
  {
    ExecCons(env, s, a, [b]);
    ExecCons(env, Apply(env, s, a), b, []);
    assert [a, b] == [a] + [b] && [b] == [b] + [];
  }

  // The four steps, one by one.
  lemma SerialSteps<T>(env: Env<T>, s: State<T>, c: nat, q: Query, calls: SearchCalls)
    requires s.history != []
    ensures var s1 := Apply(env, Apply(env, s, Ask(c, q)), Lookup(c, calls.lookup));
      Serial(env, s, c, q, calls) == Apply(env, Apply(env, s1, Fetch(c, calls.fetch)), Store(c, calls.store))
  {
    var lookup, fetch, store: Action<T> := Lookup(c, calls.lookup), Fetch(c, calls.fetch), Store(c, calls.store);
    var s1 := Apply(env, s, Ask(c, q));
    ExecCons(env, s, Ask(c, q), [lookup, fetch, store]);
    ExecCons(env, s1, lookup, [fetch, store]);
    ExecTwo(env, Apply(env, s1, lookup), fetch, store);
    assert SearchSteps(c, q, calls) == [Ask(c, q)] + [lookup, fetch, store];
    assert [lookup, fetch, store] == [lookup] + [fetch, store];
  }

  // A search alone: the cached answer where there is a live one that decodes, else the direct answer,
  // written through. It fails exactly when there is neither.
  lemma SerialOutcome<T>(env: Env<T>, s: State<T>, c: nat, q: Query, calls: SearchCalls)
    requires s.history != [] && c !in s.clients
    ensures var s' := Serial(env, s, c, q, calls);
      var hit := if calls.lookup then Cached(env, s.cache, s.now, q) else None;
      var direct := if calls.fetch then Direct(env, LastTable(s), q) else None;
      && c in s'.clients && s'.now == s.now && s'.history == s.history
      && s'.clients[c] == (if hit.Some? then Answered(q, hit.value, s.now, true)
                           else if direct.Some? then Answered(q, direct.value, s.now, false)
                           else Failed(q))
      && s'.cache == if hit.None? && direct.Some? && calls.store
                     then WriteThrough(env, s.cache, s.now, q, direct.value) else s.cache
  {
    SerialSteps(env, s, c, q, calls);
  }

  // A second search for the same query, less than two minutes later and with no eviction, repeats
  // the answer of the first, whatever the tables have become: a rejection is not seen at once.
  lemma HitIgnoresChanges<T>(env: Env<T>, s: State<T>, q: Query, table: T, d: nat, again: SearchCalls)
    requires EnvOk(env) && env.caching && again.lookup && d < 2 * 60 * 1000
    requires s.history != [] && 0 !in s.clients && 1 !in s.clients
    requires Cached(env, s.cache, s.now, q) == None
    requires Direct(env, LastTable(s), q).Some? && env.marshal(Direct(env, LastTable(s), q).value).Some?
    ensures var s1 := Serial(env, s, 0, q, SearchCalls(true, true, true));
      var s2 := Exec(env, s1, [Change(table), Tick(d)]);
      var s3 := Serial(env, s2, 1, q, again);
      && 1 in s3.clients
      && s3.clients[1] == Answered(q, Direct(env, LastTable(s), q).value, s.now + d, true)
      && LastTable(s2) == table
  {
    assert d < TTL;
    hide *;
    var s1 := FirstSearch(env, s, q);
    ChangeAndTick(env, s1, table, d);
    SerialOutcome(env, Exec(env, s1, [Change(table), Tick(d)]), 1, q, again);
  }

  lemma ChangeAndTick<T>(env: Env<T>, s: State<T>, table: T, d: nat)
    requires s.history != []
    ensures var s' := Exec(env, s, [Change(table), Tick(d)]);
      s'.cache == s.cache && s'.clients == s.clients && s'.now == s.now + d && LastTable(s') == table
  {
    ExecTwo(env, s, Change(table), Tick(d));
    hide Exec;
  }

  // A search that finds nothing cached leaves its answer where the next one finds it for two minutes.
  lemma FirstSearch<T>(env: Env<T>, s: State<T>, q: Query) returns (s1: State<T>)
    requires EnvOk(env) && env.caching
    requires s.history != [] && 0 !in s.clients && 1 !in s.clients
    requires Cached(env, s.cache, s.now, q) == None
    requires Direct(env, LastTable(s), q).Some? && env.marshal(Direct(env, LastTable(s), q).value).Some?
    ensures s1 == Serial(env, s, 0, q, SearchCalls(true, true, true))
    ensures s1.history == s.history && s1.now == s.now && 1 !in s1.clients
    ensures forall now :: s.now <= now < s.now + TTL ==> Cached(env, s1.cache, now, q) == Direct(env, LastTable(s), q)
  {
    s1 := Serial(env, s, 0, q, SearchCalls(true, true, true));
    SerialOutcome(env, s, 0, q, SearchCalls(true, true, true));
    OthersKept(env, s, 0, q, SearchCalls(true, true, true), 1);
    hide Serial, Direct, CacheKey;
    var rows := Direct(env, LastTable(s), q).value;
    assert s1.cache == WriteThrough(env, s.cache, s.now, q, rows);
    assert env.unmarshal(env.marshal(rows).value) == Some(rows);
  }

  lemma OthersKept<T>(env: Env<T>, s: State<T>, c: nat, q: Query, calls: SearchCalls, other: nat)
    requires s.history != [] && other != c && other !in s.clients
    ensures other !in Serial(env, s, c, q, calls).clients
  {
    SerialSteps(env, s, c, q, calls);
  }
}
