// The search repository over Redis and the database, run without interference: it takes the steps
// of the search machine in order.
module SearchRepository {
  import opened Bytes
  import opened QueryKey
  import opened SearchCache

  class Redis {
    var entries: map<bytes, Stored>

    constructor ()
      ensures entries == map[]
    {
      entries := map[];
    }

    // An expired entry is not there; the call may fail.
    method Get(key: bytes, now: nat, ok: bool) returns (r: Option<bytes>)
      ensures r == if ok && key in entries && now < entries[key].expires then Some(entries[key].value) else None
    {
      r := if ok && key in entries && now < entries[key].expires then Some(entries[key].value) else None;
    }

    method Put(key: bytes, value: bytes, now: nat, ttl: nat, ok: bool)
      modifies this
      ensures entries == if ok then old(entries)[key := Stored(value, now + ttl)] else old(entries)
    {
      if ok {
        entries := entries[key := Stored(value, now + ttl)];
      }
    }
  }

  // How the calls of one search turn out. The row cursor may break before the row of index `cut`,
  // or after the last row when `cut` is their number.
  datatype Calls = Calls(lookup: bool, statement: bool, cut: Option<nat>, store: bool) {
    predicate Reads(rows: Results) {
      statement && (cut.None? || cut.value > |rows|)
    }
  }

  class Repository<T> {
    const cache: Redis?    // null: the cache is skipped
    const env: Env<T>

    constructor (cache: Redis?, env: Env<T>)
      requires env.caching == (cache != null)
      ensures this.cache == cache && this.env == env
    {
      this.cache, this.env := cache, env;
    }

    ghost function Entries(): map<bytes, Stored>
      reads cache
    {
      if cache == null then map[] else cache.entries
    }

    // What the machine makes of this search, from the present state.
    ghost function Expected(table: T, now: nat, q: Query, calls: Calls): State<T>
      reads cache
    {
      var direct := Direct(env, table, q);
      Serial(env, State(now, [Version(table, now)], Entries(), [], map[]), 0, q,
             SearchCalls(calls.lookup, direct.Some? && calls.Reads(direct.value), calls.store))
    }

    // The row loop: all the rows or an error, never some of them.
    method ScanRows(rows: Results, cut: Option<nat>) returns (r: Option<Results>)
      ensures r == if cut.None? || cut.value > |rows| then Some(rows) else None
    {
      var results := [];
      var k := 0;
      while k < |rows| && cut != Some(k)
        invariant 0 <= k <= |rows|
        invariant results == rows[..k]
        invariant cut.Some? ==> k <= cut.value
      {
        results := results + [rows[k]];
        k := k + 1;
      }
      if cut == Some(k) {
        return None;
      }
      assert rows[..k] == rows;
      r := Some(results);
    }

    method Query(table: T, now: nat, q: Query, calls: Calls) returns (r: Option<Results>)
      requires env.caching == (cache != null)
      modifies cache
      ensures var s := old(Expected(table, now, q, calls));
        && 0 in s.clients && Entries() == s.cache
        && match s.clients[0]
           case Answered(q', rows, at, hit) => q' == q && at == now && r == Some(rows)
           case p => p == Failed(q) && r == None
    {
      hide CacheKey, Serial;
      ghost var direct := Direct(env, table, q);
      ghost var fetched := direct.Some? && calls.Reads(direct.value);
      SerialOutcome(env, State(now, [Version(table, now)], Entries(), [], map[]), 0, q,
                    SearchCalls(calls.lookup, fetched, calls.store));
      var cacheKey := CacheKey(env.sha, q);
      if cache != null {
        var cached := cache.Get(cacheKey, now, calls.lookup);
        if cached.Some? {
          var results := env.unmarshal(cached.value);
          if results.Some? {
            return results;
          }
        }
      }
      var rows := if calls.statement then Direct(env, table, q) else None;
      if rows.None? {
        return None;
      }
      r := ScanRows(rows.value, calls.cut);
      if r.None? {
        return;
      }
      if cache != null {
        var data := env.marshal(r.value);
        if data.Some? {
          cache.Put(cacheKey, data.value, now, TTL, calls.store);
        }
      }
    }
  }
}
