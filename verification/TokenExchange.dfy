/**
 * The token-exchange cache: a bounded, time-limited LRU whose calls overlap while
 * they await the authorization server.
 *
 * A call runs in two atomic sections. `Lookup` is everything before the first `await`,
 * `Insert` everything after the last one. Times are in milliseconds.
 */
module TokenExchange {
  import opened Wrappers
  import opened Numbers
  import opened Recency
  import opened InsertionMap

  const SAFETY_WINDOW_MS: real := 30000.0
  const MAX_CACHE_MS: real := 60000.0

  datatype Entry = Entry(token: string, validUntil: real)
  type Cache = seq<Slot<Entry>>

  /** `subjectExpiresAt` is in epoch seconds. */
  datatype Call = Call(subject: string, subjectExpiresAt: Option<real>, scope: string)

  /** A successful reply; `expiresIn` is in seconds. */
  datatype Reply = Reply(accessToken: string, expiresIn: real)

  /** `digest` stands for SHA-256 in hexadecimal. */
  datatype Config = Config(digest: string -> string, maxEntries: int)

  function KeyOf(cfg: Config, call: Call): string {
    cfg.digest(call.subject) + " " + call.scope
  }

  function Max0(n: int): nat { if n < 0 then 0 else n }

  /** When the exchanged token and the subject token are both still alive. */
  function ExpiresAt(call: Call, reply: Reply, now: real): real {
    var exchanged := now + reply.expiresIn * 1000.0;
    match call.subjectExpiresAt
    case None => exchanged
    case Some(s) => MinReal(exchanged, s * 1000.0)
  }

  /** The clock is read twice, at `now` and at `now2`. */
  function NewEntry(call: Call, reply: Reply, now: real, now2: real): Entry {
    Entry(reply.accessToken,
          MinReal(ExpiresAt(call, reply, now) - SAFETY_WINDOW_MS, now2 + MAX_CACHE_MS))
  }

  function Lookup(cache: Cache, key: string, now: real): (Option<string>, Cache) {
    match Get(cache, key)
    case None => (None, cache)
    case Some(hit) =>
      var without := Delete(cache, key);
      if hit.validUntil > now then (Some(hit.token), Put(without, key, hit)) else (None, without)
  }

  function Insert(maxEntries: int, cache: Cache, key: string, entry: Entry): Cache {
    var grown := Put(cache, key, entry);
    if |grown| > maxEntries then Delete(grown, grown[0].key) else grown
  }

  /** The closure made by `createTokenExchange`: its one mutable variable is the map. */
  class Exchanger {
    const cfg: Config
    var cache: Cache

    constructor (cfg: Config)
      ensures this.cfg == cfg && cache == []
    {
      this.cfg := cfg;
      cache := [];
    }

    method Begin(call: Call, now: real) returns (hit: Option<string>)
      modifies this
      ensures (hit, cache) == Lookup(old(cache), KeyOf(cfg, call), now)
    {
      var key := KeyOf(cfg, call);
      var found := Get(cache, key);
      if found.Some? {
        cache := Delete(cache, key);
        if found.value.validUntil > now {
          cache := Put(cache, key, found.value);
          return Some(found.value.token);
        }
      }
      return None;
    }

    method Finish(call: Call, reply: Reply, now: real, now2: real) returns (token: string)
      modifies this
      ensures cache == Insert(cfg.maxEntries, old(cache), KeyOf(cfg, call), NewEntry(call, reply, now, now2))
      ensures token == reply.accessToken
    {
      var expiresAt := now + reply.expiresIn * 1000.0;
      if call.subjectExpiresAt.Some? {
        expiresAt := MinReal(expiresAt, call.subjectExpiresAt.value * 1000.0);
      }
      cache := Put(cache, KeyOf(cfg, call),
                   Entry(reply.accessToken, MinReal(expiresAt - SAFETY_WINDOW_MS, now2 + MAX_CACHE_MS)));
      if |cache| > cfg.maxEntries {
        cache := Delete(cache, cache[0].key);
      }
      token := reply.accessToken;
    }
  }

  /** What `Lookup` does to the keys: a hit moves its key last, a stale entry goes. */
  lemma LookupKeys(cache: Cache, key: string, now: real)
    ensures var (hit, after) := Lookup(cache, key, now);
            && (hit.Some? ==> key in Keys(cache) && Keys(after) == Remove(Keys(cache), key) + [key])
            && (hit.None? ==> Keys(after) == Remove(Keys(cache), key))
            && (forall x :: x in after ==> x in cache)
  {
    GetMeaning(cache, key);
    DeleteMeaning(cache, key);
    if Get(cache, key).None? {
      RemoveAbsent(Keys(cache), key);
    } else {
      PutMeaning(Delete(cache, key), key, Get(cache, key).value);
    }
  }

  /** What `Insert` does to the keys of a cache within its bound. */
  lemma InsertKeys(maxEntries: int, cache: Cache, key: string, entry: Entry)
    requires Distinct(Keys(cache)) && |cache| <= Max0(maxEntries)
    ensures var after := Insert(maxEntries, cache, key, entry);
            && |after| <= Max0(maxEntries)
            && Keys(after) ==
               (if key in Keys(cache) then Keys(cache)
                else if |cache| < maxEntries then Keys(cache) + [key]
                else (Keys(cache) + [key])[1..])
            && (forall x :: x in after ==> x == Slot(key, entry) || x in cache)
  {
    var grown := Put(cache, key, entry);
    PutMeaning(cache, key, entry);
    if |grown| > maxEntries {
      assert key !in Keys(cache) && Distinct(Keys(grown)) by { SnocDistinct(Keys(cache), key); }
      DeleteFirst(grown);
      DeleteMeaning(grown, grown[0].key);
    }
  }

  /** With digests of one length, equal keys mean equal digests and equal scopes. */
  lemma KeyDetermines(cfg: Config, a: Call, b: Call)
    requires |cfg.digest(a.subject)| == |cfg.digest(b.subject)|
    ensures KeyOf(cfg, a) == KeyOf(cfg, b) <==> cfg.digest(a.subject) == cfg.digest(b.subject) && a.scope == b.scope
  {
    var da, db := cfg.digest(a.subject), cfg.digest(b.subject);
    if KeyOf(cfg, a) == KeyOf(cfg, b) {
      assert KeyOf(cfg, a)[..|da|] == da && KeyOf(cfg, b)[..|db|] == db;
      assert KeyOf(cfg, a)[|da| + 1..] == a.scope && KeyOf(cfg, b)[|db| + 1..] == b.scope;
    }
  }
}
