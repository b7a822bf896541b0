/** The in-process TTL cache (app/infrastructure/cache/memory.py) against the history of its writes. */
module Cache {
  import opened Common

  /** A write to the cache. `at` is the monotonic clock, in seconds, when it happened. */
  datatype Write =
    | Put(key: string, value: string, ttl: Option<int>, at: real)
    | Drop(key: string)
    | DropAll

  datatype Entry = Entry(value: string, expiresAt: Option<real>)

  predicate Expires(ttl: Option<int>) {
    ttl.Some? && ttl.value != 0
  }

  function EntryOf(write: Write): Entry
    requires write.Put?
  {
    Entry(write.value, if Expires(write.ttl) then Some(write.at + (write.ttl.value as real)) else None)
  }

  predicate Affects(write: Write, key: string) {
    write.DropAll? || write.key == key
  }

  /** The last write that affects `key`. */
  function LastWrite(history: seq<Write>, key: string): Option<Write> {
    if history == [] then None
    else if Affects(history[|history| - 1], key) then Some(history[|history| - 1])
    else LastWrite(history[..|history| - 1], key)
  }

  /** What `get` answers at time `now`: the value last put, unless it had a lifetime that is over. */
  function Lookup(history: seq<Write>, key: string, now: real): Option<string> {
    match LastWrite(history, key)
    case Some(Put(_, value, ttl, at)) =>
      if Expires(ttl) && now > at + (ttl.value as real) then None else Some(value)
    case _ => None
  }

  lemma LastWriteAfter(history: seq<Write>, write: Write, key: string)
    ensures LastWrite(history + [write], key) == if Affects(write, key) then Some(write) else LastWrite(history, key)
  {
    assert (history + [write])[..|history|] == history;
  }

  // ---- The history specification ---------------------------------------------------------------

  /** Write `i` puts `v` under `key` and no later write affects the key. */
  predicate PutsFinally(history: seq<Write>, i: int, key: string, v: string) {
    0 <= i < |history| && history[i].Put? && history[i].key == key && history[i].value == v
    && forall j | i < j < |history| :: !Affects(history[j], key)
  }

  lemma {:induction false} LastWriteIsLast(history: seq<Write>, key: string)
    ensures LastWrite(history, key).Some? ==>
              exists i :: 0 <= i < |history| && LastWrite(history, key) == Some(history[i]) && Affects(history[i], key)
                          && forall j | i < j < |history| :: !Affects(history[j], key)
  {
    if history == [] || Affects(history[|history| - 1], key) {
    } else {
      var rest := history[..|history| - 1];
      LastWriteIsLast(rest, key);
      if LastWrite(history, key).Some? {
        var i :| 0 <= i < |rest| && LastWrite(rest, key) == Some(rest[i]) && Affects(rest[i], key)
                 && forall j | i < j < |rest| :: !Affects(rest[j], key);
        assert history[i] == rest[i];
        assert forall j | i < j < |history| :: j < |rest| ==> history[j] == rest[j];
      }
    }
  }

  lemma {:induction false} LastWriteFound(history: seq<Write>, i: int, key: string)
    requires 0 <= i < |history| && Affects(history[i], key) && forall j | i < j < |history| :: !Affects(history[j], key)
    ensures LastWrite(history, key) == Some(history[i])
  {
    if i == |history| - 1 {
    } else {
      LastWriteFound(history[..|history| - 1], i, key);
    }
  }

  /** `get(k)` returns `v` exactly when the last affecting write put `v` with a lifetime not yet over. */
  lemma LookupIff(history: seq<Write>, key: string, now: real, v: string)
    ensures Lookup(history, key, now) == Some(v) <==>
            exists i :: PutsFinally(history, i, key, v)
                        && (|| history[i].ttl == None || history[i].ttl == Some(0)
                            || now <= history[i].at + (history[i].ttl.value as real))
  {
    LastWriteIsLast(history, key);
    forall i | PutsFinally(history, i, key, v) ensures LastWrite(history, key) == Some(history[i]) {
      LastWriteFound(history, i, key);
    }
  }

  /** Expired is expired: under a monotone clock an answer of None stays until the next write. */
  lemma ExpiryIsFinal(history: seq<Write>, key: string, now: real, later: real)
    requires now <= later && Lookup(history, key, now) == None
    ensures Lookup(history, key, later) == None
  {}

  // ---- Runs of calls ---------------------------------------------------------------------------

  /** A call with the reading of the monotonic clock it makes; removals read no clock. */
  datatype Call =
    | Get(key: string, now: real)
    | Set(key: string, value: string, ttl: Option<int>, now: real)
    | Delete(key: string)
    | Clear

  predicate NotBefore(latest: Option<real>, now: real) {
    latest.Some? ==> latest.value <= now
  }

  function WritesBy(call: Call): seq<Write> {
    match call
    case Get(_, _) => []
    case Set(key, value, ttl, now) => [Put(key, value, ttl, now)]
    case Delete(key) => [Drop(key)]
    case Clear => [DropAll]
  }

  /** The writes the first `n` calls make. */
  function WritesOf(calls: seq<Call>, n: nat): seq<Write>
    requires n <= |calls|
  {
    if n == 0 then [] else WritesOf(calls, n - 1) + WritesBy(calls[n - 1])
  }

  /** What a call answers: for a `get`, what the writes so far say. */
  function AnswerTo(history: seq<Write>, call: Call): Option<string> {
    match call
    case Get(key, now) => Lookup(history, key, now)
    case _ => None
  }

  function Reading(call: Call): Option<real> {
    if call.Get? || call.Set? then Some(call.now) else None
  }

  /** The latest reading among `start` and the first `n` calls. */
  function LatestReading(start: Option<real>, calls: seq<Call>, n: nat): Option<real>
    requires n <= |calls|
  {
    if n == 0 then start
    else if Reading(calls[n - 1]).Some? then Reading(calls[n - 1])
    else LatestReading(start, calls, n - 1)
  }

  /** The clock never runs backwards from one reading to the next. */
  predicate ClockIsMonotone(start: Option<real>, calls: seq<Call>) {
    forall n | 0 <= n < |calls| && Reading(calls[n]).Some? ::
      NotBefore(LatestReading(start, calls, n), Reading(calls[n]).value)
  }

  /** The answers to the first `n` calls, after the writes in `before`. */
  function AnswersTo(before: seq<Write>, calls: seq<Call>, n: nat): (answers: seq<Option<string>>)
    requires n <= |calls|
    ensures |answers| == n
  {
    if n == 0 then []
    else AnswersTo(before, calls, n - 1) + [AnswerTo(before + WritesOf(calls, n - 1), calls[n - 1])]
  }

  // ---- The cache -------------------------------------------------------------------------------

  /** The entry of `key` is what was last put, or missing because that is already out of date. */
  predicate Agrees(store: map<string, Entry>, history: seq<Write>, latest: Option<real>, key: string) {
    match LastWrite(history, key)
    case Some(Put(k, value, ttl, at)) =>
      (key in store ==> store[key] == EntryOf(Put(k, value, ttl, at)))
      && (key !in store ==> Expires(ttl) && latest.Some? && latest.value > at + (ttl.value as real))
    case _ => key !in store
  }

  class InMemoryCache {
    var store: map<string, Entry>
    ghost var history: seq<Write>
    /** The latest clock reading any operation has used. */
    ghost var latest: Option<real>

    constructor ()
      ensures Valid() && history == [] && latest == None
    {
      store := map[];
      history, latest := [], None;
    }

    /** The store holds what was last put, less some entries that were already out of date. */
    ghost predicate Valid()
      reads this
    {
      forall key: string :: Agrees(store, history, latest, key)
    }

    /** Reads, and evicts the entry when it is out of date. The history of writes is untouched. */
    method Get(key: string, now: real) returns (value: Option<string>)
      requires Valid() && NotBefore(latest, now)
      modifies this`store, this`latest
      ensures Valid() && latest == Some(now)
      ensures value == Lookup(history, key, now)
    {
      latest := Some(now);
      forall k: string ensures Agrees(store, history, latest, k) {
        assert Agrees(store, history, old(latest), k);
      }
      assert Agrees(store, history, latest, key);
      if key !in store {
        return None;
      }
      var entry := store[key];
      if entry.expiresAt.Some? && now > entry.expiresAt.value {
        store := store - {key};
        forall k: string ensures Agrees(store, history, latest, k) {
          assert Agrees(old(store), history, latest, k);
        }
        return None;
      }
      return Some(entry.value);
    }

    method Set(key: string, value: string, ttl: Option<int>, now: real)
      requires Valid() && NotBefore(latest, now)
      modifies this
      ensures Valid() && latest == Some(now)
      ensures history == old(history) + [Put(key, value, ttl, now)]
    {
      ghost var write := Put(key, value, ttl, now);
      var expiresAt := if Expires(ttl) then Some(now + (ttl.value as real)) else None;
      store := store[key := Entry(value, expiresAt)];
      history, latest := history + [write], Some(now);
      forall k: string ensures Agrees(store, history, latest, k) {
        assert Agrees(old(store), old(history), old(latest), k);
        LastWriteAfter(old(history), write, k);
      }
    }

    method Delete(key: string)
      requires Valid()
      modifies this`store, this`history
      ensures Valid() && history == old(history) + [Drop(key)]
    {
      store := store - {key};
      history := history + [Drop(key)];
      forall k: string ensures Agrees(store, history, latest, k) {
        assert Agrees(old(store), old(history), latest, k);
        LastWriteAfter(old(history), Drop(key), k);
      }
    }

    method Clear()
      requires Valid()
      modifies this`store, this`history
      ensures Valid() && history == old(history) + [DropAll]
    {
      store := map[];
      history := history + [DropAll];
      forall k: string ensures Agrees(store, history, latest, k) {
        assert Agrees(old(store), old(history), latest, k);
        LastWriteAfter(old(history), DropAll, k);
      }
    }

    method Answer(call: Call) returns (answer: Option<string>)
      requires Valid() && (Reading(call).Some? ==> NotBefore(latest, Reading(call).value))
      modifies this
      ensures Valid() && latest == (if Reading(call).Some? then Reading(call) else old(latest))
      ensures history == old(history) + WritesBy(call) && answer == AnswerTo(old(history), call)
    {
      answer := None;
      match call
      case Get(key, now) => answer := Get(key, now);
      case Set(key, value, ttl, now) => Set(key, value, ttl, now);
      case Delete(key) => Delete(key);
      case Clear => Clear();
    }

    /** Any run of calls: every `get` answers what the history of writes says, evictions unseen. */
    method Serve(calls: seq<Call>) returns (answers: seq<Option<string>>)
      requires Valid() && ClockIsMonotone(latest, calls)
      modifies this
      ensures Valid() && history == old(history) + WritesOf(calls, |calls|)
      ensures answers == AnswersTo(old(history), calls, |calls|)
    {
      answers := [];
      for n := 0 to |calls|
        invariant Valid() && history == old(history) + WritesOf(calls, n)
        invariant latest == LatestReading(old(latest), calls, n)
        invariant answers == AnswersTo(old(history), calls, n)
      {
        var answer := Answer(calls[n]);
        answers := answers + [answer];
      }
    }
  }

  /** A new cache answers any run from the writes of that run alone. */
  method ServeFromNew(calls: seq<Call>) returns (answers: seq<Option<string>>)
    requires ClockIsMonotone(None, calls)
    ensures answers == AnswersTo([], calls, |calls|)
  {
    var cache := new InMemoryCache();
    answers := cache.Serve(calls);
  }
}
