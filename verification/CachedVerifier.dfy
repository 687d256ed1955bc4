/**
 CachedSmartContractSignatureVerifier
 (apps/mls_validation_service/src/cached_signature_verifier.rs): an LRU in front of a
 verifier, whose lock is released while the inner verifier runs.
 */
module CachedVerifier {
  import opened Bytes
  import opened Wrappers
  import opened CacheKey
  import opened LruCache

  datatype Response = Response(isValid: bool, block: Option<nat>, error: Option<string>)

  datatype Answer = Ok(response: Response) | Err(error: string)

  type Key = bytes

  function KeyOf(digest: bytes -> bytes, r: Request): Key
  {
    digest(Preimage(r))
  }

  // ----- one caller at a time -----

  /** A whole call with nobody else about; `inner` is what the inner verifier would answer. */
  function Served(capacity: nat, c: Cache<Key, Response>, k: Key, inner: Answer): (Cache<Key, Response>, Answer)
  {
    if k in c.store then (Lookup(c, k), Ok(c.store[k]))
    else match inner
      case Ok(v) => (Insert(capacity, c, k, v), inner)
      case Err(_) => (c, inner)
  }

  class CachedSmartContractSignatureVerifier {
    const cache: Lru<Key, Response>
    const digest: bytes -> bytes
    // how often the inner verifier was asked
    ghost var innerCalls: nat

    constructor (capacity: nat, digest: bytes -> bytes)
      requires capacity > 0
      ensures fresh(cache) && cache.Valid() && cache.capacity == capacity && cache.Contents() == Cache([], map[])
      ensures this.digest == digest && innerCalls == 0
    {
      cache := new Lru(capacity);
      this.digest := digest;
      innerCalls := 0;
    }

    /** `inner` is the answer the inner verifier gives if it is asked. */
    method IsValidSignature(r: Request, inner: Answer) returns (answer: Answer)
      requires cache.Valid()
      modifies this, cache
      ensures cache.Valid()
      ensures (cache.Contents(), answer) == Served(cache.capacity, old(cache.Contents()), KeyOf(digest, r), inner)
      ensures var k := digest(Preimage(r));
              if k in old(cache.store) then
                && answer == Ok(old(cache.store)[k]) && cache.store == old(cache.store)
                && innerCalls == old(innerCalls)
              else
                && answer == inner && innerCalls == old(innerCalls) + 1
                && (if inner.Ok? then k in cache.store && cache.store[k] == inner.response
                    else cache.Contents() == old(cache.Contents()))
    {
      ghost var before := cache.Contents();
      if inner.Ok? {
        InsertKeeps(cache.capacity, before, KeyOf(digest, r), inner.response);
      }
      var key := BuildCacheKey(r, digest);
      var cached := cache.Get(key);
      if cached.Some? {
        return Ok(cached.value);
      }
      innerCalls := innerCalls + 1;
      if inner.Ok? {
        cache.Put(key, inner.response);
      }
      answer := inner;
    }
  }

  datatype Ask = Ask(key: Key, inner: Answer)

  /** The cache after a sequence of calls. */
  function After(capacity: nat, c: Cache<Key, Response>, asks: seq<Ask>): Cache<Key, Response>
    decreases |asks|
  {
    if asks == [] then c else After(capacity, Served(capacity, c, asks[0].key, asks[0].inner).0, asks[1..])
  }

  /** The keys other than k whose calls succeeded. */
  function Used(capacity: nat, c: Cache<Key, Response>, asks: seq<Ask>, k: Key): set<Key>
    decreases |asks|
  {
    if asks == [] then {}
    else
      var (c', answer) := Served(capacity, c, asks[0].key, asks[0].inner);
      InPlay(answer, asks[0].key, k) + Used(capacity, c', asks[1..], k)
  }

  lemma ServedKeeps(capacity: nat, c: Cache<Key, Response>, k: Key, inner: Answer)
    requires Wf(capacity, c)
    ensures Wf(capacity, Served(capacity, c, k, inner).0)
  {
    LookupKeeps(capacity, c, k);
    if inner.Ok? {
      InsertKeeps(capacity, c, k, inner.response);
    }
  }

  /** In every run of calls the cache stays within its capacity. */
  lemma {:induction false} CapacityKept(capacity: nat, c: Cache<Key, Response>, asks: seq<Ask>)
    requires Wf(capacity, c)
    ensures Wf(capacity, After(capacity, c, asks)) && |After(capacity, c, asks).store.Keys| <= capacity
    decreases |asks|
  {
    if asks == [] {
      KeysBounded(c.order, c.store.Keys);
    } else {
      ServedKeeps(capacity, c, asks[0].key, asks[0].inner);
      CapacityKept(capacity, Served(capacity, c, asks[0].key, asks[0].inner).0, asks[1..]);
    }
  }

  function InPlay(answer: Answer, a: Key, k: Key): set<Key>
  {
    if answer.Ok? && a != k then {a} else {}
  }

  /** One call, to another key or to k itself, keeps k's entry. */
  lemma RetainedStep(capacity: nat, c: Cache<Key, Response>, ask: Ask, k: Key, used: set<Key>)
    requires Wf(capacity, c) && k in c.store && Before(c.order, k) <= used
    requires |used + InPlay(Served(capacity, c, ask.key, ask.inner).1, ask.key, k)| < capacity
    ensures var (c', answer) := Served(capacity, c, ask.key, ask.inner);
            && Wf(capacity, c') && k in c'.store && c'.store[k] == c.store[k]
            && Before(c'.order, k) <= used + InPlay(answer, ask.key, k)
  {
    ServedKeeps(capacity, c, ask.key, ask.inner);
    if ask.key in c.store {
      if ask.key != k {
        BeforeMove(c.order, ask.key, k);
      }
    } else if ask.inner.Ok? {
      InsertRetains(capacity, c, ask.key, ask.inner.response, k, used);
    }
  }

  lemma {:induction false} Retained(capacity: nat, c: Cache<Key, Response>, asks: seq<Ask>, k: Key, used: set<Key>)
    requires Wf(capacity, c) && k in c.store && Before(c.order, k) <= used
    requires |used + Used(capacity, c, asks, k)| < capacity
    ensures var c' := After(capacity, c, asks);
            k in c'.store && c'.store[k] == c.store[k]
    decreases |asks|
  {
    if asks != [] {
      var (c', answer) := Served(capacity, c, asks[0].key, asks[0].inner);
      var used' := used + InPlay(answer, asks[0].key, k);
      var later := Used(capacity, c', asks[1..], k);
      assert used' + later == used + Used(capacity, c, asks, k);
      SubsetSize(used', used' + later);
      RetainedStep(capacity, c, asks[0], k, used);
      Retained(capacity, c', asks[1..], k, used');
    }
  }

  /**
   Reuse: after a successful call, if fewer than `capacity` distinct other keys succeed in the
   calls that follow, the same request is answered from the cache, with the same response,
   whatever the inner verifier would say by then.
   */
  lemma AnsweredAgainWithoutInner(capacity: nat, c: Cache<Key, Response>, k: Key, inner: Answer,
                                  between: seq<Ask>, later: Answer)
    requires Wf(capacity, c)
    requires Served(capacity, c, k, inner).1.Ok?
    requires |Used(capacity, Served(capacity, c, k, inner).0, between, k)| < capacity
    ensures var (c1, answer) := Served(capacity, c, k, inner);
            var c2 := After(capacity, c1, between);
            k in c2.store && Served(capacity, c2, k, later).1 == answer
  {
    var (c1, answer) := Served(capacity, c, k, inner);
    ServedKeeps(capacity, c, k, inner);
    if k !in c.store {
      InsertKeeps(capacity, c, k, inner.response);
    }
    assert c1.order[0] == k;
    var used: set<Key> := {};
    assert used + Used(capacity, c1, between, k) == Used(capacity, c1, between, k);
    Retained(capacity, c1, between, k, used);
  }

  /** Nobody asks for k. */
  ghost predicate Unasked(asks: seq<Ask>, k: Key)
  {
    forall i :: 0 <= i < |asks| ==> asks[i].key != k
  }

  /** One call to another key puts it before k, if it succeeds, or pushes k out. */
  lemma OvertakenStep(capacity: nat, c: Cache<Key, Response>, ask: Ask, k: Key, used: set<Key>)
    requires Wf(capacity, c) && ask.key != k
    requires k in c.store ==> used <= Before(c.order, k)
    ensures var (c', answer) := Served(capacity, c, ask.key, ask.inner);
            k in c'.store ==> k in c.store && used + InPlay(answer, ask.key, k) <= Before(c'.order, k)
  {
    if ask.key in c.store {
      if k in c.store {
        BeforeMoved(c.order, ask.key, k);
      }
    } else if ask.inner.Ok? {
      if k in c.store {
        InsertOvertakes(capacity, c, ask.key, ask.inner.response, k);
      } else {
        InsertKeeps(capacity, c, ask.key, ask.inner.response);
      }
    }
  }

  /** While k is unasked, every other key that succeeds comes before it. */
  lemma {:induction false} Overtaken(capacity: nat, c: Cache<Key, Response>, asks: seq<Ask>, k: Key, used: set<Key>)
    requires Wf(capacity, c) && Unasked(asks, k)
    requires k in c.store ==> used <= Before(c.order, k)
    ensures var c' := After(capacity, c, asks);
            k in c'.store ==> used + Used(capacity, c, asks, k) <= Before(c'.order, k)
    decreases |asks|
  {
    if asks != [] {
      var (c', answer) := Served(capacity, c, asks[0].key, asks[0].inner);
      OvertakenStep(capacity, c, asks[0], k, used);
      ServedKeeps(capacity, c, asks[0].key, asks[0].inner);
      assert Unasked(asks[1..], k);
      Overtaken(capacity, c', asks[1..], k, used + InPlay(answer, asks[0].key, k));
    } else {
      assert used + {} == used;
    }
  }

  /** A key in the cache has fewer than `capacity` keys before it. */
  lemma BeforeFits(capacity: nat, c: Cache<Key, Response>, k: Key)
    requires Wf(capacity, c) && k in c.store
    ensures |Before(c.order, k)| < capacity
  {
    BeforeWithin(c.order, k);
    var newer := Before(c.order, k);
    KeysBounded(c.order, newer + {k});
    assert k !in newer;
    assert |newer + {k}| == |newer| + 1;
  }

  /**
   Retention is exact: after a successful call, and as long as the request is not made again, its
   response is still in the cache if and only if fewer than `capacity` distinct other keys have
   succeeded since.
   */
  lemma RetainedIff(capacity: nat, c: Cache<Key, Response>, k: Key, inner: Answer, between: seq<Ask>)
    requires Wf(capacity, c) && Served(capacity, c, k, inner).1.Ok? && Unasked(between, k)
    ensures var c1 := Served(capacity, c, k, inner).0;
            k in After(capacity, c1, between).store <==> |Used(capacity, c1, between, k)| < capacity
  {
    var (c1, answer) := Served(capacity, c, k, inner);
    ServedKeeps(capacity, c, k, inner);
    if |Used(capacity, c1, between, k)| < capacity {
      AnsweredAgainWithoutInner(capacity, c, k, inner, between, inner);
    }
    var c2 := After(capacity, c1, between);
    if k in c2.store {
      var none: set<Key> := {};
      Overtaken(capacity, c1, between, k, none);
      CapacityKept(capacity, c1, between);
      BeforeFits(capacity, c2, k);
      assert none + Used(capacity, c1, between, k) == Used(capacity, c1, between, k);
      SubsetSize(Used(capacity, c1, between, k), Before(c2.order, k));
    }
  }

  // ----- any number of callers at once -----

  /** Where a call stands: not looked up yet, missed, answered by the inner verifier but not stored, or answered. */
  datatype Call = Started(request: Request) | Missed(request: Request) | Fetched(request: Request, response: Response)
                | Done(request: Request, answer: Answer)

  /** `log` lists every answer of the inner verifier, oldest first. */
  datatype System = System(cache: map<Key, Response>, calls: map<nat, Call>, log: seq<(Request, Answer)>)

  /** The atomic steps; a Store may evict anything outside `kept`. */
  datatype Step = Begin(id: nat, request: Request) | Look(id: nat) | Inner(id: nat, answer: Answer)
                | Store(id: nat, kept: set<Key>)

  const INITIAL := System(map[], map[], [])

  predicate Enabled(s: System, step: Step)
  {
    match step
    case Begin(id, _) => id !in s.calls
    case Look(id) => id in s.calls && s.calls[id].Started?
    case Inner(id, _) => id in s.calls && s.calls[id].Missed?
    case Store(id, _) => id in s.calls && s.calls[id].Fetched?
  }

  function Take(digest: bytes -> bytes, s: System, step: Step): System
    requires Enabled(s, step)
  {
    match step
    case Begin(id, r) => s.(calls := s.calls[id := Started(r)])
    case Look(id) =>
      var r := s.calls[id].request;
      var k := KeyOf(digest, r);
      s.(calls := s.calls[id := if k in s.cache then Done(r, Ok(s.cache[k])) else Missed(r)])
    case Inner(id, answer) =>
      var r := s.calls[id].request;
      s.(calls := s.calls[id := if answer.Ok? then Fetched(r, answer.response) else Done(r, answer)],
         log := s.log + [(r, answer)])
    case Store(id, kept) =>
      var Fetched(r, v) := s.calls[id];
      var full := s.cache[KeyOf(digest, r) := v];
      s.(cache := map k | k in full && k in kept :: full[k], calls := s.calls[id := Done(r, Ok(v))])
  }

  /** Steps that can be taken one after another from s. */
  predicate Legal(digest: bytes -> bytes, s: System, steps: seq<Step>)
    decreases |steps|
  {
    steps == [] || (Enabled(s, steps[0]) && Legal(digest, Take(digest, s, steps[0]), steps[1..]))
  }

  function Run(digest: bytes -> bytes, s: System, steps: seq<Step>): System
    requires Legal(digest, s, steps)
    decreases |steps|
  {
    if steps == [] then s else Run(digest, Take(digest, s, steps[0]), steps[1..])
  }

  ghost function Requests(s: System): set<Request>
  {
    set id | id in s.calls :: s.calls[id].request
  }

  ghost predicate Logged(s: System, r: Request, a: Answer)
  {
    exists i :: 0 <= i < |s.log| && s.log[i] == (r, a)
  }

  /**
   Every answer given, or fetched, was logged for that very request, and every cached response for
   some request with its key.
   */
  ghost predicate Traced(digest: bytes -> bytes, s: System)
  {
    && (forall id :: id in s.calls && s.calls[id].Done? ==> Logged(s, s.calls[id].request, s.calls[id].answer))
    && (forall id :: id in s.calls && s.calls[id].Fetched? ==> Logged(s, s.calls[id].request, Ok(s.calls[id].response)))
    && (forall k :: k in s.cache ==> CachedFrom(digest, s, k))
    && (forall i :: 0 <= i < |s.log| ==> s.log[i].0 in Requests(s))
  }

  ghost predicate CachedFrom(digest: bytes -> bytes, s: System, k: Key)
    requires k in s.cache
  {
    exists r :: Logged(s, r, Ok(s.cache[k])) && KeyOf(digest, r) == k
  }

  lemma LogGrows(s: System, t: System)
    requires s.log <= t.log
    ensures forall r, a :: Logged(s, r, a) ==> Logged(t, r, a)
  {
    forall r, a | Logged(s, r, a) ensures Logged(t, r, a) {
      var i :| 0 <= i < |s.log| && s.log[i] == (r, a);
      assert t.log[i] == (r, a);
    }
  }

  lemma RequestsGrow(digest: bytes -> bytes, s: System, step: Step)
    requires Enabled(s, step)
    ensures Requests(s) <= Requests(Take(digest, s, step))
  {
    var t := Take(digest, s, step);
    forall r | r in Requests(s) ensures r in Requests(t) {
      var id :| id in s.calls && s.calls[id].request == r;
      assert id in t.calls && t.calls[id].request == r;
    }
  }

  lemma LookTraced(digest: bytes -> bytes, s: System, id: nat)
    requires Enabled(s, Look(id)) && Traced(digest, s)
    requires CollisionFree(digest, Requests(s)) && Encodable(Requests(s))
    ensures Traced(digest, Take(digest, s, Look(id)))
  {
    var t := Take(digest, s, Look(id));
    LogGrows(s, t);
    RequestsGrow(digest, s, Look(id));
    var r := s.calls[id].request;
    var k := KeyOf(digest, r);
    assert r in Requests(s);
    if k in s.cache {
      assert CachedFrom(digest, s, k);
      var r0 :| Logged(s, r0, Ok(s.cache[k])) && KeyOf(digest, r0) == k;
      KeysDistinguish(digest, Requests(s), r, r0);
    }
    forall k | k in t.cache ensures CachedFrom(digest, t, k) {
      assert CachedFrom(digest, s, k);
    }
  }

  lemma InnerTraced(digest: bytes -> bytes, s: System, id: nat, answer: Answer)
    requires Enabled(s, Inner(id, answer)) && Traced(digest, s)
    ensures Traced(digest, Take(digest, s, Inner(id, answer)))
  {
    var t := Take(digest, s, Inner(id, answer));
    LogGrows(s, t);
    RequestsGrow(digest, s, Inner(id, answer));
    var r := s.calls[id].request;
    assert t.log[|s.log|] == (r, answer);
    assert t.calls[id].request == r;
    forall k | k in t.cache ensures CachedFrom(digest, t, k) {
      assert CachedFrom(digest, s, k);
    }
  }

  lemma StoreTraced(digest: bytes -> bytes, s: System, id: nat, kept: set<Key>)
    requires Enabled(s, Store(id, kept)) && Traced(digest, s)
    ensures Traced(digest, Take(digest, s, Store(id, kept)))
  {
    var t := Take(digest, s, Store(id, kept));
    LogGrows(s, t);
    RequestsGrow(digest, s, Store(id, kept));
    var Fetched(r, v) := s.calls[id];
    forall k | k in t.cache ensures CachedFrom(digest, t, k) {
      if k == KeyOf(digest, r) {
        assert Logged(t, r, Ok(t.cache[k]));
      } else {
        assert CachedFrom(digest, s, k);
      }
    }
  }

  lemma BeginTraced(digest: bytes -> bytes, s: System, id: nat, r: Request)
    requires Enabled(s, Begin(id, r)) && Traced(digest, s)
    ensures Traced(digest, Take(digest, s, Begin(id, r)))
  {
    var t := Take(digest, s, Begin(id, r));
    LogGrows(s, t);
    RequestsGrow(digest, s, Begin(id, r));
    forall k | k in t.cache ensures CachedFrom(digest, t, k) {
      assert CachedFrom(digest, s, k);
    }
  }

  lemma {:induction false} RequestsGrowInRun(digest: bytes -> bytes, s: System, steps: seq<Step>)
    requires Legal(digest, s, steps)
    ensures Requests(s) <= Requests(Run(digest, s, steps))
    decreases |steps|
  {
    if steps != [] {
      RequestsGrow(digest, s, steps[0]);
      RequestsGrowInRun(digest, Take(digest, s, steps[0]), steps[1..]);
    }
  }

  lemma {:induction false} RunTraced(digest: bytes -> bytes, s: System, steps: seq<Step>)
    requires Legal(digest, s, steps) && Traced(digest, s)
    requires CollisionFree(digest, Requests(Run(digest, s, steps))) && Encodable(Requests(Run(digest, s, steps)))
    ensures Traced(digest, Run(digest, s, steps))
    decreases |steps|
  {
    if steps != [] {
      RequestsGrowInRun(digest, s, steps);
      match steps[0] {
        case Begin(id, r) => BeginTraced(digest, s, id, r);
        case Look(id) => LookTraced(digest, s, id);
        case Inner(id, answer) => InnerTraced(digest, s, id, answer);
        case Store(id, kept) => StoreTraced(digest, s, id, kept);
      }
      RunTraced(digest, Take(digest, s, steps[0]), steps[1..]);
    }
  }

  /**
   Safety in every interleaving: provided the digest has no collision among the requests made
   and their fields are under 2^32 bytes, every answer a caller has received was given by the
   inner verifier, by then, for exactly the same request.
   */
  lemma EveryAnswerIsForItsRequest(digest: bytes -> bytes, steps: seq<Step>, id: nat)
    requires Legal(digest, INITIAL, steps)
    requires var s := Run(digest, INITIAL, steps);
             && CollisionFree(digest, Requests(s)) && Encodable(Requests(s))
             && id in s.calls && s.calls[id].Done?
    ensures var s := Run(digest, INITIAL, steps);
            (s.calls[id].request, s.calls[id].answer) in s.log
  {
    RunTraced(digest, INITIAL, steps);
  }

  /** If the inner verifier is a function, every caller receives what the uncached verifier would have answered. */
  lemma CachedAgreesWithUncached(digest: bytes -> bytes, verify: Request -> Answer, steps: seq<Step>, id: nat)
    requires Legal(digest, INITIAL, steps)
    requires var s := Run(digest, INITIAL, steps);
             && CollisionFree(digest, Requests(s)) && Encodable(Requests(s))
             && (forall i :: 0 <= i < |s.log| ==> s.log[i].1 == verify(s.log[i].0))
             && id in s.calls && s.calls[id].Done?
    ensures var s := Run(digest, INITIAL, steps);
            s.calls[id].answer == verify(s.calls[id].request)
  {
    EveryAnswerIsForItsRequest(digest, steps, id);
  }

  /** The LRU is one of the evictions the steps allow: a put keeps its own pair and a part of the rest. */
  lemma LruPutIsAStore(digest: bytes -> bytes, capacity: nat, c: Cache<Key, Response>, s: System, id: nat)
    requires Wf(capacity, c) && s.cache == c.store && id in s.calls && s.calls[id].Fetched?
    ensures var Fetched(r, v) := s.calls[id];
            var c' := Insert(capacity, c, KeyOf(digest, r), v);
            Take(digest, s, Store(id, c'.store.Keys)).cache == c'.store
  {
    var Fetched(r, v) := s.calls[id];
    InsertKeeps(capacity, c, KeyOf(digest, r), v);
  }

  // ----- sequential calls are runs of the concurrent system -----

  datatype Question = Question(request: Request, inner: Answer)

  /** The steps of one call with nobody else about. */
  function CallSteps(digest: bytes -> bytes, capacity: nat, c: Cache<Key, Response>, id: nat, q: Question): seq<Step>
  {
    var k := KeyOf(digest, q.request);
    [Begin(id, q.request), Look(id)]
    + (if k in c.store then [] else [Inner(id, q.inner)])
    + (if k in c.store || q.inner.Err? then [] else [Store(id, Insert(capacity, c, k, q.inner.response).store.Keys)])
  }

  lemma RunCons(digest: bytes -> bytes, s: System, steps: seq<Step>, first: Step, rest: seq<Step>)
    requires steps == [first] + rest && Enabled(s, first) && Legal(digest, Take(digest, s, first), rest)
    ensures Legal(digest, s, steps) && Run(digest, s, steps) == Run(digest, Take(digest, s, first), rest)
  {
    assert steps[0] == first && steps[1..] == rest;
  }

  lemma {:induction false} RunAppend(digest: bytes -> bytes, s: System, a: seq<Step>, b: seq<Step>)
    requires Legal(digest, s, a) && Legal(digest, Run(digest, s, a), b)
    ensures Legal(digest, s, a + b) && Run(digest, s, a + b) == Run(digest, Run(digest, s, a), b)
    decreases |a|
  {
    if a == [] {
      assert a + b == b;
    } else {
      var t, rest := Take(digest, s, a[0]), a[1..];
      assert Run(digest, s, a) == Run(digest, t, rest);
      RunAppend(digest, t, rest, b);
      ConsAppend(a, b);
      RunCons(digest, s, a + b, a[0], rest + b);
    }
  }

  lemma RunOne(digest: bytes -> bytes, s: System, step: Step)
    requires Enabled(s, step)
    ensures Legal(digest, s, [step]) && Run(digest, s, [step]) == Take(digest, s, step)
  {
    var t := Take(digest, s, step);
    assert [step][1..] == [];
    assert Legal(digest, t, []) && Run(digest, t, []) == t;
  }

  /** One more step at the end of a run. */
  lemma RunSnoc(digest: bytes -> bytes, s: System, a: seq<Step>, step: Step)
    requires Legal(digest, s, a) && Enabled(Run(digest, s, a), step)
    ensures Legal(digest, s, a + [step])
    ensures Run(digest, s, a + [step]) == Take(digest, Run(digest, s, a), step)
  {
    RunOne(digest, Run(digest, s, a), step);
    RunAppend(digest, s, a, [step]);
  }

  /** After a call: it is done with this answer, no other is touched, and the cache is that of c. */
  ghost predicate CallDone(s: System, t: System, id: nat, q: Question, answer: Answer, c: Cache<Key, Response>)
  {
    t.calls == s.calls[id := Done(q.request, answer)] && t.cache == c.store
  }

  lemma LookHit(digest: bytes -> bytes, c: Cache<Key, Response>, s: System, id: nat, q: Question)
    requires s.cache == c.store && id !in s.calls && KeyOf(digest, q.request) in c.store
    ensures var a := [Begin(id, q.request), Look(id)];
            && Legal(digest, s, a)
            && CallDone(s, Run(digest, s, a), id, q, Ok(c.store[KeyOf(digest, q.request)]), c)
  {
    RunOne(digest, s, Begin(id, q.request));
    RunSnoc(digest, s, [Begin(id, q.request)], Look(id));
    assert [Begin(id, q.request)] + [Look(id)] == [Begin(id, q.request), Look(id)];
  }

  lemma LookMiss(digest: bytes -> bytes, c: Cache<Key, Response>, s: System, id: nat, q: Question)
    requires s.cache == c.store && id !in s.calls && KeyOf(digest, q.request) !in c.store
    ensures var a := [Begin(id, q.request), Look(id)];
            && Legal(digest, s, a) && Run(digest, s, a) == s.(calls := s.calls[id := Missed(q.request)])
  {
    RunOne(digest, s, Begin(id, q.request));
    RunSnoc(digest, s, [Begin(id, q.request)], Look(id));
    assert [Begin(id, q.request)] + [Look(id)] == [Begin(id, q.request), Look(id)];
    assert s.calls[id := Started(q.request)][id := Missed(q.request)] == s.calls[id := Missed(q.request)];
  }

  lemma AskInner(digest: bytes -> bytes, c: Cache<Key, Response>, s: System, id: nat, q: Question)
    requires s.cache == c.store && id !in s.calls && KeyOf(digest, q.request) !in c.store
    ensures var b := [Begin(id, q.request), Look(id)] + [Inner(id, q.inner)];
            && Legal(digest, s, b)
            && (q.inner.Err? ==> CallDone(s, Run(digest, s, b), id, q, q.inner, c))
            && (q.inner.Ok? ==> Run(digest, s, b).calls == s.calls[id := Fetched(q.request, q.inner.response)]
                                && Run(digest, s, b).cache == c.store)
  {
    LookMiss(digest, c, s, id, q);
    RunSnoc(digest, s, [Begin(id, q.request), Look(id)], Inner(id, q.inner));
  }

  lemma StoreFetched(digest: bytes -> bytes, capacity: nat, c: Cache<Key, Response>, s: System, t: System, id: nat,
                     q: Question)
    requires Wf(capacity, c) && q.inner.Ok? && t.cache == c.store && id !in s.calls
    requires t.calls == s.calls[id := Fetched(q.request, q.inner.response)]
    ensures var c' := Insert(capacity, c, KeyOf(digest, q.request), q.inner.response);
            && Enabled(t, Store(id, c'.store.Keys))
            && CallDone(s, Take(digest, t, Store(id, c'.store.Keys)), id, q, q.inner, c')
  {
    LruPutIsAStore(digest, capacity, c, t, id);
  }

  /**
   One call with nobody else about is a run of the concurrent system, from any state with the same
   cache: it begins, looks up and, on a miss, asks the inner verifier and stores what it answers if that
   is a response; with the same answer and the same cache in the end, and no other call touched.
   */
  lemma CallIsARun(digest: bytes -> bytes, capacity: nat, c: Cache<Key, Response>, s: System, id: nat, q: Question)
    requires Wf(capacity, c) && s.cache == c.store && id !in s.calls
    ensures var steps := CallSteps(digest, capacity, c, id, q);
            var (c', answer) := Served(capacity, c, KeyOf(digest, q.request), q.inner);
            Legal(digest, s, steps) && CallDone(s, Run(digest, s, steps), id, q, answer, c')
  {
    var k := KeyOf(digest, q.request);
    var a := [Begin(id, q.request), Look(id)];
    var none: seq<Step> := [];
    if k in c.store {
      LookHit(digest, c, s, id, q);
      assert a + none + none == a;
    } else {
      var b := a + [Inner(id, q.inner)];
      AskInner(digest, c, s, id, q);
      if q.inner.Err? {
        assert b + none == b;
      } else {
        StoreFetched(digest, capacity, c, s, Run(digest, s, b), id, q);
        RunSnoc(digest, s, b, Store(id, Insert(capacity, c, k, q.inner.response).store.Keys));
      }
    }
  }

  /** The answers of a sequence of calls. */
  function Answers(digest: bytes -> bytes, capacity: nat, c: Cache<Key, Response>, qs: seq<Question>): (r: seq<Answer>)
    ensures |r| == |qs|
    decreases |qs|
  {
    if qs == [] then []
    else
      var (c', answer) := Served(capacity, c, KeyOf(digest, qs[0].request), qs[0].inner);
      [answer] + Answers(digest, capacity, c', qs[1..])
  }

  /** After a sequence of calls numbered from id on: each is done with its answer, and no other is touched. */
  ghost predicate CallsDone(s: System, t: System, id: nat, qs: seq<Question>, answers: seq<Answer>)
  {
    && |qs| == |answers|
    && (forall x :: x in t.calls <==> x in s.calls || id <= x < id + |qs|)
    && (forall x :: x in s.calls ==> t.calls[x] == s.calls[x])
    && (forall i :: 0 <= i < |qs| ==> t.calls[id + i] == Done(qs[i].request, answers[i]))
  }

  lemma CallsDoneCons(s: System, t: System, u: System, id: nat, qs: seq<Question>, answers: seq<Answer>)
    requires qs != [] && |answers| == |qs| && id !in s.calls
    requires t.calls == s.calls[id := Done(qs[0].request, answers[0])]
    requires CallsDone(t, u, id + 1, qs[1..], answers[1..])
    ensures CallsDone(s, u, id, qs, answers)
  {
    assert id in t.calls;
    forall i | 0 <= i < |qs| ensures u.calls[id + i] == Done(qs[i].request, answers[i]) {
      assert i > 0 ==> u.calls[(id + 1) + (i - 1)] == Done(qs[1..][i - 1].request, answers[1..][i - 1]);
    }
  }

  /** A sequence of calls is a run too, call i of which gets the answer that call i of the sequence gets. */
  lemma {:induction false} CallsAreARun(digest: bytes -> bytes, capacity: nat, c: Cache<Key, Response>, s: System,
                                        id: nat, qs: seq<Question>) returns (steps: seq<Step>)
    requires Wf(capacity, c) && s.cache == c.store && forall x :: x in s.calls ==> x < id
    ensures Legal(digest, s, steps)
    ensures CallsDone(s, Run(digest, s, steps), id, qs, Answers(digest, capacity, c, qs))
    decreases |qs|
  {
    if qs == [] {
      return [];
    }
    var (c', answer) := Served(capacity, c, KeyOf(digest, qs[0].request), qs[0].inner);
    var first := CallSteps(digest, capacity, c, id, qs[0]);
    CallIsARun(digest, capacity, c, s, id, qs[0]);
    ServedKeeps(capacity, c, KeyOf(digest, qs[0].request), qs[0].inner);
    var t := Run(digest, s, first);
    var rest := CallsAreARun(digest, capacity, c', t, id + 1, qs[1..]);
    RunAppend(digest, s, first, rest);
    steps := first + rest;
    CallsDoneCons(s, t, Run(digest, s, steps), id, qs, Answers(digest, capacity, c, qs));
  }

  /** So every answer in a sequence of calls on a new verifier is one of its run of the concurrent system. */
  lemma SequentialAnswersAreTraced(digest: bytes -> bytes, capacity: nat, qs: seq<Question>, i: nat)
    returns (steps: seq<Step>)
    requires capacity > 0 && i < |qs|
    requires var rs := set j | 0 <= j < |qs| :: qs[j].request; CollisionFree(digest, rs) && Encodable(rs)
    ensures Legal(digest, INITIAL, steps)
    ensures (qs[i].request, Answers(digest, capacity, Cache([], map[]), qs)[i]) in Run(digest, INITIAL, steps).log
  {
    var answers := Answers(digest, capacity, Cache([], map[]), qs);
    steps := CallsAreARun(digest, capacity, Cache([], map[]), INITIAL, 0, qs);
    var t := Run(digest, INITIAL, steps);
    var rs := set j | 0 <= j < |qs| :: qs[j].request;
    forall r | r in Requests(t) ensures r in rs {
      var id :| id in t.calls && t.calls[id].request == r;
      assert t.calls[0 + id] == Done(qs[id].request, answers[id]);
    }
    assert t.calls[0 + i] == Done(qs[i].request, answers[i]);
    EveryAnswerIsForItsRequest(digest, steps, i);
  }
}
