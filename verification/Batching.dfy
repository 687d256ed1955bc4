/**
 Requests sent in batches (crates/xmtp_api/src/mls.rs, crates/xmtp_api/src/identity.rs).  A server is
 the function from the content of a request to its answer, after whatever retries the caller makes.
 */
module Batching {
  import opened Wrappers

  const PUBLISH_BATCH: nat := 10
  const QUERY_BATCH: nat := 20
  const IDENTITY_CHUNK: nat := 50
  const NEWEST_BATCH: nat := 1000

  datatype Result<+T, +E> = Ok(value: T) | Err(error: E)

  type Server<!Q, +R, +E> = seq<Q> -> Result<seq<R>, E>

  // ----- chunks -----

  function Chunks<T>(k: nat, xs: seq<T>): (r: seq<seq<T>>)
    requires k > 0
  {
    if xs == [] then []
    else if |xs| <= k then [xs]
    else [xs[..k]] + Chunks(k, xs[k..])
  }

  function Concat<T>(xss: seq<seq<T>>): seq<T>
  {
    if xss == [] then [] else xss[0] + Concat(xss[1..])
  }

  /** The chunks together are the input. */
  lemma {:induction false} ChunksConcat<T>(k: nat, xs: seq<T>)
    requires k > 0
    ensures Concat(Chunks(k, xs)) == xs
  {
    if |xs| > k {
      ChunksConcat(k, xs[k..]);
      assert Chunks(k, xs)[1..] == Chunks(k, xs[k..]);
    } else if |xs| > 0 {
      assert Concat([xs]) == xs;
    }
  }

  /** Chunks are never empty, only the last may be short, and there are as few as possible. */
  lemma {:induction false} ChunksSizes<T>(k: nat, xs: seq<T>)
    requires k > 0
    ensures forall i :: 0 <= i < |Chunks(k, xs)| ==> 1 <= |Chunks(k, xs)[i]| <= k
    ensures forall i :: 0 <= i < |Chunks(k, xs)| - 1 ==> |Chunks(k, xs)[i]| == k
    ensures |xs| <= k * |Chunks(k, xs)| < |xs| + k
  {
    if |xs| > k {
      ChunksSizes(k, xs[k..]);
      assert k * (1 + |Chunks(k, xs[k..])|) == k + k * |Chunks(k, xs[k..])|;
    }
  }

  lemma {:induction false} ConcatAppend<T>(xss: seq<seq<T>>, yss: seq<seq<T>>)
    ensures Concat(xss + yss) == Concat(xss) + Concat(yss)
  {
    if xss == [] {
      assert xss + yss == yss;
    } else {
      assert (xss + yss)[1..] == xss[1..] + yss;
      ConcatAppend(xss[1..], yss);
    }
  }

  lemma ChunksSplit<T>(k: nat, xs: seq<T>, n: nat)
    requires k > 0 && n <= |Chunks(k, xs)|
    ensures Concat(Chunks(k, xs)[..n]) <= xs
  {
    var c := Chunks(k, xs);
    ChunksConcat(k, xs);
    assert c[..n] + c[n..] == c;
    ConcatAppend(c[..n], c[n..]);
  }

  // ----- what a server must be for batching to be invisible -----

  /** Two answers one after the other; the first error wins. */
  function Join<R, E>(a: Result<seq<R>, E>, b: Result<seq<R>, E>): Result<seq<R>, E>
  {
    if a.Err? then a else if b.Err? then b else Ok(a.value + b.value)
  }

  ghost predicate SplitsAt<Q(!new), R, E>(server: Server<Q, R, E>, a: seq<Q>, b: seq<Q>)
  {
    server(a + b) == Join(server(a), server(b))
  }

  /** Splitting a request in two anywhere changes nothing. */
  ghost predicate Separable<Q(!new), R, E>(server: Server<Q, R, E>)
  {
    server([]) == Ok([]) && forall a, b :: SplitsAt(server, a, b)
  }

  /** Splitting off the first k elements changes nothing. */
  ghost predicate SeparableAt<Q(!new), R, E>(server: Server<Q, R, E>, k: nat)
  {
    server([]) == Ok([]) && forall a, b :: |a| == k ==> SplitsAt(server, a, b)
  }

  /** The answers to every element, in order, up to the first error. */
  function Traverse<Q, R, E>(answer: Q -> Result<seq<R>, E>, xs: seq<Q>): Result<seq<R>, E>
  {
    if xs == [] then Ok([]) else Join(answer(xs[0]), Traverse(answer, xs[1..]))
  }

  /** The server answers each element by itself and lists the answers in order. */
  ghost predicate Answers<Q(!new), R, E>(server: Server<Q, R, E>, answer: Q -> Result<seq<R>, E>, xs: seq<Q>)
  {
    server(xs) == Traverse(answer, xs)
  }

  ghost predicate Independent<Q(!new), R, E>(server: Server<Q, R, E>, answer: Q -> Result<seq<R>, E>)
  {
    forall xs :: Answers(server, answer, xs)
  }

  lemma {:induction false} TraverseJoins<Q, R, E>(answer: Q -> Result<seq<R>, E>, a: seq<Q>, b: seq<Q>)
    ensures Traverse(answer, a + b) == Join(Traverse(answer, a), Traverse(answer, b))
  {
    if a == [] {
      assert a + b == b;
      JoinUnit(Traverse(answer, b));
    } else {
      assert (a + b)[1..] == a[1..] + b;
      TraverseJoins(answer, a[1..], b);
      JoinAssoc(answer(a[0]), Traverse(answer, a[1..]), Traverse(answer, b));
    }
  }

  lemma JoinAssoc<R, E>(a: Result<seq<R>, E>, b: Result<seq<R>, E>, c: Result<seq<R>, E>)
    ensures Join(Join(a, b), c) == Join(a, Join(b, c))
  {
    if a.Ok? && b.Ok? && c.Ok? {
      assert (a.value + b.value) + c.value == a.value + (b.value + c.value);
    }
  }

  lemma JoinUnit<R, E>(a: Result<seq<R>, E>)
    ensures Join(a, Ok([])) == a == Join(Ok([]), a)
  {
    if a.Ok? {
      assert a.value + [] == a.value == [] + a.value;
    }
  }

  /** Separable servers are exactly those that answer each element independently and in order. */
  lemma SeparableIffIndependent<Q(!new), R, E>(server: Server<Q, R, E>)
    ensures Separable(server)
            <==> exists answer: Q -> Result<seq<R>, E> :: Independent(server, answer)
  {
    if Separable(server) {
      var single := (q: Q) => server([q]);
      forall xs ensures Answers(server, single, xs) {
        SingletonsDetermine(server, single, xs);
      }
      assert Independent(server, single);
    }
    if answer: Q -> Result<seq<R>, E> :| Independent(server, answer) {
      IndependentIsSeparable(server, answer);
    }
  }

  lemma IndependentIsSeparable<Q(!new), R, E>(server: Server<Q, R, E>, answer: Q -> Result<seq<R>, E>)
    requires Independent(server, answer)
    ensures Separable(server)
  {
    assert Answers(server, answer, []);
    forall a, b ensures SplitsAt(server, a, b) {
      TraverseJoins(answer, a, b);
      assert Answers(server, answer, a) && Answers(server, answer, b) && Answers(server, answer, a + b);
    }
  }

  lemma {:induction false} SingletonsDetermine<Q(!new), R, E>(server: Server<Q, R, E>,
                                                              single: Q -> Result<seq<R>, E>, xs: seq<Q>)
    requires Separable(server) && forall q :: single(q) == server([q])
    ensures Answers(server, single, xs)
  {
    if xs != [] {
      assert xs == [xs[0]] + xs[1..];
      assert SplitsAt(server, [xs[0]], xs[1..]);
      SingletonsDetermine(server, single, xs[1..]);
    }
  }

  lemma TraverseCons<Q, R, E>(answer: Q -> Result<seq<R>, E>, x: Q, rest: seq<Q>)
    ensures Traverse(answer, [x] + rest) == Join(answer(x), Traverse(answer, rest))
  {
    assert ([x] + rest)[1..] == rest;
  }

  /** One request per chunk, in order up to the first error, is one request for everything. */
  lemma {:induction false} ChunkedIsWhole<Q(!new), R, E>(server: Server<Q, R, E>, k: nat, xs: seq<Q>)
    requires k > 0 && SeparableAt(server, k)
    ensures Traverse(server, Chunks(k, xs)) == server(xs)
  {
    if xs == [] {
    } else if |xs| <= k {
      TraverseCons(server, xs, []);
      assert [xs] + [] == [xs];
      JoinUnit(server(xs));
    } else {
      var first, rest := xs[..k], xs[k..];
      TraverseCons(server, first, Chunks(k, rest));
      ChunkedIsWhole(server, k, rest);
      assert SplitsAt(server, first, rest);
      assert first + rest == xs;
    }
  }

  ghost predicate Invisible<Q(!new), R, E>(server: Server<Q, R, E>, k: nat, xs: seq<Q>)
    requires k > 0
  {
    Traverse(server, Chunks(k, xs)) == server(xs)
  }

  /** Batches of one size are invisible, for every input, exactly if the server is separable at that size. */
  lemma BatchingInvisibleIff<Q(!new), R, E>(server: Server<Q, R, E>, k: nat)
    requires k > 0
    ensures (forall xs :: Invisible(server, k, xs)) <==> SeparableAt(server, k)
  {
    if SeparableAt(server, k) {
      forall xs ensures Invisible(server, k, xs) {
        ChunkedIsWhole(server, k, xs);
      }
    }
    if forall xs :: Invisible(server, k, xs) {
      assert Invisible(server, k, []);
      forall a, b | |a| == k ensures SplitsAt(server, a, b) {
        SplitFromBatches(server, k, a, b);
      }
    }
  }

  lemma SplitFromBatches<Q(!new), R, E>(server: Server<Q, R, E>, k: nat, a: seq<Q>, b: seq<Q>)
    requires k > 0 && |a| == k && server([]) == Ok([]) && forall xs :: Invisible(server, k, xs)
    ensures SplitsAt(server, a, b)
  {
    if b == [] {
      assert a + b == a;
      JoinUnit(server(a));
    } else {
      assert (a + b)[..k] == a && (a + b)[k..] == b;
      assert Chunks(k, a + b)[1..] == Chunks(k, b);
      assert Invisible(server, k, a + b) && Invisible(server, k, b);
    }
  }

  /** Being separable at every size is being separable anywhere. */
  lemma SeparableAtEverySize<Q(!new), R, E>(server: Server<Q, R, E>)
    ensures (forall k: nat :: k > 0 ==> SeparableAt(server, k)) <==> Separable(server)
  {
    if forall k: nat :: k > 0 ==> SeparableAt(server, k) {
      assert SeparableAt(server, 1);
      forall a, b ensures SplitsAt(server, a, b) {
        if a == [] {
          assert a + b == b;
          JoinUnit(server(b));
        } else {
          assert SeparableAt(server, |a|);
        }
      }
    }
  }

  // ----- publishing and querying the commit log -----

  /**
   The server's reply may depend on everything sent so far.  The batches sent are the first chunks
   of the requests, all but the last were accepted, and together they are the whole input on
   success and a prefix of it, ended by the batch that was refused, on failure.
   */
  method PublishCommitLog<Q, E>(reply: seq<seq<Q>> -> Option<E>, requests: seq<Q>)
    returns (r: Option<E>, sent: seq<seq<Q>>)
    ensures sent <= Chunks(PUBLISH_BATCH, requests) && Concat(sent) <= requests
    ensures forall i :: 0 <= i < |sent| ==> 1 <= |sent[i]| <= 10
    ensures forall i :: 0 < i < |sent| ==> reply(sent[..i]) == None
    ensures r == None ==> Concat(sent) == requests && (sent != [] ==> reply(sent) == None)
    ensures r.Some? ==> sent != [] && reply(sent) == r
  {
    var batches := Chunks(PUBLISH_BATCH, requests);
    ChunksConcat(PUBLISH_BATCH, requests);
    ChunksSizes(PUBLISH_BATCH, requests);
    sent := [];
    for i := 0 to |batches|
      invariant sent == batches[..i]
      invariant forall j :: 0 < j <= i ==> reply(batches[..j]) == None
    {
      sent := sent + [batches[i]];
      assert sent == batches[..i + 1];
      forall j | 0 < j <= i ensures sent[..j] == batches[..j] {}
      var answer := reply(sent);
      if answer.Some? {
        ChunksSplit(PUBLISH_BATCH, requests, i + 1);
        return answer, sent;
      }
    }
    assert sent == batches;
    forall j | 0 < j <= |sent| ensures reply(sent[..j]) == None {}
    assert sent[..|sent|] == sent;
    r := None;
  }

  /** The same answer as one request for everything, errors included, from a server separable at the batch size. */
  method QueryCommitLog<Q(!new), R, E>(server: Server<Q, R, E>, queries: seq<Q>) returns (r: Result<seq<R>, E>)
    ensures r == Traverse(server, Chunks(QUERY_BATCH, queries))
    ensures SeparableAt(server, QUERY_BATCH) ==> r == server(queries)
  {
    var batches := Chunks(QUERY_BATCH, queries);
    if SeparableAt(server, QUERY_BATCH) {
      ChunkedIsWhole(server, QUERY_BATCH, queries);
    }
    var all: seq<R> := [];
    assert batches[0..] == batches;
    JoinUnit(Traverse(server, batches));
    for i := 0 to |batches|
      invariant Traverse(server, batches) == Join(Ok(all), Traverse(server, batches[i..]))
    {
      assert batches[i..][1..] == batches[i + 1..];
      JoinAssoc(Ok(all), server(batches[i]), Traverse(server, batches[i + 1..]));
      var answer := server(batches[i]);
      if answer.Err? {
        return Err(answer.error);
      }
      all := all + answer.value;
    }
    r := Ok(all);
    JoinUnit(r);
  }

  // ----- concurrent requests -----

  /** An order in which n concurrent requests complete. */
  predicate Completion(order: seq<nat>, n: nat)
  {
    && |order| == n
    && (forall i :: 0 <= i < n ==> order[i] < n)
    && (forall j: nat :: j < n ==> j in order)
  }

  /** The request that completes p-th is the first that fails. */
  ghost predicate FirstAt<R, E>(answers: seq<Result<R, E>>, order: seq<nat>, p: nat)
    requires forall i :: 0 <= i < |order| ==> order[i] < |answers|
  {
    p < |order| && answers[order[p]].Err? && forall q :: 0 <= q < p ==> answers[order[q]].Ok?
  }

  function FirstFailure<R, E>(answers: seq<Result<R, E>>, order: seq<nat>): (r: Option<nat>)
    requires forall i :: 0 <= i < |order| ==> order[i] < |answers|
    ensures r.Some? ==> exists p :: 0 <= p < |order| && FirstAt(answers, order, p) && order[p] == r.value
    ensures r.None? ==> forall j :: j in order ==> answers[j].Ok?
  {
    if order == [] then None
    else if answers[order[0]].Err? then
      assert FirstAt(answers, order, 0);
      Some(order[0])
    else
      var r := FirstFailure(answers, order[1..]);
      assert r.Some? ==> exists p :: 0 <= p < |order| && FirstAt(answers, order, p) && order[p] == r.value by {
        if r.Some? {
          var p :| 0 <= p < |order[1..]| && FirstAt(answers, order[1..], p) && order[1..][p] == r.value;
          assert FirstAt(answers, order, p + 1);
        }
      }
      r
  }

  function Values<R, E>(answers: seq<Result<R, E>>): seq<R>
    requires forall i :: 0 <= i < |answers| ==> answers[i].Ok?
  {
    if answers == [] then [] else [answers[0].value] + Values(answers[1..])
  }

  /** try_join_all: the error that completes first, or every value in the order of the requests. */
  function TryJoinAll<R, E>(answers: seq<Result<R, E>>, order: seq<nat>): (r: Result<seq<R>, E>)
    requires Completion(order, |answers|)
  {
    var failure := FirstFailure(answers, order);
    if failure.Some? then Err(answers[failure.value].error)
    else Ok(Values(answers))
  }

  function Ask<Q, R, E>(server: Server<Q, R, E>, chunks: seq<seq<Q>>): (r: seq<Result<seq<R>, E>>)
    ensures |r| == |chunks|
  {
    seq(|chunks|, i requires 0 <= i < |chunks| => server(chunks[i]))
  }

  /** The chunks asked concurrently, and the responses flattened. */
  function Gather<Q, R, E>(server: Server<Q, R, E>, k: nat, xs: seq<Q>, order: seq<nat>): Result<seq<R>, E>
    requires k > 0 && Completion(order, |Chunks(k, xs)|)
  {
    var answers := TryJoinAll(Ask(server, Chunks(k, xs)), order);
    if answers.Err? then Err(answers.error) else Ok(Concat(answers.value))
  }

  lemma {:induction false} AllAnswered<Q, R, E>(server: Server<Q, R, E>, chunks: seq<seq<Q>>)
    ensures Traverse(server, chunks).Ok? <==> forall i :: 0 <= i < |chunks| ==> server(chunks[i]).Ok?
    ensures Traverse(server, chunks).Ok? ==> Traverse(server, chunks).value == Concat(Values(Ask(server, chunks)))
  {
    if chunks != [] {
      var rest := chunks[1..];
      AllAnswered(server, rest);
      assert forall i :: 0 < i < |chunks| ==> chunks[i] == rest[i - 1];
      assert Ask(server, chunks)[1..] == Ask(server, rest);
    }
  }

  /**
   However the concurrent requests complete, a server separable at the chunk size gives the same
   result as one request for everything; of several errors the first to complete is reported.
   */
  lemma GatherIsWhole<Q(!new), R, E>(server: Server<Q, R, E>, k: nat, xs: seq<Q>, order: seq<nat>)
    requires k > 0 && SeparableAt(server, k) && Completion(order, |Chunks(k, xs)|)
    ensures Gather(server, k, xs, order).Ok? <==> server(xs).Ok?
    ensures server(xs).Ok? ==> Gather(server, k, xs, order) == server(xs)
    ensures server(xs).Err? ==>
              exists p :: 0 <= p < |order| && FirstAt(Ask(server, Chunks(k, xs)), order, p)
                && server(Chunks(k, xs)[order[p]]) == Gather(server, k, xs, order)
  {
    var chunks := Chunks(k, xs);
    var answers := Ask(server, chunks);
    ChunkedIsWhole(server, k, xs);
    AllAnswered(server, chunks);
    var failure := FirstFailure(answers, order);
    if failure.Some? {
      var p :| 0 <= p < |order| && FirstAt(answers, order, p) && order[p] == failure.value;
      assert server(chunks[order[p]]) == Gather(server, k, xs, order);
    } else {
      forall i: nat | i < |chunks| ensures server(chunks[i]).Ok? {
        assert i in order && answers[i].Ok?;
      }
    }
  }

  // ----- identity updates -----

  datatype InboxUpdates<U> = InboxUpdates(inboxId: string, updates: seq<U>)

  /** Conversion of one update, as a one-element answer. */
  function ConvertItem<U, V, E>(convert: U -> Result<V, E>, item: InboxUpdates<U>): Result<seq<InboxUpdates<V>>, E>
  {
    var one := (u: U) => var c := convert(u); if c.Ok? then Ok([c.value]) else Err(c.error);
    var converted := Traverse(one, item.updates);
    if converted.Ok? then Ok([InboxUpdates(item.inboxId, converted.value)]) else Err(converted.error)
  }

  function ConvertAll<U, V, E>(convert: U -> Result<V, E>, items: seq<InboxUpdates<U>>): Result<seq<InboxUpdates<V>>, E>
  {
    Traverse((item: InboxUpdates<U>) => ConvertItem(convert, item), items)
  }

  function GetIdentityUpdates<Q, U, V, E>(server: Server<Q, InboxUpdates<U>, E>, convert: U -> Result<V, E>,
                                          filters: seq<Q>, order: seq<nat>): Result<seq<InboxUpdates<V>>, E>
    requires Completion(order, |Chunks(IDENTITY_CHUNK, filters)|)
  {
    if filters == [] then Ok([])
    else
      var items := Gather(server, IDENTITY_CHUNK, filters, order);
      if items.Err? then Err(items.error) else ConvertAll(convert, items.value)
  }

  /** Every update of the first n items converts. */
  ghost predicate Converts<U, V, E>(convert: U -> Result<V, E>, items: seq<InboxUpdates<U>>, n: nat)
    requires n <= |items|
  {
    forall i, j :: 0 <= i < n && 0 <= j < |items[i].updates| ==> convert(items[i].updates[j]).Ok?
  }

  /** Update j of item i is the first, in order, that does not convert. */
  ghost predicate FailsAt<U, V, E>(convert: U -> Result<V, E>, items: seq<InboxUpdates<U>>, i: nat, j: nat)
  {
    && i < |items| && j < |items[i].updates| && convert(items[i].updates[j]).Err?
    && Converts(convert, items, i)
    && forall k :: 0 <= k < j ==> convert(items[i].updates[k]).Ok?
  }

  /** An item converted: the same inbox, and each update converted in its place. */
  ghost predicate ConvertedItem<U, V, E>(convert: U -> Result<V, E>, item: InboxUpdates<U>, r: InboxUpdates<V>)
  {
    && r.inboxId == item.inboxId && |r.updates| == |item.updates|
    && forall j :: 0 <= j < |item.updates| ==> convert(item.updates[j]) == Ok(r.updates[j])
  }

  /** What the conversion of a list of items means. */
  ghost predicate Converted<U, V, E>(convert: U -> Result<V, E>, items: seq<InboxUpdates<U>>,
                                     r: Result<seq<InboxUpdates<V>>, E>)
  {
    match r
    case Ok(out) =>
      |out| == |items| && forall i :: 0 <= i < |items| ==> ConvertedItem(convert, items[i], out[i])
    case Err(e) => exists i: nat, j: nat :: FailsAt(convert, items, i, j) && convert(items[i].updates[j]) == Err(e)
  }

  /** The updates of one item. */
  lemma {:induction false} TraverseConverts<U, V, E>(convert: U -> Result<V, E>, one: U -> Result<seq<V>, E>,
                                                     us: seq<U>)
    requires forall u :: one(u) == var c := convert(u); if c.Ok? then Ok([c.value]) else Err(c.error)
    ensures match Traverse(one, us)
            case Ok(vs) => |vs| == |us| && forall j :: 0 <= j < |us| ==> convert(us[j]) == Ok(vs[j])
            case Err(e) =>
              exists j :: 0 <= j < |us| && convert(us[j]) == Err(e) && forall k :: 0 <= k < j ==> convert(us[k]).Ok?
  {
    if us != [] {
      TraverseConverts(convert, one, us[1..]);
      var rest := Traverse(one, us[1..]);
      if convert(us[0]).Err? {
        assert convert(us[0]) == Err(convert(us[0]).error);
      } else if rest.Err? {
        var j :| 0 <= j < |us[1..]| && convert(us[1..][j]) == Err(rest.error)
                 && forall k :: 0 <= k < j ==> convert(us[1..][k]).Ok?;
        assert convert(us[j + 1]) == Err(rest.error);
        assert forall k :: 0 < k < j + 1 ==> us[k] == us[1..][k - 1];
      } else {
        assert forall k :: 0 < k < |us| ==> us[k] == us[1..][k - 1];
      }
    }
  }

  lemma ItemConverts<U, V, E>(convert: U -> Result<V, E>, item: InboxUpdates<U>)
    ensures match ConvertItem(convert, item)
            case Ok(out) => |out| == 1 && ConvertedItem(convert, item, out[0])
            case Err(e) =>
              exists j :: 0 <= j < |item.updates| && convert(item.updates[j]) == Err(e)
                && forall k :: 0 <= k < j ==> convert(item.updates[k]).Ok?
  {
    var one := (u: U) => var c := convert(u); if c.Ok? then Ok([c.value]) else Err(c.error);
    TraverseConverts(convert, one, item.updates);
  }

  lemma {:induction false} ItemsConvert<U, V, E>(convert: U -> Result<V, E>, items: seq<InboxUpdates<U>>)
    ensures Converted(convert, items, ConvertAll(convert, items))
  {
    if items != [] {
      var first, rest := ConvertItem(convert, items[0]), ConvertAll(convert, items[1..]);
      ItemConverts(convert, items[0]);
      ItemsConvert(convert, items[1..]);
      if first.Err? {
        var j :| 0 <= j < |items[0].updates| && convert(items[0].updates[j]) == Err(first.error)
                 && forall k :: 0 <= k < j ==> convert(items[0].updates[k]).Ok?;
        assert FailsAt(convert, items, 0, j);
      } else if rest.Err? {
        var tail := items[1..];
        var i: nat, j: nat :| FailsAt(convert, tail, i, j) && convert(tail[i].updates[j]) == Err(rest.error);
        FailsLater(convert, items, first.value[0], i, j);
      } else {
        var out := first.value + rest.value;
        forall i | 0 <= i < |items| ensures ConvertedItem(convert, items[i], out[i]) {
          assert i > 0 ==> items[i] == items[1..][i - 1] && out[i] == rest.value[i - 1];
        }
      }
    }
  }

  lemma FailsLater<U, V, E>(convert: U -> Result<V, E>, items: seq<InboxUpdates<U>>, first: InboxUpdates<V>,
                            i: nat, j: nat)
    requires items != [] && ConvertedItem(convert, items[0], first) && FailsAt(convert, items[1..], i, j)
    ensures FailsAt(convert, items, i + 1, j) && items[i + 1] == items[1..][i]
  {
    forall x, y | 0 <= x < i + 1 && 0 <= y < |items[x].updates| ensures convert(items[x].updates[y]).Ok? {
      assert x > 0 ==> items[x] == items[1..][x - 1];
    }
  }

  /**
   Chunked and concurrent, the call gives what one request followed by conversion gives: one entry
   for each item, in order, with its inbox and its updates converted, or the error of the first
   update that does not convert.  If the server refuses, it gives the error of the refused chunk that
   completes first.
   */
  lemma IdentityUpdatesUnchunked<Q(!new), U, V, E>(server: Server<Q, InboxUpdates<U>, E>, convert: U -> Result<V, E>,
                                                   filters: seq<Q>, order: seq<nat>)
    requires SeparableAt(server, IDENTITY_CHUNK) && Completion(order, |Chunks(IDENTITY_CHUNK, filters)|)
    ensures server(filters).Ok? ==>
              var items, r := server(filters).value, GetIdentityUpdates(server, convert, filters, order);
              Converted(convert, items, r) && (r.Ok? <==> Converts(convert, items, |items|))
    ensures server(filters).Err? ==>
              exists p :: 0 <= p < |order| && FirstAt(Ask(server, Chunks(IDENTITY_CHUNK, filters)), order, p)
                && server(Chunks(IDENTITY_CHUNK, filters)[order[p]]).Err?
                && GetIdentityUpdates(server, convert, filters, order)
                == Err(server(Chunks(IDENTITY_CHUNK, filters)[order[p]]).error)
  {
    GatherIsWhole(server, IDENTITY_CHUNK, filters, order);
    if server(filters).Ok? {
      ItemsConvert(convert, server(filters).value);
      ConvertedIff(convert, server(filters).value, GetIdentityUpdates(server, convert, filters, order));
    }
  }

  /** It succeeds exactly if every update converts. */
  lemma ConvertedIff<U, V, E>(convert: U -> Result<V, E>, items: seq<InboxUpdates<U>>,
                              r: Result<seq<InboxUpdates<V>>, E>)
    requires Converted(convert, items, r)
    ensures r.Ok? <==> Converts(convert, items, |items|)
  {
    if r.Ok? {
      forall i, j | 0 <= i < |items| && 0 <= j < |items[i].updates| ensures convert(items[i].updates[j]).Ok? {
        assert ConvertedItem(convert, items[i], r.value[i]);
      }
    } else {
      var i: nat, j: nat :| FailsAt(convert, items, i, j) && convert(items[i].updates[j]) == Err(r.error);
    }
  }

  // ----- newest messages -----

  datatype Message<G, B> = Message(group: G, body: B)

  /** Collecting pairs into a map: a later pair for the same key replaces an earlier one. */
  function Collect<K, V>(pairs: seq<(K, V)>): map<K, V>
  {
    if pairs == [] then map[]
    else var last := pairs[|pairs| - 1]; Collect(pairs[..|pairs| - 1])[last.0 := last.1]
  }

  ghost predicate LastFor<K, V>(pairs: seq<(K, V)>, k: K, i: nat)
  {
    i < |pairs| && pairs[i].0 == k && forall j :: i < j < |pairs| ==> pairs[j].0 != k
  }

  /** A key is in the map exactly when some pair has it, and holds the value of the last such pair. */
  lemma {:induction false} CollectLast<K, V>(pairs: seq<(K, V)>, k: K)
    ensures k in Collect(pairs) <==> exists i :: 0 <= i < |pairs| && pairs[i].0 == k
    ensures forall i: nat :: LastFor(pairs, k, i) ==> k in Collect(pairs) && Collect(pairs)[k] == pairs[i].1
  {
    if pairs != [] {
      var n := |pairs| - 1;
      CollectLast(pairs[..n], k);
      if pairs[n].0 != k {
        assert forall i :: 0 <= i < n ==> pairs[..n][i] == pairs[i];
        forall i: nat | LastFor(pairs, k, i) ensures LastFor(pairs[..n], k, i) {}
        if k in Collect(pairs) {
          var i :| 0 <= i < n && pairs[..n][i].0 == k;
          assert pairs[i].0 == k;
        }
      }
    }
  }

  function Present<G, B>(responses: seq<Option<Message<G, B>>>): seq<(G, Message<G, B>)>
  {
    if responses == [] then []
    else
      (if responses[0].Some? then [(responses[0].value.group, responses[0].value)] else []) + Present(responses[1..])
  }

  function GetNewestMessageMetadata<G, B, E>(server: Server<G, Option<Message<G, B>>, E>, groups: seq<G>,
                                             order: seq<nat>): Result<map<G, Message<G, B>>, E>
    requires Completion(order, |Chunks(NEWEST_BATCH, groups)|)
  {
    var responses := Gather(server, NEWEST_BATCH, groups, order);
    if responses.Err? then Err(responses.error) else Ok(Collect(Present(responses.value)))
  }

  lemma NewestUnchunked<G(!new), B, E>(server: Server<G, Option<Message<G, B>>, E>, groups: seq<G>, order: seq<nat>)
    requires SeparableAt(server, NEWEST_BATCH) && Completion(order, |Chunks(NEWEST_BATCH, groups)|)
    ensures server(groups).Ok? ==>
              GetNewestMessageMetadata(server, groups, order) == Ok(Collect(Present(server(groups).value)))
    ensures server(groups).Err? ==>
              exists p :: 0 <= p < |order| && FirstAt(Ask(server, Chunks(NEWEST_BATCH, groups)), order, p)
                && server(Chunks(NEWEST_BATCH, groups)[order[p]]).Err?
                && GetNewestMessageMetadata(server, groups, order)
                == Err(server(Chunks(NEWEST_BATCH, groups)[order[p]]).error)
  {
    GatherIsWhole(server, NEWEST_BATCH, groups, order);
  }

  /** Every group answered with that group's newest message, if it has one. */
  function Newest<G, B, E>(newest: G -> Option<B>): G -> Result<seq<Option<Message<G, B>>>, E>
  {
    (g: G) => Ok([if newest(g).Some? then Some(Message(g, newest(g).value)) else None])
  }

  lemma {:induction false} PresentNewest<G(!new), B(!new), E>(answer: G -> Result<seq<Option<Message<G, B>>>, E>,
                                                              newest: G -> Option<B>, groups: seq<G>)
    requires answer == Newest(newest)
    ensures Traverse(answer, groups).Ok?
    ensures forall p :: p in Present(Traverse(answer, groups).value) <==>
              p.0 in groups && newest(p.0).Some? && p.1 == Message(p.0, newest(p.0).value)
  {
    if groups != [] {
      PresentNewest(answer, newest, groups[1..]);
      assert Traverse(answer, groups).value[1..] == Traverse(answer, groups[1..]).value;
      assert groups == [groups[0]] + groups[1..];
    }
  }

  /** Then the map holds exactly the groups asked for that have a message, each with its own newest one. */
  lemma NewestIsPerGroup<G(!new), B(!new), E>(server: Server<G, Option<Message<G, B>>, E>, newest: G -> Option<B>,
                                              groups: seq<G>, order: seq<nat>)
    requires Independent(server, Newest(newest)) && Completion(order, |Chunks(NEWEST_BATCH, groups)|)
    ensures GetNewestMessageMetadata(server, groups, order)
         == Ok(map g | g in groups && newest(g).Some? :: Message(g, newest(g).value))
  {
    IndependentIsSeparable(server, Newest(newest));
    NewestUnchunked(server, groups, order);
    assert Answers(server, Newest(newest), groups);
    PresentNewest(Newest<G, B, E>(newest), newest, groups);
    CollectAgrees(Present(server(groups).value), map g | g in groups && newest(g).Some? :: Message(g, newest(g).value));
  }

  /** Pairs that are the entries of a map, in any order and number, collect into it. */
  lemma CollectAgrees<K, V>(pairs: seq<(K, V)>, m: map<K, V>)
    requires forall p :: p in pairs <==> p.0 in m && m[p.0] == p.1
    ensures Collect(pairs) == m
  {
    forall k ensures k in Collect(pairs) <==> k in m {
      CollectLast(pairs, k);
      if k in m {
        assert (k, m[k]) in pairs;
      }
    }
    forall k | k in Collect(pairs) ensures k in m && Collect(pairs)[k] == m[k] {
      CollectFrom(pairs, k);
    }
  }

  lemma {:induction false} CollectFrom<K, V>(pairs: seq<(K, V)>, k: K)
    requires k in Collect(pairs)
    ensures (k, Collect(pairs)[k]) in pairs
  {
    var n := |pairs| - 1;
    if pairs[n].0 != k {
      CollectFrom(pairs[..n], k);
    }
  }

  // ----- key packages -----

  datatype FetchError<E> = Api(error: E) | MismatchedKeyPackages(keyPackages: nat, installationKeys: nat)

  function Zip<K, V>(ks: seq<K>, vs: seq<V>): (r: seq<(K, V)>)
    requires |ks| == |vs|
  {
    seq(|ks|, i requires 0 <= i < |ks| => (ks[i], vs[i]))
  }

  function FetchKeyPackages<K, P, E>(server: Server<K, P, E>, keys: seq<K>): Result<map<K, P>, FetchError<E>>
  {
    if keys == [] then Ok(map[])
    else
      var packages := server(keys);
      if packages.Err? then Err(Api(packages.error))
      else if |packages.value| != |keys| then Err(MismatchedKeyPackages(|packages.value|, |keys|))
      else Ok(Collect(Zip(keys, packages.value)))
  }

  /** A successful fetch holds exactly the keys asked for, each with the package listed at its last place. */
  lemma KeyPackagesByKey<K, P, E>(server: Server<K, P, E>, keys: seq<K>)
    ensures FetchKeyPackages(server, keys).Ok?
            <==> keys == [] || (server(keys).Ok? && |server(keys).value| == |keys|)
    ensures keys != [] && server(keys).Err? ==> FetchKeyPackages(server, keys) == Err(Api(server(keys).error))
    ensures keys != [] && server(keys).Ok? && |server(keys).value| != |keys| ==>
              FetchKeyPackages(server, keys)
              == Err(MismatchedKeyPackages(keyPackages := |server(keys).value|, installationKeys := |keys|))
    ensures FetchKeyPackages(server, keys).Ok? ==>
              var m := FetchKeyPackages(server, keys).value;
              && (forall k :: k in m <==> k in keys)
              && forall i: nat ::
                   i < |keys| && (forall j :: i < j < |keys| ==> keys[j] != keys[i]) ==>
                     m[keys[i]] == server(keys).value[i]
  {
    if keys != [] && FetchKeyPackages(server, keys).Ok? {
      var pairs := Zip(keys, server(keys).value);
      var m := Collect(pairs);
      forall k ensures k in m <==> k in keys {
        CollectLast(pairs, k);
        if k in keys {
          var i :| 0 <= i < |keys| && keys[i] == k;
          assert pairs[i].0 == k;
        }
      }
      forall i: nat | i < |keys| && (forall j :: i < j < |keys| ==> keys[j] != keys[i])
        ensures m[keys[i]] == server(keys).value[i]
      {
        CollectLast(pairs, keys[i]);
        assert LastFor(pairs, keys[i], i);
      }
    }
  }
}
