/**
 * The result collector (`Collector.php`): a table of results keyed by the
 * caller's keys, filled by a queue whose callback is `processPage`.
 *
 * `processPage` only writes `data` and only reads `requests`, and the
 * queue neither reads those nor looks at what the callback returns, so
 * `run` is modelled as the queue's `execute` followed by `processPage`
 * for each callback invocation, in the order of the invocations.
 */
module Collecting {
  import opened Php
  import opened Curl
  import opened Net
  import opened Scheduler
  import opened Queueing

  /** An element of the array given to `run`: a request, or some other value. */
  datatype Element = Req(request: Curl.Request) | NotRequest(value: Value)

  /** The exception `run` throws for an element that is not a request. */
  const NotARequest: Exception := Exception("The request must be instance of the \\RollingCurl\\Exception")

  /** `array($this, 'processPage')` as the queue sees it: callable, and it never throws. */
  function Recording(): Callback {
    Callable((k, reply, request) => None)
  }

  /**
   * `list($key, ) = array_keys($this->requests, $request)`: the first key
   * under which an equal request is registered; when there is none `$key`
   * is `null`, which as an array key is the empty string.
   */
  function PageKey(requests: Assoc<Curl.Request>, request: Curl.Request): (key: Key)
    ensures (exists i :: 0 <= i < |requests| && requests[i].1 == request) ==> Get(requests, key) == Some(request)
    ensures (exists i :: 0 <= i < |requests| && requests[i].1 == request) ==>
              exists i :: 0 <= i < |requests| && requests[i] == (key, request)
                && forall j :: 0 <= j < i ==> requests[j].1 != request
    ensures (forall i :: 0 <= i < |requests| ==> requests[i].1 != request) ==> key == StrKey("")
  {
    match FirstKeyOf(requests, request)
    case Some(k) =>
      var i :| 0 <= i < |requests| && requests[i] == (k, request) && forall j :: 0 <= j < i ==> requests[j].1 != request;
      GetAt(requests, i);
      k
    case None => StrKey("")
  }

  /** What `processPage` stores: `false` for a status other than 200, the response itself otherwise. */
  function Stored(response: Value, info: Info): (v: Value)
    ensures info.httpCode != 200 ==> v == Bool(false)
    ensures info.httpCode == 200 ==> v == response
  {
    if info.httpCode != 200 then Bool(false) else response
  }

  /**
   * `processPage($response, $info, $request)` on the table `data`: the
   * entry at the request's key is set, and every other entry is kept.
   */
  function Store(data: Assoc<Value>, requests: Assoc<Curl.Request>, response: Value, info: Info,
                 request: Curl.Request): (d: Assoc<Value>)
    ensures Keys(d) == Keys(data) + {PageKey(requests, request)}
    ensures forall k :: Get(d, k) == if k == PageKey(requests, request) then Some(Stored(response, info)) else Get(data, k)
  {
    var key := PageKey(requests, request);
    var d := Assign(data, key, Stored(response, info));
    forall k ensures Get(d, k) == if k == key then Some(Stored(response, info)) else Get(data, k) {
      GetAssign(data, key, Stored(response, info), k);
    }
    d
  }

  /** The response the callback is given: `curl_exec`'s output on the single path, the content on the rolling one. */
  function Response(reply: Reply, single: bool): Value {
    if single then Output(reply) else Content(reply)
  }

  /** The table after `processPage` for each invocation in `calls`, in order. */
  function Pages(data: Assoc<Value>, requests: Assoc<Curl.Request>, calls: seq<Call>, single: bool): Assoc<Value>
    decreases |calls|
  {
    if calls == [] then data
    else
      var c := Last(calls);
      Store(Pages(data, requests, calls[..|calls| - 1], single), requests, Response(c.reply, single), c.reply.info, c.request)
  }

  /** One more invocation stores one more page. */
  lemma PagesStep(data: Assoc<Value>, requests: Assoc<Curl.Request>, calls: seq<Call>, k: nat, single: bool)
    requires k < |calls|
    ensures Pages(data, requests, calls[..k + 1], single) ==
            Store(Pages(data, requests, calls[..k], single), requests, Response(calls[k].reply, single),
                  calls[k].reply.info, calls[k].request)
  {
    assert calls[..k + 1][..k] == calls[..k];
    assert Last(calls[..k + 1]) == calls[k];
  }

  /**
   * The leading elements of `run`'s argument that are requests: the ones
   * `run` registers and queues before it reaches a non-request, if any.
   */
  function Accepted(elements: seq<(Key, Element)>): (acc: seq<(Key, Curl.Request)>)
    ensures |acc| <= |elements|
    ensures forall i :: 0 <= i < |acc| ==> elements[i] == (acc[i].0, Req(acc[i].1))
    ensures |acc| < |elements| ==> elements[|acc|].1.NotRequest?
  {
    if elements == [] || elements[0].1.NotRequest? then []
    else [(elements[0].0, elements[0].1.request)] + Accepted(elements[1..])
  }

  /** `$this->requests[$key] = $request` for each pair, in order. */
  function Register(requests: Assoc<Curl.Request>, pairs: seq<(Key, Curl.Request)>): Assoc<Curl.Request>
    decreases |pairs|
  {
    if pairs == [] then requests
    else Assign(Register(requests, pairs[..|pairs| - 1]), Last(pairs).0, Last(pairs).1)
  }

  /** The requests of the pairs, in order. */
  function Queued(pairs: seq<(Key, Curl.Request)>): (r: seq<Curl.Request>)
    ensures |r| == |pairs| && forall i :: 0 <= i < |pairs| ==> r[i] == pairs[i].1
  {
    if pairs == [] then [] else Queued(pairs[..|pairs| - 1]) + [Last(pairs).1]
  }

  /** The request last registered under `k` by the pairs, if any. */
  function LastFor(pairs: seq<(Key, Curl.Request)>, k: Key): Option<Curl.Request>
    decreases |pairs|
  {
    if pairs == [] then None
    else if Last(pairs).0 == k then Some(Last(pairs).1)
    else LastFor(pairs[..|pairs| - 1], k)
  }

  /**
   * After registering the pairs, a key holds the request it was last
   * registered with, and a key none of them names holds what it held.
   */
  lemma {:induction false} RegisterAt(requests: Assoc<Curl.Request>, pairs: seq<(Key, Curl.Request)>, k: Key)
    ensures Get(Register(requests, pairs), k) == if LastFor(pairs, k).Some? then LastFor(pairs, k) else Get(requests, k)
    decreases |pairs|
  {
    if pairs != [] {
      RegisterAt(requests, pairs[..|pairs| - 1], k);
      GetAssign(Register(requests, pairs[..|pairs| - 1]), Last(pairs).0, Last(pairs).1, k);
    }
  }

  /**
   * A key that is not the key of any invocation's request keeps its
   * entry: results are only stored under the keys the requests are
   * registered with (or the empty key).
   */
  lemma {:induction false} PagesElsewhere(data: Assoc<Value>, requests: Assoc<Curl.Request>, calls: seq<Call>, single: bool,
                                          k: Key)
    requires forall i :: 0 <= i < |calls| ==> PageKey(requests, calls[i].request) != k
    ensures Get(Pages(data, requests, calls, single), k) == Get(data, k)
    decreases |calls|
  {
    if calls != [] {
      var init := calls[..|calls| - 1];
      assert forall i :: 0 <= i < |init| ==> init[i] == calls[i];
      PagesElsewhere(data, requests, init, single, k);
    }
  }

  /**
   * The entry an invocation stores survives unless a later invocation
   * stores under the same key: the last invocation for a key decides its
   * entry.
   */
  lemma {:induction false} PagesLastWins(data: Assoc<Value>, requests: Assoc<Curl.Request>, calls: seq<Call>, single: bool,
                                         n: nat)
    requires n < |calls|
    requires forall i :: n < i < |calls| ==> PageKey(requests, calls[i].request) != PageKey(requests, calls[n].request)
    ensures Get(Pages(data, requests, calls, single), PageKey(requests, calls[n].request))
            == Some(Stored(Response(calls[n].reply, single), calls[n].reply.info))
    decreases |calls|
  {
    var init := calls[..|calls| - 1];
    if n < |calls| - 1 {
      assert forall i :: 0 <= i < |init| ==> init[i] == calls[i];
      PagesLastWins(data, requests, init, single, n);
    }
  }

  /** The element after `j` accepted ones is accepted too when it is a request. */
  lemma AcceptedNext(elements: seq<(Key, Element)>, j: nat)
    requires j < |elements| && elements[j].1.Req?
    requires forall i :: 0 <= i < j ==> elements[i].1.Req?
    ensures j < |Accepted(elements)| && Accepted(elements)[j] == (elements[j].0, elements[j].1.request)
  {
    var acc := Accepted(elements);
    assert |acc| < |elements| ==> elements[|acc|].1.NotRequest?;
  }

  /** Accepting the element after `j` accepted ones registers and queues its request last. */
  lemma AcceptedStep(requests: Assoc<Curl.Request>, elements: seq<(Key, Element)>, j: nat)
    requires j < |elements| && elements[j].1.Req?
    requires forall i :: 0 <= i < j ==> elements[i].1.Req?
    ensures j < |Accepted(elements)|
    ensures Register(requests, Accepted(elements)[..j + 1]) ==
            Assign(Register(requests, Accepted(elements)[..j]), elements[j].0, elements[j].1.request)
    ensures Queued(Accepted(elements)[..j + 1]) == Queued(Accepted(elements)[..j]) + [elements[j].1.request]
  {
    var acc := Accepted(elements);
    AcceptedNext(elements, j);
    assert acc[..j + 1][..j] == acc[..j];
    assert Last(acc[..j + 1]) == acc[j];
  }

  /** Once every element up to a non-request (or the end) is accepted, the accepted prefix is all of them. */
  lemma AcceptedAll(elements: seq<(Key, Element)>, j: nat)
    requires j <= |elements| && j <= |Accepted(elements)|
    requires j == |elements| || elements[j].1.NotRequest?
    ensures Accepted(elements)[..j] == Accepted(elements)
  {
  }

  class Collector {
    var data: Assoc<Value>
    var requests: Assoc<Curl.Request>
    const queue: Queue

    /** The queue is consistent and its callback is `processPage`. */
    ghost predicate Valid()
      reads this, queue
    {
      queue.Valid() && queue.callback == Recording()
    }

    /** `new Collector()`: an empty table and a fresh queue calling back `processPage`. */
    constructor(first: Handle)
      ensures Valid() && fresh(queue)
      ensures data == [] && requests == []
      ensures queue.requests == [] && queue.requestMap == map[] && queue.windowSize == 20 && queue.nextHandle == first
    {
      data := [];
      requests := [];
      queue := new Queue(Recording(), first);
    }

    /**
     * `processPage($response, $info, $request)`: stores `false` under the
     * request's key when the status is not 200, and the response itself
     * (even `null` or empty) when it is.
     */
    method ProcessPage(response: Value, info: Info, request: Curl.Request)
      modifies this
      ensures data == Store(old(data), requests, response, info, request)
      ensures requests == old(requests)
    {
      var key := PageKey(requests, request);
      if info.httpCode != 200 {
        data := Assign(data, key, Bool(false));
      } else {
        data := Assign(data, key, response);
      }
    }

    /** `addRequest($key, $request)`: registers the request under the key; the queue is not touched. */
    method AddRequest(key: Key, request: Curl.Request)
      modifies this
      ensures requests == Assign(old(requests), key, request)
      ensures data == old(data)
    {
      requests := Assign(requests, key, request);
    }

    /**
     * `run($requests)`: registers and queues each element in order; at the
     * first element that is not a request it throws, and `execute` is not
     * reached. Otherwise it calls `execute()` once, and the callback
     * stores each result.
     */
    method Run(elements: Assoc<Element>, safeModeOff: bool, t: Transport) returns (thrown: Option<Exception>)
      requires Valid() && Net.Valid(t)
      modifies this, queue
      ensures Valid()
      ensures requests == Register(old(requests), Accepted(elements))
      ensures queue.options == old(queue.options) && queue.headers == old(queue.headers)
      ensures queue.timeout == old(queue.timeout)
      ensures |Accepted(elements)| < |elements| ==>
        && thrown == Some(NotARequest) && data == old(data)
        && queue.requests == old(queue.requests) + Queued(Accepted(elements))
        && queue.windowSize == old(queue.windowSize)
        && queue.requestMap == old(queue.requestMap) && queue.nextHandle == old(queue.nextHandle)
      ensures |Accepted(elements)| == |elements| ==>
        var batch := old(queue.requests) + Queued(Accepted(elements));
        var e := Scheduler.Execute(batch, old(queue.windowSize), None, old(queue.Setup(safeModeOff)), Recording(), t,
                                   old(queue.requestMap), old(queue.nextHandle));
        && queue.requests == e.requests && queue.windowSize == e.window
        && queue.requestMap == e.requestMap && queue.nextHandle == e.next
        && data == Pages(old(data), requests, e.calls, |batch| == 1)
        && thrown == (if e.outcome.Threw? then Some(e.outcome.error) else None)
    {
      var complete := Enqueue(elements);
      if !complete {
        return Some(NotARequest);
      }
      var single := |queue.requests| == 1;
      var outcome, calls := queue.Execute(None, safeModeOff, t);
      Replay(calls, single);
      thrown := if outcome.Threw? then Some(outcome.error) else None;
    }

    /**
     * The `foreach` loop of `run`: registers and queues the elements in
     * order, and stops at the first element that is not a request.
     */
    method Enqueue(elements: Assoc<Element>) returns (complete: bool)
      requires Valid()
      modifies this, queue
      ensures Valid() && data == old(data)
      ensures complete <==> |Accepted(elements)| == |elements|
      ensures requests == Register(old(requests), Accepted(elements))
      ensures queue.requests == old(queue.requests) + Queued(Accepted(elements))
      ensures queue.windowSize == old(queue.windowSize) && queue.options == old(queue.options)
      ensures queue.headers == old(queue.headers) && queue.timeout == old(queue.timeout)
      ensures queue.requestMap == old(queue.requestMap) && queue.nextHandle == old(queue.nextHandle)
    {
      ghost var acc := Accepted(elements);
      var j := 0;
      while j < |elements|
        invariant j <= |elements|
        invariant Valid() && data == old(data)
        invariant forall i :: 0 <= i < j ==> elements[i].1.Req?
        invariant j <= |acc|
        invariant requests == Register(old(requests), acc[..j])
        invariant queue.requests == old(queue.requests) + Queued(acc[..j])
        invariant queue.windowSize == old(queue.windowSize) && queue.options == old(queue.options)
        invariant queue.headers == old(queue.headers) && queue.timeout == old(queue.timeout)
        invariant queue.requestMap == old(queue.requestMap) && queue.nextHandle == old(queue.nextHandle)
      {
        var (key, element) := elements[j];
        if element.NotRequest? {
          AcceptedAll(elements, j);
          return false;
        }
        AcceptedStep(old(requests), elements, j);
        ghost var queued := Queued(acc[..j]);
        Accept(key, element.request);
        assert queue.requests == old(queue.requests) + (queued + [element.request]);
        j := j + 1;
      }
      AcceptedAll(elements, j);
      return true;
    }

    /** The body of the `foreach` loop for a request: `$this->requests[$key] = $request` and `$this->queue->add($request)`. */
    method Accept(key: Key, request: Curl.Request)
      requires Valid()
      modifies this, queue
      ensures Valid() && data == old(data)
      ensures requests == Assign(old(requests), key, request)
      ensures queue.requests == old(queue.requests) + [request]
      ensures queue.windowSize == old(queue.windowSize) && queue.options == old(queue.options)
      ensures queue.headers == old(queue.headers) && queue.timeout == old(queue.timeout)
      ensures queue.requestMap == old(queue.requestMap) && queue.nextHandle == old(queue.nextHandle)
    {
      requests := Assign(requests, key, request);
      var _ := queue.Add(request);
    }

    /** `processPage` for each callback invocation, in order. */
    method Replay(calls: seq<Call>, single: bool)
      modifies this
      ensures data == Pages(old(data), requests, calls, single)
      ensures requests == old(requests)
    {
      var k := 0;
      while k < |calls|
        invariant k <= |calls| && requests == old(requests)
        invariant data == Pages(old(data), requests, calls[..k], single)
      {
        PagesStep(old(data), requests, calls, k, single);
        ProcessPage(Response(calls[k].reply, single), calls[k].reply.info, calls[k].request);
        k := k + 1;
      }
      assert calls[..k] == calls;
    }

    /**
     * `getData($key)`: the whole table without a key (`null` while it is
     * empty, since nothing has created the array yet); with a key, the
     * stored value, or `null` when nothing is stored there (`isset` treats
     * a stored `null` as absent, which returns the same `null`).
     */
    function GetData(key: Option<Key>): (v: Value)
      reads this
      ensures key.None? ==> (v == Null <==> data == []) && (data != [] ==> v == Arr(data))
      ensures key.Some? && key.value !in Keys(data) ==> v == Null
      ensures key.Some? && key.value in Keys(data) ==> Get(data, key.value) == Some(v)
    {
      match key
      case None => if data == [] then Null else Arr(data)
      case Some(k) =>
        var stored := Get(data, k);
        if stored.Some? && stored.value != Null then stored.value else Null
    }
  }
}
