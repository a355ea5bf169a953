/**
 * The sliding-window dispatch of `Queue::rollingCurl` and the one-request
 * path of `Queue::singleCurl`, as a state machine over values. The class
 * `Queueing.Queue` runs the same steps imperatively and is proved equal to
 * the functions here; the properties of the schedule are proved here.
 *
 * One execution works on a batch of requests `env.requests` with window
 * `env.window`. Its state holds the cursor `i` (the next request to
 * dispatch), the queue's `requestMap` (handle to request index), the
 * handles attached to the multi session with the options each was set up
 * with, the next fresh handle, the captured callback exception, and two
 * logs: the callback invocations and the indices dispatched, in order.
 */
module Scheduler {
  import opened Php
  import opened Curl
  import opened Net

  datatype Exception = Exception(message: string)

  const WindowTooSmall: Exception := Exception("Window size must be greater than 1")

  /**
   * The queue's callback: unset (falsy), set to something PHP cannot call,
   * or callable. A callable one is given the number of invocations before
   * it in this execution, the reply and the request, and yields the
   * exception it throws, if any.
   */
  datatype Callback =
    | NoCallback
    | NotCallable
    | Callable(handler: (nat, Reply, Request) -> Option<Exception>)

  /** How `execute` ends: `return true`, return of another value, or an exception. */
  datatype Outcome = ReturnedTrue | Returned(value: Value) | Threw(error: Exception)

  /** One invocation of the callback: for the request at `index`, carried by `handle`. */
  datatype Call = Call(handle: Handle, index: nat, request: Request, reply: Reply)

  /**
   * What stays fixed during one rolling execution. `setup` is
   * `getOptions` for the queue's configuration at the time of the call
   * (see `Setup`): the options a handle is set up with for a request.
   */
  datatype Env = Env(
    requests: seq<Request>,
    window: nat,
    setup: Request -> Assoc<Value>,
    callback: Callback,
    transport: Transport,
    first: Handle)

  datatype Sched = Sched(
    i: nat,
    requestMap: map<Handle, nat>,
    active: map<Handle, Assoc<Value>>,
    next: Handle,
    exc: Option<Exception>,
    calls: seq<Call>,
    launched: seq<nat>)

  function Last<T>(s: seq<T>): T
    requires |s| > 0
  {
    s[|s| - 1]
  }

  // ----- invariants -----

  ghost predicate ValidEnv(env: Env) {
    2 <= env.window <= |env.requests|
  }

  /** Handles of this execution are drawn from `first` on and are never reused. */
  ghost predicate Fresh(env: Env, s: Sched) {
    && env.first <= s.next
    && (forall h :: h in s.requestMap ==> h < s.next)
    && (forall h :: h in s.active ==> env.first <= h < s.next)
  }

  /** The cursor never passes the batch, and exactly the indices below it were dispatched, once each, in order. */
  ghost predicate Launched(env: Env, s: Sched) {
    && s.i <= |env.requests|
    && |s.launched| == s.i
    && forall k :: 0 <= k < s.i ==> s.launched[k] == k
  }

  /**
   * Every attached handle is mapped to a dispatched request and was set up
   * with that request's options; the entries this execution added map
   * distinct handles to distinct indices; with a callable callback the
   * map holds no entry of this execution beyond the attached handles.
   */
  ghost predicate Slots(env: Env, s: Sched) {
    && (forall h :: h in s.active ==> h in s.requestMap)
    && (forall h :: h in s.requestMap && h >= env.first ==> s.requestMap[h] < s.i)
    && (forall h1, h2 :: h1 in s.requestMap && h2 in s.requestMap && env.first <= h1 < h2 ==>
          s.requestMap[h1] != s.requestMap[h2])
    && (forall h :: h in s.active ==>
          s.requestMap[h] < |env.requests| &&
          s.active[h] == env.setup(env.requests[s.requestMap[h]]))
    && (env.callback.Callable? ==> forall h :: h in s.requestMap && h >= env.first ==> h in s.active)
  }

  /** At most `window` handles are in flight, and the window stays full while requests remain and no exception was captured. */
  ghost predicate Window(env: Env, s: Sched) {
    && |s.active| <= env.window
    && (s.i < |env.requests| && s.exc.None? ==> |s.active| == env.window)
  }

  function CalledIndices(calls: seq<Call>): set<nat> {
    set k | 0 <= k < |calls| :: calls[k].index
  }

  function ActiveIndices(s: Sched): set<nat> {
    set h | h in s.active && h in s.requestMap :: s.requestMap[h]
  }

  /** The indices below `n`. */
  function Below(n: nat): (r: set<nat>)
    ensures forall j: nat :: j in r <==> j < n
  {
    if n == 0 then {} else Below(n - 1) + {n - 1}
  }

  /** A call passes the request at its index and the reply of a handle set up with that request's options. */
  ghost predicate Paired(env: Env, c: Call) {
    && c.index < |env.requests|
    && c.request == env.requests[c.index]
    && c.reply == env.transport.reply(c.handle, env.setup(c.request))
  }

  /**
   * The callback log, part one: each call is correctly paired, for a
   * distinct dispatched index that is no longer in flight.
   */
  ghost predicate CallsPaired(env: Env, s: Sched) {
    && (forall k :: 0 <= k < |s.calls| ==> s.calls[k].index < s.i && Paired(env, s.calls[k]))
    && (forall k1, k2 :: 0 <= k1 < k2 < |s.calls| ==> s.calls[k1].index != s.calls[k2].index)
    && (forall k, h :: 0 <= k < |s.calls| && h in s.active && h in s.requestMap ==> s.calls[k].index != s.requestMap[h])
  }

  /** Part two: without an exception, calls and flights together cover the dispatched indices. */
  ghost predicate CallsCover(env: Env, s: Sched) {
    env.callback.Callable? && s.exc.None? ==> CalledIndices(s.calls) + ActiveIndices(s) == Below(s.i)
  }

  /**
   * Part three: only a callable callback is invoked; every call but one
   * that threw returned normally, and a captured exception is the one the
   * last call threw.
   */
  ghost predicate CallsResults(env: Env, s: Sched) {
    && (!env.callback.Callable? ==> s.calls == [] && s.exc.None?)
    && (env.callback.Callable? ==>
          forall k :: 0 <= k < |s.calls| && (k + 1 < |s.calls| || s.exc.None?) ==>
            env.callback.handler(k, s.calls[k].reply, s.calls[k].request).None?)
    && (s.exc.Some? ==>
          |s.calls| > 0 && env.callback.Callable? &&
          env.callback.handler(|s.calls| - 1, Last(s.calls).reply, Last(s.calls).request) == s.exc)
  }

  ghost predicate CallsOk(env: Env, s: Sched) {
    CallsPaired(env, s) && CallsCover(env, s) && CallsResults(env, s)
  }

  ghost predicate Inv(env: Env, s: Sched) {
    ValidEnv(env) && Fresh(env, s) && Launched(env, s) && Slots(env, s) && Window(env, s) && CallsOk(env, s)
  }


  /** What processing a finished handle needs of a state: a bounded cursor, and attached handles that are mapped to a request and older than the next fresh handle. */
  ghost predicate Wf(env: Env, s: Sched) {
    && s.i <= |env.requests|
    && forall h :: h in s.active ==> h < s.next && h in s.requestMap && s.requestMap[h] < |env.requests|
  }

  /** Decreases with every completion: a replenishment trades a pending request for a flight. */
  function Measure(env: Env, s: Sched): nat {
    2 * (if s.i <= |env.requests| then |env.requests| - s.i else 0) + |s.active|
  }

  // ----- steps -----

  /** `curl_init`, `getOptions`, `curl_multi_add_handle`, `requestMap[(string)$ch] = $i`, then `$i++`. */
  function Dispatch(env: Env, s: Sched): (r: Sched)
    requires s.i < |env.requests|
    ensures r.i == s.i + 1 && r.next == s.next + 1
    ensures r.active.Keys == s.active.Keys + {s.next}
    ensures r.active[s.next] == env.setup(env.requests[s.i])
    ensures r.requestMap.Keys == s.requestMap.Keys + {s.next} && r.requestMap[s.next] == s.i
    ensures forall h :: h in s.requestMap && h != s.next ==> r.requestMap[h] == s.requestMap[h]
    ensures forall h :: h in s.active && h != s.next ==> r.active[h] == s.active[h]
    ensures r.launched == s.launched + [s.i]
    ensures r.exc == s.exc && r.calls == s.calls
  {
    var opts := env.setup(env.requests[s.i]);
    s.(i := s.i + 1,
       requestMap := s.requestMap[s.next := s.i],
       active := s.active[s.next := opts],
       next := s.next + 1,
       launched := s.launched + [s.i])
  }

  /**
   * The callback part of processing a finished handle: with a callable
   * callback, the handle's request is looked up and its map entry removed,
   * and unless an exception is already captured the callback is invoked
   * and whatever it throws is captured.
   */
  function Invoke(env: Env, s: Sched, h: Handle): (r: Sched)
    requires h in s.active && h in s.requestMap && s.requestMap[h] < |env.requests|
    ensures r.i == s.i && r.active == s.active && r.next == s.next && r.launched == s.launched
    ensures !env.callback.Callable? ==> r == s
    ensures env.callback.Callable? ==> r.requestMap == s.requestMap - {h}
    ensures s.exc.Some? ==> r.exc == s.exc && r.calls == s.calls
    ensures env.callback.Callable? && s.exc.None? ==>
      && r.calls == s.calls + [Call(h, s.requestMap[h], env.requests[s.requestMap[h]],
                                    env.transport.reply(h, s.active[h]))]
      && r.exc == env.callback.handler(|s.calls|, Last(r.calls).reply, Last(r.calls).request)
  {
    match env.callback
    case Callable(handler) =>
      var reply := env.transport.reply(h, s.active[h]);
      var index := s.requestMap[h];
      var request := env.requests[index];
      var unmapped := s.(requestMap := s.requestMap - {h});
      if s.exc.None? then
        unmapped.(calls := s.calls + [Call(h, index, request, reply)], exc := handler(|s.calls|, reply, request))
      else unmapped
    case _ => s
  }

  /**
   * Processing one finished handle: the callback step, then a new request
   * if the cursor has not reached the end and no exception is captured,
   * then `curl_multi_remove_handle`.
   */
  function Complete(env: Env, s: Sched, h: Handle): (r: Sched)
    requires Wf(env, s) && h in s.active
    ensures Wf(env, r) && Measure(env, r) < Measure(env, s)
    ensures h !in r.active
    ensures r.i == s.i + 1 <==> s.i < |env.requests| && r.exc.None?
    ensures r.i == s.i || r.i == s.i + 1
    ensures r.next == s.next + (r.i - s.i)
    ensures r.active.Keys == (if r.i == s.i then s.active.Keys else s.active.Keys + {s.next}) - {h}
    ensures env.callback.Callable? ==> h !in r.requestMap
    ensures !env.callback.Callable? ==> h in r.requestMap && r.calls == s.calls && r.exc == s.exc
    ensures s.exc.Some? ==> r.exc == s.exc && r.calls == s.calls && r.i == s.i
    ensures env.callback.Callable? && s.exc.None? ==> |r.calls| == |s.calls| + 1 && r.calls[..|s.calls|] == s.calls
  {
    var invoked := Invoke(env, s, h);
    var refilled := if invoked.i < |env.requests| && invoked.exc.None? then Dispatch(env, invoked) else invoked;
    refilled.(active := refilled.active - {h})
  }

  /** The whole effect of `Complete`, field by field, for the invariant proofs. */
  lemma CompleteEffect(env: Env, s: Sched, h: Handle)
    requires Wf(env, s) && h in s.active
    ensures
      var r := Complete(env, s, h);
      var idx := s.requestMap[h];
      var calling := env.callback.Callable? && s.exc.None?;
      var call := Call(h, idx, env.requests[idx], env.transport.reply(h, s.active[h]));
      var refill := s.i < |env.requests| && r.exc.None?;
      var unmapped := if env.callback.Callable? then s.requestMap - {h} else s.requestMap;
      && r.calls == (if calling then s.calls + [call] else s.calls)
      && r.exc == (if calling then env.callback.handler(|s.calls|, call.reply, call.request) else s.exc)
      && r.i == (if refill then s.i + 1 else s.i)
      && r.next == (if refill then s.next + 1 else s.next)
      && r.requestMap == (if refill then unmapped[s.next := s.i] else unmapped)
      && r.active == (if refill then s.active[s.next := env.setup(env.requests[s.i])] else s.active) - {h}
      && r.launched == (if refill then s.launched + [s.i] else s.launched)
  {
  }

  /** Processing the finished handles of one poll, in the order the transport reports them. */
  function Drain(env: Env, s: Sched, done: seq<Handle>): (r: Sched)
    requires Wf(env, s) && Distinct(done) && forall k :: 0 <= k < |done| ==> done[k] in s.active
    ensures Wf(env, r)
    ensures Measure(env, r) + |done| <= Measure(env, s)
    ensures r.i >= s.i
    ensures s.exc.Some? ==> r.exc == s.exc && r.calls == s.calls && r.i == s.i
    ensures !env.callback.Callable? ==> r.calls == s.calls && r.exc == s.exc
    decreases |done|
  {
    if done == [] then s
    else
      var next := Complete(env, s, done[0]);
      assert forall k :: 0 <= k < |done[1..]| ==> done[1..][k] in next.active by {
        forall k | 0 <= k < |done[1..]| ensures done[1..][k] in next.active {
          assert done[1..][k] == done[k + 1] != done[0];
        }
      }
      Drain(env, next, done[1..])
  }

  /**
   * The polling loop, corrected: poll and process until no handle is
   * attached, or until the transport fails.
   */
  function Run(env: Env, s: Sched): (r: Sched)
    requires Wf(env, s) && Valid(env.transport)
    ensures Wf(env, r)
    ensures |r.active| == 0 || env.transport.poll(r.active.Keys).Aborted?
    ensures r.i >= s.i
    ensures s.exc.Some? ==> r.exc == s.exc && r.calls == s.calls && r.i == s.i
    ensures !env.callback.Callable? ==> r.calls == s.calls && r.exc == s.exc
    decreases Measure(env, s)
  {
    if |s.active| == 0 then s
    else
      match env.transport.poll(s.active.Keys)
      case Aborted => s
      case Finished(done) =>
        assert ValidPoll(s.active.Keys, env.transport.poll(s.active.Keys));
        Run(env, Drain(env, s, done))
  }

  /** The attached handles the poll did not report finished: `$running` after `curl_multi_exec`. */
  function Running(s: Sched, done: seq<Handle>): nat {
    |s.active.Keys - set k | 0 <= k < |done| :: done[k]|
  }

  /**
   * The polling loop as written: `$running` is the number of handles still
   * in progress when the poll ran, before the finished ones are processed
   * and replaced, and the loop stops when it is zero.
   */
  function RunAsWritten(env: Env, s: Sched): (r: Sched)
    requires Wf(env, s) && Valid(env.transport)
    ensures Wf(env, r)
    ensures r.i >= s.i
    decreases Measure(env, s)
  {
    if |s.active| == 0 then s
    else
      match env.transport.poll(s.active.Keys)
      case Aborted => s
      case Finished(done) =>
        assert ValidPoll(s.active.Keys, env.transport.poll(s.active.Keys));
        var drained := Drain(env, s, done);
        if Running(s, done) == 0 then drained else RunAsWritten(env, drained)
  }

  // ----- the invariant is kept by every completion -----

  lemma CompleteFresh(env: Env, s: Sched, h: Handle)
    requires Wf(env, s) && Fresh(env, s) && h in s.active
    ensures Fresh(env, Complete(env, s, h))
  {
    CompleteKept(env, s, h);
    FreshKept(env, s, h, Complete(env, s, h));
  }

  lemma FreshKept(env: Env, s: Sched, h: Handle, r: Sched)
    requires Fresh(env, s) && Kept(env, s, h, r)
    ensures Fresh(env, r)
  {
    forall x | x in r.requestMap ensures x < r.next {
      if x != s.next { assert x in s.requestMap; }
    }
    forall x | x in r.active ensures env.first <= x < r.next {
      if x != s.next { assert x in s.active; }
    }
  }

  lemma CompleteLaunched(env: Env, s: Sched, h: Handle)
    requires Wf(env, s) && Launched(env, s) && h in s.active
    ensures Launched(env, Complete(env, s, h))
  {
    CompleteEffect(env, s, h);
  }

  /**
   * What `Complete` keeps, as a relation between the state `s` before
   * processing handle `h` and the state `r` after: apart from the handle
   * it issues, every map entry and every attached handle of `r` was in
   * `s` with the same value; the processed handle is gone from both (from
   * the map only when the callback is callable); a replenishment adds
   * the next fresh handle for the cursor's request.
   */
  ghost predicate Kept(env: Env, s: Sched, h: Handle, r: Sched) {
    && (r.i == s.i || r.i == s.i + 1)
    && r.next == s.next + (r.i - s.i)
    && h !in r.active
    && (env.callback.Callable? ==> h !in r.requestMap)
    && (forall x :: x in r.requestMap && x != s.next ==> x in s.requestMap && r.requestMap[x] == s.requestMap[x])
    && (forall x :: x in s.requestMap && x != h ==> x in r.requestMap && r.requestMap[x] == s.requestMap[x])
    && (!env.callback.Callable? ==> h in r.requestMap)
    && (forall x :: x in r.active && x != s.next ==> x in s.active && x != h && r.active[x] == s.active[x])
    && (forall x :: x in s.active && x != h ==> x in r.active)
    && (r.i == s.i + 1 ==> s.i < |env.requests| && s.next in r.requestMap && r.requestMap[s.next] == s.i &&
                           s.next in r.active && r.active[s.next] == env.setup(env.requests[s.i]))
    && (r.i == s.i ==> s.next !in r.requestMap && s.next !in r.active)
  }

  lemma CompleteKept(env: Env, s: Sched, h: Handle)
    requires Wf(env, s) && Fresh(env, s) && h in s.active
    ensures Kept(env, s, h, Complete(env, s, h))
  {
    CompleteEffect(env, s, h);
  }

  lemma CompleteSlots(env: Env, s: Sched, h: Handle)
    requires Wf(env, s) && Fresh(env, s) && Slots(env, s) && h in s.active
    ensures Slots(env, Complete(env, s, h))
  {
    CompleteKept(env, s, h);
    SlotsKept(env, s, h, Complete(env, s, h));
  }

  lemma SlotsKept(env: Env, s: Sched, h: Handle, r: Sched)
    requires Wf(env, s) && Fresh(env, s) && Slots(env, s) && h in s.active && Kept(env, s, h, r)
    ensures Slots(env, r)
  {
    forall x | x in r.active ensures x in r.requestMap { }
    forall x | x in r.requestMap && x >= env.first ensures r.requestMap[x] < r.i { }
    forall x1, x2 | x1 in r.requestMap && x2 in r.requestMap && env.first <= x1 < x2
      ensures r.requestMap[x1] != r.requestMap[x2]
    {
      if x2 == s.next { assert x1 in s.requestMap; }
    }
    forall x | x in r.active
      ensures r.requestMap[x] < |env.requests| &&
              r.active[x] == env.setup(env.requests[r.requestMap[x]])
    {
      if x != s.next { assert x in s.active; }
    }
    if env.callback.Callable? {
      forall x | x in r.requestMap && x >= env.first ensures x in r.active {
        if x != s.next { assert x in s.requestMap && x != h; }
      }
    }
  }

  lemma CompleteWindow(env: Env, s: Sched, h: Handle)
    requires Wf(env, s) && Window(env, s) && h in s.active
    ensures Window(env, Complete(env, s, h))
  {
    CompleteEffect(env, s, h);
  }

  /** How processing handle `h` extends the callback log, as a relation between the states before and after. */
  ghost predicate Logged(env: Env, s: Sched, h: Handle, r: Sched)
    requires h in s.active && h in s.requestMap && s.requestMap[h] < |env.requests|
  {
    var idx := s.requestMap[h];
    var call := Call(h, idx, env.requests[idx], env.transport.reply(h, s.active[h]));
    if env.callback.Callable? && s.exc.None? then
      r.calls == s.calls + [call] && r.exc == env.callback.handler(|s.calls|, call.reply, call.request)
    else
      r.calls == s.calls && r.exc == s.exc
  }

  lemma CompleteLog(env: Env, s: Sched, h: Handle)
    requires Wf(env, s) && h in s.active
    ensures Logged(env, s, h, Complete(env, s, h))
  {
  }

  lemma CompleteCallsPaired(env: Env, s: Sched, h: Handle)
    requires Wf(env, s) && Fresh(env, s) && Slots(env, s) && CallsPaired(env, s) && h in s.active
    ensures CallsPaired(env, Complete(env, s, h))
  {
    CompleteKept(env, s, h);
    CompleteLog(env, s, h);
    CallsPairedKept(env, s, h, Complete(env, s, h));
  }

  lemma CallsPairedKept(env: Env, s: Sched, h: Handle, r: Sched)
    requires Wf(env, s) && Fresh(env, s) && Slots(env, s) && CallsPaired(env, s) && h in s.active
    requires Kept(env, s, h, r) && Logged(env, s, h, r)
    ensures CallsPaired(env, r)
  {
    var idx := s.requestMap[h];
    assert idx < s.i;
    forall k | 0 <= k < |r.calls| ensures r.calls[k].index < r.i && Paired(env, r.calls[k]) {
      if k < |s.calls| { assert r.calls[k] == s.calls[k]; }
    }
    forall k1, k2 | 0 <= k1 < k2 < |r.calls| ensures r.calls[k1].index != r.calls[k2].index {
      assert r.calls[k1] == s.calls[k1];
      if k2 < |s.calls| { assert r.calls[k2] == s.calls[k2]; }
    }
    FlightsKept(env, s, h, r);
  }

  /** No logged invocation is for a request still in flight, after processing `h` as before. */
  lemma FlightsKept(env: Env, s: Sched, h: Handle, r: Sched)
    requires Wf(env, s) && Fresh(env, s) && Slots(env, s) && CallsPaired(env, s) && h in s.active
    requires Kept(env, s, h, r) && Logged(env, s, h, r)
    ensures forall k, x :: 0 <= k < |r.calls| && x in r.active && x in r.requestMap ==> r.calls[k].index != r.requestMap[x]
  {
    forall k, x | 0 <= k < |r.calls| && x in r.active && x in r.requestMap
      ensures r.calls[k].index != r.requestMap[x]
    {
      if x != s.next {
        assert x in s.active && x != h && r.requestMap[x] == s.requestMap[x];
        if k < |s.calls| { assert r.calls[k] == s.calls[k]; }
        else if x < h { assert s.requestMap[x] != s.requestMap[h]; }
        else { assert s.requestMap[h] != s.requestMap[x]; }
      } else if k < |s.calls| {
        assert r.calls[k] == s.calls[k];
      }
    }
  }

  lemma CompleteCallsResults(env: Env, s: Sched, h: Handle)
    requires Wf(env, s) && CallsResults(env, s) && h in s.active
    ensures CallsResults(env, Complete(env, s, h))
  {
    var r := Complete(env, s, h);
    CompleteLog(env, s, h);
    if env.callback.Callable? {
      forall k | 0 <= k < |r.calls| && (k + 1 < |r.calls| || r.exc.None?)
        ensures env.callback.handler(k, r.calls[k].reply, r.calls[k].request).None?
      {
        if k < |s.calls| { assert r.calls[k] == s.calls[k]; }
      }
    }
  }

  lemma CalledIndicesSnoc(calls: seq<Call>, c: Call)
    ensures CalledIndices(calls + [c]) == CalledIndices(calls) + {c.index}
  {
    var l := calls + [c];
    forall j | j in CalledIndices(l) ensures j in CalledIndices(calls) + {c.index} {
      var k :| 0 <= k < |l| && l[k].index == j;
      if k < |calls| { assert l[k] == calls[k]; }
    }
    forall j | j in CalledIndices(calls) + {c.index} ensures j in CalledIndices(l) {
      if j in CalledIndices(calls) {
        var k :| 0 <= k < |calls| && calls[k].index == j;
        assert l[k] == calls[k];
      } else {
        assert l[|calls|] == c;
      }
    }
  }

  lemma BelowSucc(n: nat)
    ensures Below(n + 1) == Below(n) + {n}
  {
  }

  lemma ActiveIndex(s: Sched, x: Handle)
    requires x in s.active && x in s.requestMap
    ensures s.requestMap[x] in ActiveIndices(s)
  {
  }

  /** With a callable callback, the in-flight indices lose the processed one and gain the replenished one. */
  lemma CompleteActiveIndices(env: Env, s: Sched, h: Handle)
    requires Wf(env, s) && Fresh(env, s) && Slots(env, s) && h in s.active && env.callback.Callable?
    ensures var r := Complete(env, s, h);
      ActiveIndices(r) == (ActiveIndices(s) - {s.requestMap[h]}) + (if r.i == s.i + 1 then {s.i} else {})
  {
    CompleteKept(env, s, h);
    var r := Complete(env, s, h);
    ActiveIndicesLeft(env, s, h, r);
    ActiveIndicesRight(env, s, h, r);
  }

  lemma ActiveIndicesLeft(env: Env, s: Sched, h: Handle, r: Sched)
    requires Wf(env, s) && Fresh(env, s) && Slots(env, s) && h in s.active && Kept(env, s, h, r)
    ensures ActiveIndices(r) <= (ActiveIndices(s) - {s.requestMap[h]}) + (if r.i == s.i + 1 then {s.i} else {})
  {
    var idx := s.requestMap[h];
    forall j | j in ActiveIndices(r) ensures j in (ActiveIndices(s) - {idx}) + (if r.i == s.i + 1 then {s.i} else {}) {
      var x :| x in r.active && x in r.requestMap && r.requestMap[x] == j;
      if x == s.next {
        assert r.i == s.i + 1 && j == s.i;
      } else {
        assert x in s.active && x != h && j == s.requestMap[x];
        assert j in ActiveIndices(s) by { ActiveIndex(s, x); }
        assert j != idx by {
          if x < h { assert s.requestMap[x] != idx; } else { assert idx != s.requestMap[x]; }
        }
      }
    }
  }

  lemma ActiveIndicesRight(env: Env, s: Sched, h: Handle, r: Sched)
    requires Wf(env, s) && Fresh(env, s) && Slots(env, s) && h in s.active && Kept(env, s, h, r)
    ensures (ActiveIndices(s) - {s.requestMap[h]}) + (if r.i == s.i + 1 then {s.i} else {}) <= ActiveIndices(r)
  {
    var idx := s.requestMap[h];
    forall j | j in (ActiveIndices(s) - {idx}) + (if r.i == s.i + 1 then {s.i} else {}) ensures j in ActiveIndices(r) {
      if j in ActiveIndices(s) - {idx} {
        var x :| x in s.active && x in s.requestMap && s.requestMap[x] == j;
        assert x != h && x in r.active;
        ActiveIndex(r, x);
      } else {
        ActiveIndex(r, s.next);
      }
    }
  }

  lemma CoverStep(called: set<nat>, flying: set<nat>, called': set<nat>, flying': set<nat>, idx: nat, i: nat, i': nat)
    requires called + flying == Below(i) && idx in flying
    requires i' == i || i' == i + 1
    requires called' == called + {idx}
    requires flying' == (flying - {idx}) + (if i' == i + 1 then {i} else {})
    ensures called' + flying' == Below(i')
  {
    if i' == i + 1 { BelowSucc(i); }
  }

  lemma CompleteCallsCover(env: Env, s: Sched, h: Handle)
    requires Wf(env, s) && Fresh(env, s) && Slots(env, s) && CallsCover(env, s) && h in s.active
    ensures CallsCover(env, Complete(env, s, h))
  {
    var r := Complete(env, s, h);
    if env.callback.Callable? && r.exc.None? {
      CompleteLog(env, s, h);
      var idx := s.requestMap[h];
      var call := Call(h, idx, env.requests[idx], env.transport.reply(h, s.active[h]));
      CalledIndicesSnoc(s.calls, call);
      CompleteActiveIndices(env, s, h);
      ActiveIndex(s, h);
      assert s.exc.None?;
      CoverStep(CalledIndices(s.calls), ActiveIndices(s), CalledIndices(r.calls), ActiveIndices(r), idx, s.i, r.i);
    }
  }

  lemma CompleteCalls(env: Env, s: Sched, h: Handle)
    requires Inv(env, s) && h in s.active
    ensures CallsOk(env, Complete(env, s, h))
  {
    CompleteCallsPaired(env, s, h);
    CompleteCallsResults(env, s, h);
    CompleteCallsCover(env, s, h);
  }

  /** Processing a finished handle keeps the invariant. */
  lemma CompleteInv(env: Env, s: Sched, h: Handle)
    requires Inv(env, s) && h in s.active
    ensures Inv(env, Complete(env, s, h))
  {
    CompleteFresh(env, s, h);
    CompleteLaunched(env, s, h);
    CompleteSlots(env, s, h);
    CompleteWindow(env, s, h);
    CompleteCalls(env, s, h);
  }

  /** The handles of a poll still to be processed stay attached while the earlier ones are. */
  lemma DrainRest(env: Env, s: Sched, done: seq<Handle>)
    requires Wf(env, s) && Distinct(done) && done != [] && forall k :: 0 <= k < |done| ==> done[k] in s.active
    ensures var next := Complete(env, s, done[0]);
      && Distinct(done[1..]) && (forall k :: 0 <= k < |done[1..]| ==> done[1..][k] in next.active)
      && Drain(env, s, done) == Drain(env, next, done[1..])
  {
    var next := Complete(env, s, done[0]);
    forall k | 0 <= k < |done[1..]| ensures done[1..][k] in next.active {
      assert done[1..][k] == done[k + 1] != done[0];
    }
  }

  /** After the handle at position `j` of a poll is processed, the rest of the poll is still attached and still to be drained. */
  lemma RestOfPoll(env: Env, s: Sched, done: seq<Handle>, j: nat)
    requires Wf(env, s) && Distinct(done) && j < |done| && forall k :: j <= k < |done| ==> done[k] in s.active
    ensures var c := Complete(env, s, done[j]);
      && (forall k :: j + 1 <= k < |done| ==> done[k] in c.active)
      && Drain(env, s, done[j..]) == Drain(env, c, done[j + 1..])
  {
    var rest := done[j..];
    assert Distinct(rest) by {
      forall k1, k2 | 0 <= k1 < k2 < |rest| ensures rest[k1] != rest[k2] {
        assert rest[k1] == done[j + k1] && rest[k2] == done[j + k2];
      }
    }
    assert rest[0] == done[j] && rest[1..] == done[j + 1..];
    DrainRest(env, s, rest);
    forall k | j + 1 <= k < |done| ensures done[k] in Complete(env, s, done[j]).active {
      assert done[k] == rest[1..][k - j - 1];
    }
  }

  /** Processing the handles of one poll keeps the invariant. */
  lemma {:induction false} DrainInv(env: Env, s: Sched, done: seq<Handle>)
    requires Inv(env, s) && Distinct(done) && forall k :: 0 <= k < |done| ==> done[k] in s.active
    ensures Inv(env, Drain(env, s, done))
    decreases |done|
  {
    if done != [] {
      CompleteInv(env, s, done[0]);
      DrainRest(env, s, done);
      DrainInv(env, Complete(env, s, done[0]), done[1..]);
    }
  }

  /** The corrected loop keeps the invariant to its end. */
  lemma {:induction false} RunInv(env: Env, s: Sched)
    requires Inv(env, s) && Valid(env.transport)
    ensures Inv(env, Run(env, s))
    decreases Measure(env, s)
  {
    if |s.active| != 0 && env.transport.poll(s.active.Keys).Finished? {
      var d := RunStep(env, s);
      RunInv(env, d);
    }
  }

  /** One poll of the corrected loop that finishes handles: the loop goes on from the drained state, which keeps the invariant. */
  lemma RunStep(env: Env, s: Sched) returns (d: Sched)
    requires Inv(env, s) && Valid(env.transport)
    requires |s.active| != 0 && env.transport.poll(s.active.Keys).Finished?
    ensures Inv(env, d) && Measure(env, d) < Measure(env, s) && Run(env, s) == Run(env, d)
  {
    var done := env.transport.poll(s.active.Keys).done;
    assert ValidPoll(s.active.Keys, env.transport.poll(s.active.Keys));
    DrainInv(env, s, done);
    d := Drain(env, s, done);
  }

  // ----- the first batch -----

  /** The state before the first batch: nothing dispatched, and the map as earlier executions left it. */
  function Initial(map0: map<Handle, nat>, first: Handle): Sched {
    Sched(0, map0, map[], first, None, [], [])
  }

  /** The `for` loop that dispatches the first `window` requests. */
  function Begin(env: Env, s: Sched): (r: Sched)
    requires s.i <= env.window <= |env.requests|
    ensures r.i == env.window
    decreases env.window - s.i
  {
    if s.i < env.window then Begin(env, Dispatch(env, s)) else s
  }

  /**
   * The state while the first batch is dispatched: the handles
   * `first .. first + i - 1` are attached and mapped to the indices
   * `0 .. i - 1`, and the earlier map entries are as they were.
   */
  ghost predicate Starting(env: Env, map0: map<Handle, nat>, s: Sched) {
    StartingShape(env, s) && StartingMap(env, map0, s) && StartingSlots(env, s)
  }

  /** The cursor, the fresh handle, the attached handles and the logs of a partial first batch. */
  ghost predicate StartingShape(env: Env, s: Sched) {
    && ValidEnv(env) && s.i <= env.window && s.next == env.first + s.i
    && (forall h :: h in s.active <==> env.first <= h < env.first + s.i)
    && |s.active| == s.i
    && |s.launched| == s.i && (forall k :: 0 <= k < s.i ==> s.launched[k] == k)
    && s.calls == [] && s.exc.None?
  }

  /** The map holds the earlier entries unchanged and the handles of this batch so far. */
  ghost predicate StartingMap(env: Env, map0: map<Handle, nat>, s: Sched) {
    && (forall h :: h in s.requestMap <==> h in map0 || env.first <= h < env.first + s.i)
    && (forall h :: h in map0 ==> h < env.first && s.requestMap[h] == map0[h])
  }

  /** Each attached handle carries the request its offset from `first` names. */
  ghost predicate StartingSlots(env: Env, s: Sched) {
    forall h :: h in s.active ==>
      && env.first <= h < env.first + s.i && h - env.first < |env.requests|
      && h in s.requestMap && s.requestMap[h] == h - env.first
      && s.active[h] == env.setup(env.requests[h - env.first])
  }

  lemma DispatchShape(env: Env, s: Sched)
    requires StartingShape(env, s) && s.i < env.window
    ensures StartingShape(env, Dispatch(env, s))
  {
    DispatchActive(env, s);
    var d := Dispatch(env, s);
    assert forall k :: 0 <= k < d.i ==> d.launched[k] == k by {
      assert d.launched == s.launched + [s.i];
    }
  }

  /** Dispatching during the first batch attaches the next handle of the range. */
  lemma DispatchActive(env: Env, s: Sched)
    requires StartingShape(env, s) && s.i < env.window
    ensures var d := Dispatch(env, s);
      && (forall h :: h in d.active <==> env.first <= h < env.first + d.i)
      && |d.active| == d.i
  {
    var d := Dispatch(env, s);
    assert s.next !in s.active;
    forall h ensures h in d.active <==> env.first <= h < env.first + d.i {
      if h != s.next { assert h in d.active <==> h in s.active; }
    }
  }

  lemma DispatchMap(env: Env, map0: map<Handle, nat>, s: Sched)
    requires StartingMap(env, map0, s) && s.next == env.first + s.i && s.i < |env.requests|
    ensures StartingMap(env, map0, Dispatch(env, s))
  {
    var d := Dispatch(env, s);
    forall h ensures h in d.requestMap <==> h in map0 || env.first <= h < env.first + d.i {
      if h != s.next { assert h in d.requestMap <==> h in s.requestMap; }
    }
    forall h | h in map0 ensures d.requestMap[h] == map0[h] {
      assert h != s.next;
    }
  }

  lemma DispatchSlots(env: Env, s: Sched)
    requires StartingSlots(env, s) && s.next == env.first + s.i && s.i < |env.requests|
    ensures StartingSlots(env, Dispatch(env, s))
  {
    var d := Dispatch(env, s);
    assert s.next !in s.active;
    forall h | h in d.active
      ensures && env.first <= h < env.first + d.i && h - env.first < |env.requests|
              && h in d.requestMap && d.requestMap[h] == h - env.first
              && d.active[h] == env.setup(env.requests[h - env.first])
    {
      if h != s.next {
        assert h in s.active;
        assert d.active[h] == s.active[h] && d.requestMap[h] == s.requestMap[h];
      } else {
        assert h - env.first == s.i;
      }
    }
  }

  lemma DispatchStarting(env: Env, map0: map<Handle, nat>, s: Sched)
    requires Starting(env, map0, s) && s.i < env.window
    ensures Starting(env, map0, Dispatch(env, s))
  {
    DispatchShape(env, s);
    DispatchMap(env, map0, s);
    DispatchSlots(env, s);
  }

  lemma {:induction false} BeginStarting(env: Env, map0: map<Handle, nat>, s: Sched)
    requires Starting(env, map0, s)
    ensures Starting(env, map0, Begin(env, s))
    decreases env.window - s.i
  {
    if s.i < env.window {
      DispatchStarting(env, map0, s);
      BeginStarting(env, map0, Dispatch(env, s));
    }
  }

  /**
   * The first batch maps the handles `first .. first + W - 1` to the
   * indices `0 .. W - 1`, attaches exactly those handles with their
   * requests' options, leaves earlier map entries alone, and leaves the
   * cursor at `W`.
   */
  lemma BeginBatch(env: Env, map0: map<Handle, nat>)
    requires ValidEnv(env)
    requires forall h :: h in map0 ==> h < env.first
    ensures Starting(env, map0, Begin(env, Initial(map0, env.first)))
    ensures var b := Begin(env, Initial(map0, env.first));
      && b.i == env.window && b.next == env.first + env.window && |b.active| == env.window
      && (forall h :: h in b.active <==> env.first <= h < env.first + env.window)
      && (forall h :: h in b.active ==> b.requestMap[h] == h - env.first)
      && (forall h :: h in map0 ==> h in b.requestMap && b.requestMap[h] == map0[h])
  {
    BeginStarting(env, map0, Initial(map0, env.first));
  }

  /** A completed first batch has fresh handles, the launch log and a full window. */
  lemma StartedFresh(env: Env, map0: map<Handle, nat>, b: Sched)
    requires Starting(env, map0, b) && b.i == env.window
    ensures Fresh(env, b) && Launched(env, b) && Window(env, b)
  {
  }

  lemma StartedSlots(env: Env, map0: map<Handle, nat>, b: Sched)
    requires Starting(env, map0, b) && b.i == env.window
    ensures Slots(env, b)
  {
    forall h | h in b.requestMap && h >= env.first ensures h in b.active && b.requestMap[h] == h - env.first {
      assert h !in map0;
    }
    forall h1, h2 | h1 in b.requestMap && h2 in b.requestMap && env.first <= h1 < h2
      ensures b.requestMap[h1] != b.requestMap[h2]
    {
      assert b.requestMap[h1] == h1 - env.first && b.requestMap[h2] == h2 - env.first;
    }
  }

  lemma StartedCalls(env: Env, map0: map<Handle, nat>, b: Sched)
    requires Starting(env, map0, b) && b.i == env.window
    ensures CallsOk(env, b)
  {
    forall j | j in Below(b.i) ensures j in ActiveIndices(b) {
      ActiveIndex(b, env.first + j);
    }
    assert CalledIndices(b.calls) == {};
  }

  /** The state after the first batch satisfies the invariant. */
  lemma BeginInv(env: Env, map0: map<Handle, nat>)
    requires ValidEnv(env)
    requires forall h :: h in map0 ==> h < env.first
    ensures Inv(env, Begin(env, Initial(map0, env.first)))
  {
    BeginBatch(env, map0);
    var b := Begin(env, Initial(map0, env.first));
    StartedFresh(env, map0, b);
    StartedSlots(env, map0, b);
    StartedCalls(env, map0, b);
  }

  // ----- one execution of `rollingCurl` -----

  /** A transport whose polls never fail. */
  ghost predicate NoAbort(t: Transport) {
    forall active: set<Handle> {:trigger t.poll(active)} :: t.poll(active).Finished?
  }

  /**
   * A run the transport does not abort ends with no handle attached and,
   * unless a callback threw, with every request dispatched.
   */
  lemma RunDrains(env: Env, s: Sched)
    requires Inv(env, s) && Valid(env.transport) && NoAbort(env.transport)
    ensures Inv(env, Run(env, s))
    ensures |Run(env, s).active| == 0
    ensures Run(env, s).exc.None? ==> Run(env, s).i == |env.requests|
  {
    RunInv(env, s);
    var r := Run(env, s);
    assert env.transport.poll(r.active.Keys).Finished?;
  }

  /**
   * `$this->windowSize` once `rollingCurl` has set it: the argument when
   * one is given (`isset`), else the field, capped at the number of
   * queued requests.
   */
  function ClampWindow(field: int, arg: Option<int>, n: nat): (w: int)
    ensures w <= n && w <= arg.GetOr(field)
    ensures w == n || w == arg.GetOr(field)
  {
    var requested := if arg.Some? then arg.value else field;
    if n < requested then n else requested
  }

  /** `getOptions` for a fixed queue configuration. */
  function Setup(config: Config): Request -> Assoc<Value> {
    r => EffectiveOptions(config, r)
  }

  /** The end of one `rollingCurl` call: the window stored in the field, the outcome, and the final state. */
  datatype Rolled = Rolled(window: int, outcome: Outcome, final: Sched)

  /** How a finished run ends `rollingCurl`: rethrow the captured exception, else `return true`. */
  function Ending(f: Sched): Outcome {
    if f.exc.Some? then Threw(f.exc.value) else ReturnedTrue
  }

  /**
   * `rollingCurl($windowSize)` over the requests of the queue, with its
   * window field, its `getOptions` (`Setup` of its configuration) and
   * callback, the map `map0` left by earlier executions, and the fresh
   * handles from `first` on. This is the corrected loop (see
   * `RollingCurlAsWritten`).
   */
  function RollingCurl(requests: seq<Request>, field: int, arg: Option<int>, setup: Request -> Assoc<Value>, callback: Callback,
                       t: Transport, map0: map<Handle, nat>, first: Handle): (r: Rolled)
    requires Valid(t) && forall h :: h in map0 ==> h < first
    ensures r.window == ClampWindow(field, arg, |requests|)
    ensures r.window < 2 ==> r.outcome == Threw(WindowTooSmall) && r.final == Initial(map0, first)
    ensures r.window >= 2 ==> r.final.i >= r.window && r.outcome == Ending(r.final)
  {
    var w := ClampWindow(field, arg, |requests|);
    if w < 2 then Rolled(w, Threw(WindowTooSmall), Initial(map0, first))
    else
      var f := Final(Env(requests, w, setup, callback, t, first), map0);
      Rolled(w, Ending(f), f)
  }

  /** The first batch followed by the loop. */
  function Final(env: Env, map0: map<Handle, nat>): (f: Sched)
    requires ValidEnv(env) && Valid(env.transport)
    requires forall h :: h in map0 ==> h < env.first
    ensures f.i >= env.window
  {
    BeginWf(env, map0);
    Run(env, Begin(env, Initial(map0, env.first)))
  }

  lemma BeginWf(env: Env, map0: map<Handle, nat>)
    requires ValidEnv(env)
    requires forall h :: h in map0 ==> h < env.first
    ensures Wf(env, Begin(env, Initial(map0, env.first)))
  {
    BeginInv(env, map0);
  }

  /**
   * After `rollingCurl` with a window of at least 2, the invariant holds of
   * the final state: at most `window` handles were ever in flight, the
   * map entries of this execution are injective, exactly the indices
   * below the cursor were dispatched, once each and in order, and the
   * callback log is as `CallsOk` describes.
   */
  lemma RollingInv(requests: seq<Request>, field: int, arg: Option<int>, setup: Request -> Assoc<Value>,
                   callback: Callback, t: Transport, map0: map<Handle, nat>, first: Handle)
    requires Valid(t) && forall h :: h in map0 ==> h < first
    requires ClampWindow(field, arg, |requests|) >= 2
    ensures var r := RollingCurl(requests, field, arg, setup, callback, t, map0, first);
      Inv(Env(requests, r.window, setup, callback, t, first), r.final)
  {
    var env := Env(requests, ClampWindow(field, arg, |requests|), setup, callback, t, first);
    RollingIsFinal(requests, field, arg, setup, callback, t, map0, first);
    StartInv(env, map0);
  }

  lemma {:induction false} CalledCount(calls: seq<Call>)
    requires forall k1, k2 :: 0 <= k1 < k2 < |calls| ==> calls[k1].index != calls[k2].index
    ensures |CalledIndices(calls)| == |calls|
  {
    if calls != [] {
      var init := calls[..|calls| - 1];
      assert calls == init + [Last(calls)];
      CalledCount(init);
      CalledIndicesSnoc(init, Last(calls));
      assert Last(calls).index !in CalledIndices(init) by {
        forall k | 0 <= k < |init| ensures init[k].index != Last(calls).index {
          assert init[k] == calls[k];
        }
      }
    }
  }

  lemma {:induction false} BelowCount(n: nat)
    ensures |Below(n)| == n
  {
    if n > 0 {
      BelowCount(n - 1);
      assert n - 1 !in Below(n - 1);
    }
  }

  /** At the end of a run with a callable callback, no exception and nothing attached: each request was called once. */
  lemma FinalCallsOnce(env: Env, f: Sched)
    requires Inv(env, f) && |f.active| == 0 && env.callback.Callable? && f.exc.None?
    ensures f.i == |env.requests|
    ensures |f.calls| == |env.requests| && CalledIndices(f.calls) == Below(|env.requests|)
    ensures forall k1, k2 :: 0 <= k1 < k2 < |f.calls| ==> f.calls[k1].index != f.calls[k2].index
    ensures forall k :: 0 <= k < |f.calls| ==>
              && Paired(env, f.calls[k])
              && env.callback.handler(k, f.calls[k].reply, f.calls[k].request).None?
    ensures forall h :: h in f.requestMap ==> h < env.first
  {
    assert ActiveIndices(f) == {};
    CalledCount(f.calls);
    BelowCount(|env.requests|);
  }

  /** How the captured exception relates to the callback log, at any point of a run. */
  lemma ExceptionIsLastCall(env: Env, f: Sched)
    requires CallsResults(env, f) && env.callback.Callable?
    ensures f.exc.None? <==>
            forall k :: 0 <= k < |f.calls| ==> env.callback.handler(k, f.calls[k].reply, f.calls[k].request).None?
    ensures f.exc.Some? ==>
            && |f.calls| > 0
            && env.callback.handler(|f.calls| - 1, Last(f.calls).reply, Last(f.calls).request) == f.exc
            && forall k :: 0 <= k < |f.calls| - 1 ==> env.callback.handler(k, f.calls[k].reply, f.calls[k].request).None?
  {
  }

  /** `FinalCallsOnce` for a run from the first batch. */
  lemma StartCallsOnce(env: Env, map0: map<Handle, nat>)
    requires ValidEnv(env) && Valid(env.transport) && NoAbort(env.transport)
    requires forall h :: h in map0 ==> h < env.first
    requires env.callback.Callable?
    ensures var f := Final(env, map0);
      f.exc.None? ==>
        && |f.calls| == |env.requests| && CalledIndices(f.calls) == Below(|env.requests|)
        && (forall k1, k2 :: 0 <= k1 < k2 < |f.calls| ==> f.calls[k1].index != f.calls[k2].index)
        && (forall k :: 0 <= k < |f.calls| ==>
              && Paired(env, f.calls[k])
              && env.callback.handler(k, f.calls[k].reply, f.calls[k].request).None?)
        && |f.active| == 0
        && (forall h :: h in f.requestMap ==> h < env.first)
  {
    BeginInv(env, map0);
    var b := Begin(env, Initial(map0, env.first));
    RunDrains(env, b);
    if Run(env, b).exc.None? {
      FinalCallsOnce(env, Run(env, b));
    }
  }

  /** `ExceptionIsLastCall` for a run from the first batch. */
  lemma StartException(env: Env, map0: map<Handle, nat>)
    requires ValidEnv(env) && Valid(env.transport)
    requires forall h :: h in map0 ==> h < env.first
    requires env.callback.Callable?
    ensures var f := Final(env, map0);
      var o := Ending(f);
      && (o == ReturnedTrue <==>
            forall k :: 0 <= k < |f.calls| ==> env.callback.handler(k, f.calls[k].reply, f.calls[k].request).None?)
      && (o.Threw? ==>
            && |f.calls| > 0
            && env.callback.handler(|f.calls| - 1, Last(f.calls).reply, Last(f.calls).request) == Some(o.error)
            && forall k :: 0 <= k < |f.calls| - 1 ==> env.callback.handler(k, f.calls[k].reply, f.calls[k].request).None?)
  {
    StartInv(env, map0);
    ExceptionIsLastCall(env, Final(env, map0));
  }

  /** The invariant holds at the end of a run from the first batch. */
  lemma StartInv(env: Env, map0: map<Handle, nat>)
    requires ValidEnv(env) && Valid(env.transport)
    requires forall h :: h in map0 ==> h < env.first
    ensures Inv(env, Final(env, map0))
  {
    BeginInv(env, map0);
    RunInv(env, Begin(env, Initial(map0, env.first)));
  }

  /** A run from the first batch that the transport does not abort leaves no handle attached. */
  lemma StartDrains(env: Env, map0: map<Handle, nat>)
    requires ValidEnv(env) && Valid(env.transport) && NoAbort(env.transport)
    requires forall h :: h in map0 ==> h < env.first
    ensures |Final(env, map0).active| == 0
  {
    BeginInv(env, map0);
    RunDrains(env, Begin(env, Initial(map0, env.first)));
  }

  /**
   * With a callable callback and a transport that never fails, a
   * `rollingCurl` that returns `true` handed each queued request to the
   * callback exactly once, with the reply of a handle set up for that
   * request, and every invocation returned normally; no handle is left
   * attached and no map entry of this execution is left behind.
   */
  lemma RollingCallsEachRequestOnce(requests: seq<Request>, field: int, arg: Option<int>, setup: Request -> Assoc<Value>,
                                    callback: Callback, t: Transport, map0: map<Handle, nat>, first: Handle)
    requires Valid(t) && NoAbort(t) && forall h :: h in map0 ==> h < first
    requires callback.Callable? && ClampWindow(field, arg, |requests|) >= 2
    ensures var r := RollingCurl(requests, field, arg, setup, callback, t, map0, first);
      var calls := r.final.calls;
      r.outcome == ReturnedTrue ==>
        && |calls| == |requests|
        && CalledIndices(calls) == Below(|requests|)
        && (forall k1, k2 :: 0 <= k1 < k2 < |calls| ==> calls[k1].index != calls[k2].index)
        && (forall k :: 0 <= k < |calls| ==>
              && calls[k].index < |requests|
              && calls[k].request == requests[calls[k].index]
              && calls[k].reply == t.reply(calls[k].handle, setup(calls[k].request))
              && callback.handler(k, calls[k].reply, calls[k].request).None?)
        && |r.final.active| == 0
        && (forall h :: h in r.final.requestMap ==> h < first)
  {
    var env := Env(requests, ClampWindow(field, arg, |requests|), setup, callback, t, first);
    RollingIsFinal(requests, field, arg, setup, callback, t, map0, first);
    StartCallsOnce(env, map0);
  }

  /**
   * `rollingCurl` with a callable callback returns `true` exactly when no
   * invocation threw; otherwise it throws what the last invocation threw,
   * every earlier one having returned normally, so that exception is the
   * first and after it the callback is not invoked again. When the
   * transport never fails, the exception is thrown only once no handle
   * is attached any more.
   */
  lemma RollingRethrowsFirstException(requests: seq<Request>, field: int, arg: Option<int>, setup: Request -> Assoc<Value>,
                                      callback: Callback, t: Transport, map0: map<Handle, nat>, first: Handle)
    requires Valid(t) && forall h :: h in map0 ==> h < first
    requires callback.Callable? && ClampWindow(field, arg, |requests|) >= 2
    ensures var r := RollingCurl(requests, field, arg, setup, callback, t, map0, first);
      var calls := r.final.calls;
      && (r.outcome == ReturnedTrue <==>
            forall k :: 0 <= k < |calls| ==> callback.handler(k, calls[k].reply, calls[k].request).None?)
      && (r.outcome.Threw? ==>
            && |calls| > 0
            && callback.handler(|calls| - 1, Last(calls).reply, Last(calls).request) == Some(r.outcome.error)
            && forall k :: 0 <= k < |calls| - 1 ==> callback.handler(k, calls[k].reply, calls[k].request).None?)
      && (NoAbort(t) ==> |r.final.active| == 0)
  {
    var env := Env(requests, ClampWindow(field, arg, |requests|), setup, callback, t, first);
    RollingIsFinal(requests, field, arg, setup, callback, t, map0, first);
    StartException(env, map0);
    if NoAbort(t) { StartDrains(env, map0); }
  }

  /** With a window of at least 2, `rollingCurl` ends as the run from its first batch does. */
  lemma RollingIsFinal(requests: seq<Request>, field: int, arg: Option<int>, setup: Request -> Assoc<Value>,
                       callback: Callback, t: Transport, map0: map<Handle, nat>, first: Handle)
    requires Valid(t) && forall h :: h in map0 ==> h < first
    requires ClampWindow(field, arg, |requests|) >= 2
    ensures var env := Env(requests, ClampWindow(field, arg, |requests|), setup, callback, t, first);
      var f := Final(env, map0);
      RollingCurl(requests, field, arg, setup, callback, t, map0, first) == Rolled(env.window, Ending(f), f)
  {
  }

  /**
   * A callback that is unset or not callable is never invoked by
   * `rollingCurl`, which then returns `true` unless the window is too
   * small.
   */
  lemma RollingWithoutCallback(requests: seq<Request>, field: int, arg: Option<int>, setup: Request -> Assoc<Value>,
                               callback: Callback, t: Transport, map0: map<Handle, nat>, first: Handle)
    requires Valid(t) && forall h :: h in map0 ==> h < first
    requires !callback.Callable?
    ensures var r := RollingCurl(requests, field, arg, setup, callback, t, map0, first);
      && r.final.calls == []
      && (r.window >= 2 ==> r.outcome == ReturnedTrue)
  {
    var w := ClampWindow(field, arg, |requests|);
    if w >= 2 {
      var env := Env(requests, w, setup, callback, t, first);
      BeginInv(env, map0);
    }
  }

  // ----- `singleCurl` and `execute` -----

  /** What `curl_exec` returns with `CURLOPT_RETURNTRANSFER` set: the body, or `false` when there is none. */
  function Output(reply: Reply): (v: Value)
    ensures v.Str? <==> reply.body.Some?
    ensures v.Str? ==> v.s == reply.body.value
    ensures !v.Str? ==> v == Bool(false)
  {
    match reply.body
    case Some(body) => Str(body)
    case None => Bool(false)
  }

  /** What `curl_multi_getcontent` returns for a finished handle: the body, or `null` when there is none. */
  function Content(reply: Reply): (v: Value)
    ensures v.Str? <==> reply.body.Some?
    ensures v.Str? ==> v.s == reply.body.value
    ensures !v.Str? ==> v == Null
  {
    match reply.body
    case Some(body) => Str(body)
    case None => Null
  }

  /** The end of `singleCurl`: its outcome and the callback invocations (none or one). */
  datatype Single = Single(outcome: Outcome, calls: seq<Call>)

  /**
   * `singleCurl` for `request`, on the fresh handle `h`: the raw output
   * is returned when no callback is set (`if ($this->callback)`);
   * otherwise a callable callback is invoked once, and `true` is returned
   * unless it throws, in which case the exception propagates.
   */
  function SingleCurl(request: Request, setup: Request -> Assoc<Value>, callback: Callback, t: Transport, h: Handle): (r: Single)
    ensures var reply := t.reply(h, setup(request));
      && (r.outcome.Returned? <==> callback.NoCallback?)
      && (r.outcome.Returned? ==> r.outcome.value == Output(reply))
      && |r.calls| == (if callback.Callable? then 1 else 0)
      && (forall k :: 0 <= k < |r.calls| ==> r.calls[k] == Call(h, 0, request, reply))
      && (callback.NotCallable? ==> r.outcome == ReturnedTrue)
      && (callback.Callable? ==>
            && (r.outcome == ReturnedTrue <==> callback.handler(0, reply, request).None?)
            && (r.outcome.Threw? <==> callback.handler(0, reply, request).Some?)
            && (r.outcome.Threw? ==> callback.handler(0, reply, request) == Some(r.outcome.error)))
  {
    var reply := t.reply(h, setup(request));
    match callback
    case NoCallback => Single(Returned(Output(reply)), [])
    case NotCallable => Single(ReturnedTrue, [])
    case Callable(handler) =>
      var e := handler(0, reply, request);
      Single(if e.Some? then Threw(e.value) else ReturnedTrue, [Call(h, 0, request, reply)])
  }

  /**
   * What `execute` leaves behind: the queue's requests (`singleCurl`
   * shifts its one request off), its window field, its request map, the
   * next fresh handle, the outcome, and the callback invocations.
   */
  datatype Executed = Executed(
    requests: seq<Request>,
    window: int,
    requestMap: map<Handle, nat>,
    next: Handle,
    outcome: Outcome,
    calls: seq<Call>)

  /** `execute($windowSize)`: the single path for exactly one queued request, the rolling one otherwise. */
  function Execute(requests: seq<Request>, field: int, arg: Option<int>, setup: Request -> Assoc<Value>,
                   callback: Callback, t: Transport, map0: map<Handle, nat>, first: Handle): (r: Executed)
    requires Valid(t) && forall h :: h in map0 ==> h < first
    ensures |requests| == 1 ==> r.requests == [] && r.window == field && r.requestMap == map0
    ensures |requests| != 1 ==> r.requests == requests && r.window == ClampWindow(field, arg, |requests|)
  {
    if |requests| == 1 then
      var single := SingleCurl(requests[0], setup, callback, t, first);
      Executed(requests[1..], field, map0, first + 1, single.outcome, single.calls)
    else
      var rolled := RollingCurl(requests, field, arg, setup, callback, t, map0, first);
      Executed(requests, rolled.window, rolled.final.requestMap, rolled.final.next, rolled.outcome, rolled.final.calls)
  }

  /**
   * `execute` takes the single path exactly when one request is queued:
   * that path removes the request, ignores the window argument and the
   * map, and may return the raw output; the rolling path keeps the queue,
   * stores the clamped window, and never returns anything but `true` or
   * an exception.
   */
  lemma ExecutePaths(requests: seq<Request>, field: int, arg: Option<int>, setup: Request -> Assoc<Value>,
                     callback: Callback, t: Transport, map0: map<Handle, nat>, first: Handle)
    requires Valid(t) && forall h :: h in map0 ==> h < first
    ensures var r := Execute(requests, field, arg, setup, callback, t, map0, first);
      && (|requests| == 1 ==>
            && r.next == first + 1
            && r == Execute([requests[0]], field, None, setup, callback, t, map0, first)
            && |r.calls| <= 1)
      && (|requests| != 1 ==> !r.outcome.Returned?)
  {
    if |requests| == 1 {
      assert requests == [requests[0]];
    }
  }

  /** Every map entry `execute` leaves refers to a handle older than the next fresh one, as the next `execute` requires. */
  lemma ExecuteFresh(requests: seq<Request>, field: int, arg: Option<int>, setup: Request -> Assoc<Value>,
                     callback: Callback, t: Transport, map0: map<Handle, nat>, first: Handle)
    requires Valid(t) && forall h :: h in map0 ==> h < first
    ensures var r := Execute(requests, field, arg, setup, callback, t, map0, first);
      r.next >= first && forall h :: h in r.requestMap ==> h < r.next
  {
    var w := ClampWindow(field, arg, |requests|);
    if |requests| != 1 && w >= 2 {
      var env := Env(requests, w, setup, callback, t, first);
      StartInv(env, map0);
      assert Fresh(env, Final(env, map0));
    }
  }

  // ----- the loop as written -----

  /** `rollingCurl` with the loop as written (`RunAsWritten`); otherwise as `RollingCurl`. */
  function RollingCurlAsWritten(requests: seq<Request>, field: int, arg: Option<int>, setup: Request -> Assoc<Value>,
                                callback: Callback, t: Transport, map0: map<Handle, nat>, first: Handle): (r: Rolled)
    requires Valid(t) && forall h :: h in map0 ==> h < first
    ensures r.window == ClampWindow(field, arg, |requests|)
    ensures r.window < 2 ==> r.outcome == Threw(WindowTooSmall) && r.final == Initial(map0, first)
    ensures r.window >= 2 ==> r.outcome == Ending(r.final)
  {
    var w := ClampWindow(field, arg, |requests|);
    if w < 2 then Rolled(w, Threw(WindowTooSmall), Initial(map0, first))
    else
      var f := FinalAsWritten(Env(requests, w, setup, callback, t, first), map0);
      Rolled(w, Ending(f), f)
  }

  /** The first batch followed by the loop as written. */
  function FinalAsWritten(env: Env, map0: map<Handle, nat>): (f: Sched)
    requires ValidEnv(env) && Valid(env.transport)
    requires forall h :: h in map0 ==> h < env.first
    ensures f.i >= env.window
  {
    BeginWf(env, map0);
    RunAsWritten(env, Begin(env, Initial(map0, env.first)))
  }

  /** The loop as written keeps the invariant too: each of its iterations is one poll's drain. */
  lemma {:induction false} RunAsWrittenInv(env: Env, s: Sched)
    requires Inv(env, s) && Valid(env.transport)
    ensures Inv(env, RunAsWritten(env, s))
    decreases Measure(env, s)
  {
    if |s.active| != 0 && env.transport.poll(s.active.Keys).Finished? {
      var done := env.transport.poll(s.active.Keys).done;
      var d := AsWrittenStep(env, s);
      if Running(s, done) != 0 {
        RunAsWrittenInv(env, d);
      }
    }
  }

  /** One poll of the loop as written that finishes handles: it stops at the drained state or goes on from it. */
  lemma AsWrittenStep(env: Env, s: Sched) returns (d: Sched)
    requires Inv(env, s) && Valid(env.transport)
    requires |s.active| != 0 && env.transport.poll(s.active.Keys).Finished?
    ensures var done := env.transport.poll(s.active.Keys).done;
      && Inv(env, d) && Measure(env, d) < Measure(env, s)
      && RunAsWritten(env, s) == (if Running(s, done) == 0 then d else RunAsWritten(env, d))
  {
    var done := env.transport.poll(s.active.Keys).done;
    assert ValidPoll(s.active.Keys, env.transport.poll(s.active.Keys));
    DrainInv(env, s, done);
    d := Drain(env, s, done);
  }

  /** With a window of at least 2, the as-written `rollingCurl` ends as the as-written run from its first batch does. */
  lemma RollingAsWrittenIsFinal(requests: seq<Request>, field: int, arg: Option<int>, setup: Request -> Assoc<Value>,
                                callback: Callback, t: Transport, map0: map<Handle, nat>, first: Handle)
    requires Valid(t) && forall h :: h in map0 ==> h < first
    requires ClampWindow(field, arg, |requests|) >= 2
    ensures var env := Env(requests, ClampWindow(field, arg, |requests|), setup, callback, t, first);
      var f := FinalAsWritten(env, map0);
      RollingCurlAsWritten(requests, field, arg, setup, callback, t, map0, first) == Rolled(env.window, Ending(f), f)
  {
  }

  /**
   * The program as written keeps the same safety invariant as the
   * corrected one: at most `window` handles in flight, an injective map
   * for this execution, each dispatched index dispatched once and in
   * order, and a callback log as `CallsOk` describes (no invocation after
   * a captured exception, every call paired with its own handle's reply).
   */
  lemma RollingAsWrittenInv(requests: seq<Request>, field: int, arg: Option<int>, setup: Request -> Assoc<Value>,
                            callback: Callback, t: Transport, map0: map<Handle, nat>, first: Handle)
    requires Valid(t) && forall h :: h in map0 ==> h < first
    requires ClampWindow(field, arg, |requests|) >= 2
    ensures var r := RollingCurlAsWritten(requests, field, arg, setup, callback, t, map0, first);
      Inv(Env(requests, r.window, setup, callback, t, first), r.final)
  {
    var env := Env(requests, ClampWindow(field, arg, |requests|), setup, callback, t, first);
    RollingAsWrittenIsFinal(requests, field, arg, setup, callback, t, map0, first);
    BeginInv(env, map0);
    RunAsWrittenInv(env, Begin(env, Initial(map0, first)));
  }

  /**
   * As written, too, `true` is returned exactly when no invocation threw,
   * and otherwise the exception rethrown is the first one, raised by the
   * last invocation.
   */
  lemma RollingAsWrittenRethrows(requests: seq<Request>, field: int, arg: Option<int>, setup: Request -> Assoc<Value>,
                                 callback: Callback, t: Transport, map0: map<Handle, nat>, first: Handle)
    requires Valid(t) && forall h :: h in map0 ==> h < first
    requires callback.Callable? && ClampWindow(field, arg, |requests|) >= 2
    ensures var r := RollingCurlAsWritten(requests, field, arg, setup, callback, t, map0, first);
      var calls := r.final.calls;
      && (r.outcome == ReturnedTrue <==>
            forall k :: 0 <= k < |calls| ==> callback.handler(k, calls[k].reply, calls[k].request).None?)
      && (r.outcome.Threw? ==>
            && |calls| > 0
            && callback.handler(|calls| - 1, Last(calls).reply, Last(calls).request) == Some(r.outcome.error)
            && forall k :: 0 <= k < |calls| - 1 ==> callback.handler(k, calls[k].reply, calls[k].request).None?)
  {
    var env := Env(requests, ClampWindow(field, arg, |requests|), setup, callback, t, first);
    RollingAsWrittenInv(requests, field, arg, setup, callback, t, map0, first);
    RollingAsWrittenIsFinal(requests, field, arg, setup, callback, t, map0, first);
    ExceptionIsLastCall(env, FinalAsWritten(env, map0));
  }

  /** Three GET requests for the same URL. */
  function ThreeRequests(): seq<Request> {
    [Request("u", "GET", Null, [], []), Request("u", "GET", Null, [], []), Request("u", "GET", Null, [], [])]
  }

  /** Handles set up with no options. */
  function NoOptions(): Request -> Assoc<Value> {
    q => []
  }

  /** A callable callback that never throws. */
  function NeverThrows(): Callback {
    Callable((k, reply, q) => None)
  }

  /**
   * A transport on which both handles of the first batch finish in the
   * same poll, and the replacement handle in the next one.
   */
  function BothFinishTogether(): Transport {
    Transport(
      a => if a == {0, 1} then Finished([0, 1]) else if a == {2} then Finished([2]) else Aborted,
      (h, o) => Reply(Some(""), Info(200)))
  }

  lemma BothFinishTogetherValid()
    ensures Valid(BothFinishTogether())
  {
    var t := BothFinishTogether();
    forall a: set<Handle> | a != {} ensures ValidPoll(a, t.poll(a)) {
      if a == {0, 1} {
        assert t.poll(a) == Finished([0, 1]);
      } else if a == {2} {
        assert t.poll(a) == Finished([2]);
      }
    }
  }

  /** The execution of the counterexample: three requests, a window of 2, fresh handles from 0. */
  function Example(): Env {
    Env(ThreeRequests(), 2, NoOptions(), NeverThrows(), BothFinishTogether(), 0)
  }

  /** The first batch attaches handles 0 and 1. */
  lemma ExampleBegin()
    ensures var b := Begin(Example(), Initial(map[], 0));
      && b.active.Keys == {0, 1} && b.i == 2 && b.next == 2
      && b.requestMap == map[0 := 0, 1 := 1] && b.exc.None? && b.calls == []
  {
    var env := Example();
    var s0 := Initial(map[], 0);
    var s1 := Dispatch(env, s0);
    var s2 := Dispatch(env, s1);
    assert Begin(env, s0) == Begin(env, s1) == Begin(env, s2) == s2;
    assert s2.requestMap == map[0 := 0, 1 := 1];
  }

  /**
   * The shape of the counterexample, abstracted from its concrete
   * functions: three requests, a callback that never throws, and a valid
   * transport on which handles 0 and 1 finish together and handle 2 alone.
   */
  ghost predicate Together(env: Env) {
    && |env.requests| == 3 && env.window == 2
    && env.callback.Callable? && (forall k, r, q :: env.callback.handler(k, r, q).None?)
    && Valid(env.transport)
    && env.transport.poll({0, 1}) == Finished([0, 1])
    && env.transport.poll({2}) == Finished([2])
  }

  lemma ExampleTogether()
    ensures Together(Example())
  {
    BothFinishTogetherValid();
  }

  /** The state after the first batch of the counterexample. */
  ghost predicate FirstBatch(b: Sched) {
    b.active.Keys == {0, 1} && b.i == 2 && b.next == 2 && b.requestMap == map[0 := 0, 1 := 1] && b.exc.None? && b.calls == []
  }

  /** A completion with a callable callback that returns normally, while no exception is captured. */
  lemma CompleteQuiet(env: Env, s: Sched, h: Handle)
    requires Wf(env, s) && h in s.active && s.exc.None?
    requires env.callback.Callable? && forall k, r, q :: env.callback.handler(k, r, q).None?
    ensures var r := Complete(env, s, h);
      && r.exc.None? && |r.calls| == |s.calls| + 1
      && (s.i < |env.requests| ==>
            && r.i == s.i + 1 && r.next == s.next + 1
            && r.requestMap == (s.requestMap - {h})[s.next := s.i]
            && r.active.Keys == (s.active.Keys + {s.next}) - {h})
      && (s.i == |env.requests| ==>
            && r.i == s.i && r.next == s.next
            && r.requestMap == s.requestMap - {h}
            && r.active.Keys == s.active.Keys - {h})
  {
    CompleteEffect(env, s, h);
  }

  /** Handle 0 finishes first and is replaced by handle 2, for the third request. */
  lemma ExampleFirstDone(env: Env, b: Sched)
    requires Together(env) && FirstBatch(b)
    ensures Wf(env, b)
    ensures var c := Complete(env, b, 0);
      && c.active.Keys == {1, 2} && c.i == 3 && c.next == 3
      && c.requestMap == map[1 := 1, 2 := 2] && c.exc.None? && |c.calls| == 1
  {
    CompleteQuiet(env, b, 0);
    Replace(b.requestMap);
    assert ({0, 1} + {2}) - {0} == {1, 2};
  }

  /** The map after handle 0 is replaced by handle 2. */
  lemma Replace(m: map<Handle, nat>)
    requires m == map[0 := 0, 1 := 1]
    ensures (m - {0})[2 := 2] == map[1 := 1, 2 := 2]
  {
    var r := (m - {0})[2 := 2];
    assert r.Keys == {1, 2};
    assert r[1] == 1 && r[2] == 2;
  }

  /** Handle 1 finishes next; no request is left to replace it. */
  lemma ExampleSecondDone(env: Env, c: Sched)
    requires Together(env)
    requires c.active.Keys == {1, 2} && c.i == 3 && c.next == 3
    requires c.requestMap == map[1 := 1, 2 := 2] && c.exc.None? && |c.calls| == 1
    ensures Wf(env, c)
    ensures var d := Complete(env, c, 1);
      && d.active.Keys == {2} && d.i == 3 && d.next == 3
      && d.requestMap == map[2 := 2] && d.exc.None? && |d.calls| == 2
  {
    CompleteQuiet(env, c, 1);
    assert map[1 := 1, 2 := 2] - {1} == map[2 := 2];
    assert {1, 2} - {1} == {2};
  }

  /** Draining a poll that reports two handles completes them one after the other. */
  lemma DrainTwo(env: Env, s: Sched, x: Handle, y: Handle)
    requires Wf(env, s) && x in s.active && y in s.active && x != y
    ensures Distinct([x, y])
    ensures Drain(env, s, [x, y]) == Complete(env, Complete(env, s, x), y)
  {
    assert [x, y][0] == x && [x, y][1..] == [y];
    DrainRest(env, s, [x, y]);
    var c := Complete(env, s, x);
    assert [y][0] == y && [y][1..] == [];
    DrainRest(env, c, [y]);
  }

  /** Both finish in the first poll: handle 2 is attached in between, and is left attached. */
  lemma ExampleFirstPoll(env: Env, b: Sched)
    requires Together(env) && FirstBatch(b)
    ensures Wf(env, b) && Distinct([0, 1])
    ensures var d := Drain(env, b, [0, 1]);
      && d.active.Keys == {2} && d.i == 3 && d.next == 3
      && d.requestMap == map[2 := 2] && d.exc.None? && |d.calls| == 2
  {
    ExampleFirstDone(env, b);
    ExampleSecondDone(env, Complete(env, b, 0));
    DrainTwo(env, b, 0, 1);
  }

  /** Handle 2 finishes in the second poll, and nothing is left. */
  lemma ExampleSecondPoll(env: Env, d: Sched)
    requires Together(env)
    requires d.active.Keys == {2} && d.i == 3 && d.next == 3
    requires d.requestMap == map[2 := 2] && d.exc.None? && |d.calls| == 2
    ensures Wf(env, d)
    ensures var e := Drain(env, d, [2]);
      && |e.active| == 0 && |e.calls| == 3 && e.exc.None?
  {
    CompleteQuiet(env, d, 2);
    assert [2][0] == 2 && [2][1..] == [];
    DrainRest(env, d, [2]);
  }

  /** As written, the loop stops after the first poll, because `$running` was 0. */
  lemma ExampleAsWritten(env: Env, b: Sched)
    requires Together(env) && FirstBatch(b)
    ensures Wf(env, b)
    ensures var r := RunAsWritten(env, b);
      && |r.calls| == 2 && 2 in r.active && r.exc.None?
  {
    ExampleFirstPoll(env, b);
    assert env.transport.poll(b.active.Keys) == Finished([0, 1]);
    NoneRunning(b);
  }

  /** When handles 0 and 1 were the attached ones and both finished, `$running` is 0. */
  lemma NoneRunning(b: Sched)
    requires b.active.Keys == {0, 1}
    ensures Running(b, [0, 1]) == 0
  {
    var done: seq<Handle> := [0, 1];
    var finished := set k | 0 <= k < |done| :: done[k];
    assert done[0] in finished && done[1] in finished;
    assert b.active.Keys - finished == {};
  }

  /** The corrected loop polls again and completes handle 2. */
  lemma ExampleCorrected(env: Env, b: Sched)
    requires Together(env) && FirstBatch(b)
    ensures Wf(env, b)
    ensures var r := Run(env, b);
      && |r.calls| == 3 && |r.active| == 0 && r.exc.None?
  {
    ExampleFirstPoll(env, b);
    var d := Drain(env, b, [0, 1]);
    assert b.active.Keys == {0, 1};
    assert Run(env, b) == Run(env, d);
    ExampleSecondPoll(env, d);
    assert d.active.Keys == {2};
    var e := Drain(env, d, [2]);
    assert Run(env, d) == Run(env, e) == e;
  }

  /**
   * The loop as written loses a request: with three requests and a window
   * of 2, when both first handles finish in one poll, `$running` is 0, so
   * the loop ends although the replacement for the third request has just
   * been attached. `rollingCurl` returns `true` with the callback invoked
   * twice and a handle left attached.
   */
  lemma RunningExitsEarly()
    ensures (BothFinishTogetherValid();
             var r := RollingCurlAsWritten(ThreeRequests(), 20, Some(2), NoOptions(), NeverThrows(), BothFinishTogether(), map[], 0);
             r.outcome == ReturnedTrue && |r.final.calls| == 2 && 2 in r.final.active)
  {
    BothFinishTogetherValid();
    ExampleBegin();
    ExampleTogether();
    ExampleAsWritten(Example(), Begin(Example(), Initial(map[], 0)));
  }

  /** On the same transport, the corrected loop invokes the callback for all three requests and leaves nothing attached. */
  lemma CorrectedLoopCompletes()
    ensures (BothFinishTogetherValid();
             var r := RollingCurl(ThreeRequests(), 20, Some(2), NoOptions(), NeverThrows(), BothFinishTogether(), map[], 0);
             r.outcome == ReturnedTrue && |r.final.calls| == 3 && |r.final.active| == 0)
  {
    BothFinishTogetherValid();
    ExampleBegin();
    ExampleTogether();
    ExampleCorrected(Example(), Begin(Example(), Initial(map[], 0)));
    assert Final(Example(), map[]) == Run(Example(), Begin(Example(), Initial(map[], 0)));
  }
}
