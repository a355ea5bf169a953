/**
 * The request queue (`Queue.php`): its configuration fields, the queue of
 * requests, the handle-to-request map, and `execute` with its two paths.
 * `rollingCurl` runs the window loop step by step on the fields and on
 * local variables; its result is proved to be the one the state machine
 * `Scheduler.RollingCurl` describes, and the properties of the schedule
 * are proved there.
 *
 * Resource ids of curl handles are drawn from `nextHandle`, a counter
 * that stands for PHP's resource numbering: a handle is never reused.
 */
module Queueing {
  import opened Php
  import opened Curl
  import opened Net
  import opened Scheduler

  /**
   * An assignment through `__set`: `options` and `headers` are merged,
   * everything else is replaced.
   */
  datatype Property =
    | WindowSize(size: int)
    | Timeout(seconds: int)
    | CallbackProperty(callback: Callback)
    | Options(options: Assoc<Value>)
    | Headers(headers: Assoc<Value>)
    | Requests(requests: seq<Curl.Request>)

  class Queue {
    var windowSize: int
    var timeout: int
    var callback: Callback
    var options: Assoc<Value>
    var headers: Assoc<Value>
    var requests: seq<Curl.Request>
    var requestMap: map<Handle, nat>
    var nextHandle: Handle

    /** Every map entry names a handle that was already created. */
    ghost predicate Valid()
      reads this
    {
      forall h :: h in requestMap ==> h < nextHandle
    }

    /** The options `getOptions` computes, for a given answer to the `safe_mode` query. */
    function Setup(safeModeOff: bool): Curl.Request -> Assoc<Value>
      reads this
    {
      Scheduler.Setup(Config(options, headers, safeModeOff))
    }

    /** `new Queue($callback)`, with resource ids from `first` on. */
    constructor(callback: Callback, first: Handle)
      ensures Valid()
      ensures this.callback == callback && windowSize == 20 && timeout == 10
      ensures options == DefaultOptions && headers == [] && requests == [] && requestMap == map[]
      ensures nextHandle == first
    {
      this.callback := callback;
      windowSize := 20;
      timeout := 10;
      options := DefaultOptions;
      headers := [];
      requests := [];
      requestMap := map[];
      nextHandle := first;
    }

    /**
     * `__set($name, $value)`: an `options` or `headers` value is laid
     * over the current one (`$value + $this->{$name}`: its keys win and
     * the old keys stay); any other property is replaced.
     */
    method Set(p: Property) returns (ok: bool)
      modifies this
      ensures ok
      ensures p.WindowSize? ==> windowSize == p.size
      ensures p.Timeout? ==> timeout == p.seconds
      ensures p.CallbackProperty? ==> callback == p.callback
      ensures p.Options? ==> options == Union(p.options, old(options))
      ensures p.Headers? ==> headers == Union(p.headers, old(headers))
      ensures p.Requests? ==> requests == p.requests
      ensures !p.WindowSize? ==> windowSize == old(windowSize)
      ensures !p.Timeout? ==> timeout == old(timeout)
      ensures !p.CallbackProperty? ==> callback == old(callback)
      ensures !p.Options? ==> options == old(options)
      ensures !p.Headers? ==> headers == old(headers)
      ensures !p.Requests? ==> requests == old(requests)
      ensures requestMap == old(requestMap) && nextHandle == old(nextHandle)
    {
      ok := true;
      match p
      case WindowSize(n) => windowSize := n;
      case Timeout(n) => timeout := n;
      case CallbackProperty(c) => callback := c;
      case Options(o) => options := Union(o, options);
      case Headers(h) => headers := Union(h, headers);
      case Requests(r) => requests := r;
    }

    /** `add($request)`: appends the request to the queue. */
    method Add(request: Curl.Request) returns (ok: bool)
      modifies this
      ensures ok && requests == old(requests) + [request]
      ensures windowSize == old(windowSize) && timeout == old(timeout) && callback == old(callback)
      ensures options == old(options) && headers == old(headers)
      ensures requestMap == old(requestMap) && nextHandle == old(nextHandle)
    {
      requests := requests + [request];
      ok := true;
    }

    /** `request($url, $method, $postData, $headers, $options)`: builds a request and appends it. */
    method Request(url: string, verb: string, postData: Value, headers: Assoc<Value>, options: Assoc<Value>)
      returns (ok: bool)
      modifies this
      ensures ok && requests == old(requests) + [Curl.Request(url, verb, postData, headers, options)]
      ensures windowSize == old(windowSize) && timeout == old(timeout) && callback == old(callback)
      ensures this.options == old(this.options) && this.headers == old(this.headers)
      ensures requestMap == old(requestMap) && nextHandle == old(nextHandle)
    {
      requests := requests + [Curl.Request(url, verb, postData, headers, options)];
      ok := true;
    }

    /** `get($url, $headers, $options)`: a `GET` request without a body. */
    method Get(url: string, headers: Assoc<Value>, options: Assoc<Value>) returns (ok: bool)
      modifies this
      ensures ok && requests == old(requests) + [Curl.Request(url, "GET", Null, headers, options)]
      ensures windowSize == old(windowSize) && timeout == old(timeout) && callback == old(callback)
      ensures this.options == old(this.options) && this.headers == old(this.headers)
      ensures requestMap == old(requestMap) && nextHandle == old(nextHandle)
    {
      ok := Request(url, "GET", Null, headers, options);
    }

    /** `post($url, $postData, $headers, $options)`: a `POST` request. */
    method Post(url: string, postData: Value, headers: Assoc<Value>, options: Assoc<Value>) returns (ok: bool)
      modifies this
      ensures ok && requests == old(requests) + [Curl.Request(url, "POST", postData, headers, options)]
      ensures windowSize == old(windowSize) && timeout == old(timeout) && callback == old(callback)
      ensures this.options == old(this.options) && this.headers == old(this.headers)
      ensures requestMap == old(requestMap) && nextHandle == old(nextHandle)
    {
      ok := Request(url, "POST", postData, headers, options);
    }

    /**
     * `execute($windowSize)`: `singleCurl` when exactly one request is
     * queued, `rollingCurl` otherwise. Besides the outcome, `calls` lists
     * the callback invocations, in order.
     */
    method Execute(arg: Option<int>, safeModeOff: bool, t: Transport) returns (outcome: Outcome, calls: seq<Call>)
      requires Valid() && Net.Valid(t)
      modifies this
      ensures Valid()
      ensures var e := Scheduler.Execute(old(requests), old(windowSize), arg, old(Setup(safeModeOff)), old(callback), t,
                                         old(requestMap), old(nextHandle));
        && requests == e.requests && windowSize == e.window && requestMap == e.requestMap
        && nextHandle == e.next && outcome == e.outcome && calls == e.calls
      ensures timeout == old(timeout) && callback == old(callback) && options == old(options) && headers == old(headers)
    {
      ExecuteFresh(requests, windowSize, arg, Setup(safeModeOff), callback, t, requestMap, nextHandle);
      if |requests| == 1 {
        outcome, calls := SingleCurl(safeModeOff, t);
      } else {
        outcome, calls := RollingCurl(arg, safeModeOff, t);
      }
    }

    /**
     * `singleCurl()`: shifts the first request off the queue, performs it
     * on a fresh handle, and returns the output when no callback is set;
     * otherwise it invokes a callable callback once and returns `true`.
     */
    method SingleCurl(safeModeOff: bool, t: Transport) returns (outcome: Outcome, calls: seq<Call>)
      requires |requests| > 0
      modifies this
      ensures var r := Scheduler.SingleCurl(old(requests[0]), old(Setup(safeModeOff)), callback, t, old(nextHandle));
        outcome == r.outcome && calls == r.calls
      ensures requests == old(requests[1..]) && nextHandle == old(nextHandle) + 1
      ensures windowSize == old(windowSize) && timeout == old(timeout) && callback == old(callback)
      ensures options == old(options) && headers == old(headers) && requestMap == old(requestMap)
    {
      var setup := Setup(safeModeOff);
      var ch := nextHandle;
      nextHandle := nextHandle + 1;
      var request := requests[0];
      requests := requests[1..];
      outcome, calls := Perform(setup, request, t, ch);
    }

    /**
     * The `curl_exec` of `singleCurl` and what follows it: the output when
     * no callback is set, otherwise one invocation of a callable callback.
     */
    method Perform(setup: Curl.Request -> Assoc<Value>, request: Curl.Request, t: Transport, ch: Handle)
      returns (outcome: Outcome, calls: seq<Call>)
      ensures Single(outcome, calls) == Scheduler.SingleCurl(request, setup, callback, t, ch)
    {
      var opts := setup(request);
      var reply := t.reply(ch, opts);
      calls := [];
      if callback.NoCallback? {
        outcome := Returned(Output(reply));
      } else if callback.Callable? {
        calls := [Call(ch, 0, request, reply)];
        var e := callback.handler(0, reply, request);
        outcome := if e.Some? then Threw(e.value) else ReturnedTrue;
      } else {
        outcome := ReturnedTrue;
      }
    }

    /** The scheduler state the fields and the loop variables of `RollingCurl` stand for. */
    ghost function State(i: nat, active: map<Handle, Assoc<Value>>, exc: Option<Exception>, calls: seq<Call>,
                         launched: seq<nat>): Sched
      reads this
    {
      Sched(i, requestMap, active, nextHandle, exc, calls, launched)
    }

    /**
     * Starting a request: `curl_init` (a fresh handle), `getOptions`,
     * `curl_multi_add_handle`, and `$this->requestMap[(string) $ch] = $i`,
     * then `$i++`.
     */
    method Launch(setup: Curl.Request -> Assoc<Value>, i: nat, active: map<Handle, Assoc<Value>>, ghost launched: seq<nat>)
      returns (i': nat, active': map<Handle, Assoc<Value>>, ghost launched': seq<nat>)
      requires i < |requests|
      modifies this
      ensures i' == i + 1 && launched' == launched + [i]
      ensures nextHandle == old(nextHandle) + 1
      ensures active' == active[old(nextHandle) := setup(old(requests)[i])]
      ensures requestMap == old(requestMap)[old(nextHandle) := i]
      ensures requests == old(requests) && windowSize == old(windowSize) && callback == old(callback)
      ensures timeout == old(timeout) && options == old(options) && headers == old(headers)
    {
      var opts := setup(requests[i]);
      var ch := nextHandle;
      nextHandle := nextHandle + 1;
      active' := active[ch := opts];
      requestMap := requestMap[ch := i];
      launched' := launched + [i];
      i' := i + 1;
    }

    /**
     * Processing the finished handle `h` (the body of the `curl_multi_info_read`
     * loop): with a callable callback, look up and unmap its request and,
     * unless an exception is captured, invoke the callback and capture what
     * it throws; then start the next request if one is left and no
     * exception is captured; then `curl_multi_remove_handle`.
     */
    method Finish(ghost env: Env, setup: Curl.Request -> Assoc<Value>, t: Transport, i: nat,
                  active: map<Handle, Assoc<Value>>, exc: Option<Exception>, calls: seq<Call>, ghost launched: seq<nat>,
                  h: Handle)
      returns (i': nat, active': map<Handle, Assoc<Value>>, exc': Option<Exception>, calls': seq<Call>,
               ghost launched': seq<nat>)
      requires env.setup == setup && env.transport == t && env.requests == requests && env.callback == callback
      requires Wf(env, State(i, active, exc, calls, launched)) && h in active
      modifies this
      ensures State(i', active', exc', calls', launched') == Complete(env, old(State(i, active, exc, calls, launched)), h)
      ensures requests == old(requests) && windowSize == old(windowSize) && callback == old(callback)
      ensures timeout == old(timeout) && options == old(options) && headers == old(headers)
    {
      ghost var before := State(i, active, exc, calls, launched);
      exc', calls' := Notify(env, t, i, active, exc, calls, launched, h);
      ghost var invoked := State(i, active, exc', calls', launched);
      i', active', launched' := i, active, launched;
      if i < |requests| && exc'.None? {
        i', active', launched' := Launch(setup, i, active, launched);
        assert State(i', active', exc', calls', launched') == Dispatch(env, invoked);
      }
      active' := active' - {h};
    }

    /**
     * The callback step for the finished handle `h`: with a callable
     * callback, look up and unmap its request and, unless an exception is
     * captured, invoke the callback with the reply and capture what it
     * throws.
     */
    method Notify(ghost env: Env, t: Transport, i: nat, active: map<Handle, Assoc<Value>>, exc: Option<Exception>,
                  calls: seq<Call>, ghost launched: seq<nat>, h: Handle)
      returns (exc': Option<Exception>, calls': seq<Call>)
      requires env.transport == t && env.requests == requests && env.callback == callback
      requires h in active && h in requestMap && requestMap[h] < |requests|
      modifies this
      ensures State(i, active, exc', calls', launched) == Invoke(env, old(State(i, active, exc, calls, launched)), h)
      ensures requests == old(requests) && windowSize == old(windowSize) && callback == old(callback)
      ensures timeout == old(timeout) && options == old(options) && headers == old(headers)
    {
      exc', calls' := exc, calls;
      var reply := t.reply(h, active[h]);
      if callback.Callable? {
        var index := requestMap[h];
        var request := requests[index];
        requestMap := requestMap - {h};
        if exc.None? {
          var e := callback.handler(|calls|, reply, request);
          calls' := calls + [Call(h, index, request, reply)];
          exc' := e;
        }
      }
    }

    /** The `curl_multi_info_read` loop: the finished handles of one poll, in the order reported. */
    method DrainPoll(ghost env: Env, setup: Curl.Request -> Assoc<Value>, t: Transport, i: nat,
                     active: map<Handle, Assoc<Value>>, exc: Option<Exception>, calls: seq<Call>, ghost launched: seq<nat>,
                     done: seq<Handle>)
      returns (i': nat, active': map<Handle, Assoc<Value>>, exc': Option<Exception>, calls': seq<Call>,
               ghost launched': seq<nat>)
      requires env.setup == setup && env.transport == t && env.requests == requests && env.callback == callback
      requires Wf(env, State(i, active, exc, calls, launched))
      requires Distinct(done) && forall k :: 0 <= k < |done| ==> done[k] in active
      modifies this
      ensures Wf(env, State(i', active', exc', calls', launched'))
      ensures State(i', active', exc', calls', launched') == Drain(env, old(State(i, active, exc, calls, launched)), done)
      ensures requests == old(requests) && windowSize == old(windowSize) && callback == old(callback)
      ensures timeout == old(timeout) && options == old(options) && headers == old(headers)
    {
      ghost var polled := State(i, active, exc, calls, launched);
      i', active', exc', calls', launched' := i, active, exc, calls, launched;
      var j := 0;
      while j < |done|
        invariant j <= |done|
        invariant requests == old(requests) && windowSize == old(windowSize) && callback == old(callback)
        invariant timeout == old(timeout) && options == old(options) && headers == old(headers)
        invariant Wf(env, State(i', active', exc', calls', launched'))
        invariant forall k :: j <= k < |done| ==> done[k] in active'
        invariant Drain(env, State(i', active', exc', calls', launched'), done[j..]) == Drain(env, polled, done)
      {
        var h := done[j];
        ghost var before := State(i', active', exc', calls', launched');
        RestOfPoll(env, before, done, j);
        i', active', exc', calls', launched' := Finish(env, setup, t, i', active', exc', calls', launched', h);
        j := j + 1;
      }
      assert done[|done|..] == [];
    }

    /**
     * The `do ... while` loop, corrected to run while handles are attached:
     * poll, and process the finished handles, until no handle is attached
     * or the transport fails (`$execrun !== CURLM_OK`).
     */
    method Poll(ghost env: Env, setup: Curl.Request -> Assoc<Value>, t: Transport, i: nat,
                active: map<Handle, Assoc<Value>>, exc: Option<Exception>, calls: seq<Call>, ghost launched: seq<nat>)
      returns (i': nat, active': map<Handle, Assoc<Value>>, exc': Option<Exception>, calls': seq<Call>,
               ghost launched': seq<nat>)
      requires env.setup == setup && env.transport == t && env.requests == requests && env.callback == callback
      requires Wf(env, State(i, active, exc, calls, launched)) && Net.Valid(t)
      modifies this
      ensures State(i', active', exc', calls', launched') == Run(env, old(State(i, active, exc, calls, launched)))
      ensures requests == old(requests) && windowSize == old(windowSize) && callback == old(callback)
      ensures timeout == old(timeout) && options == old(options) && headers == old(headers)
    {
      ghost var start := State(i, active, exc, calls, launched);
      i', active', exc', calls', launched' := i, active, exc, calls, launched;
      while |active'| > 0
        invariant requests == old(requests) && windowSize == old(windowSize) && callback == old(callback)
        invariant timeout == old(timeout) && options == old(options) && headers == old(headers)
        invariant Wf(env, State(i', active', exc', calls', launched'))
        invariant Run(env, State(i', active', exc', calls', launched')) == Run(env, start)
        decreases Measure(env, State(i', active', exc', calls', launched'))
      {
        var poll := t.poll(active'.Keys);
        if poll.Aborted? {
          break;
        }
        assert ValidPoll(active'.Keys, poll);
        i', active', exc', calls', launched' := DrainPoll(env, setup, t, i', active', exc', calls', launched', poll.done);
      }
    }

    /**
     * `rollingCurl($windowSize)`: stores the clamped window, rejects a
     * window below 2, dispatches the first batch, and then polls and
     * processes finished handles, replenishing the window, until no handle
     * is attached or the transport fails. The loop is the corrected one:
     * it runs while handles are attached (see `Scheduler.RunningExitsEarly`).
     */
    method RollingCurl(arg: Option<int>, safeModeOff: bool, t: Transport) returns (outcome: Outcome, calls: seq<Call>)
      requires Valid() && Net.Valid(t)
      modifies this
      ensures var r := Scheduler.RollingCurl(old(requests), old(windowSize), arg, old(Setup(safeModeOff)), callback, t,
                                             old(requestMap), old(nextHandle));
        && windowSize == r.window && outcome == r.outcome && calls == r.final.calls
        && requestMap == r.final.requestMap && nextHandle == r.final.next
      ensures requests == old(requests) && timeout == old(timeout) && callback == old(callback)
      ensures options == old(options) && headers == old(headers)
    {
      if arg.Some? {
        windowSize := arg.value;
      }
      if |requests| < windowSize {
        windowSize := |requests|;
      }
      if windowSize < 2 {
        return Threw(WindowTooSmall), [];
      }
      var setup := Setup(safeModeOff);
      ghost var env := Env(requests, windowSize, setup, callback, t, nextHandle);
      ghost var s0 := Initial(requestMap, nextHandle);
      var exc: Option<Exception> := None;
      calls := [];
      var i, active, launched := FirstBatch(env, setup);
      BeginWf(env, s0.requestMap);
      i, active, exc, calls, launched := Poll(env, setup, t, i, active, exc, calls, launched);
      outcome := if exc.Some? then Threw(exc.value) else ReturnedTrue;
    }

    /** The `for` loop of `rollingCurl` that starts the first `windowSize` requests. */
    method FirstBatch(ghost env: Env, setup: Curl.Request -> Assoc<Value>)
      returns (i: nat, active: map<Handle, Assoc<Value>>, ghost launched: seq<nat>)
      requires env.setup == setup && env.requests == requests && env.callback == callback
      requires env.window == windowSize && 2 <= windowSize <= |requests| && env.first == nextHandle
      modifies this
      ensures State(i, active, None, [], launched) == Begin(env, Initial(old(requestMap), env.first))
      ensures requests == old(requests) && windowSize == old(windowSize) && callback == old(callback)
      ensures timeout == old(timeout) && options == old(options) && headers == old(headers)
    {
      ghost var s0 := Initial(requestMap, nextHandle);
      i, active, launched := 0, map[], [];
      while i < windowSize
        invariant i <= windowSize
        invariant requests == old(requests) && windowSize == old(windowSize) && callback == old(callback)
        invariant timeout == old(timeout) && options == old(options) && headers == old(headers)
        invariant Begin(env, State(i, active, None, [], launched)) == Begin(env, s0)
      {
        ghost var before := State(i, active, None, [], launched);
        i, active, launched := Launch(setup, i, active, launched);
        assert State(i, active, None, [], launched) == Dispatch(env, before);
      }
    }
  }
}
