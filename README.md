# rolling-curl, modelled in Dafny

This project models the core of the PHP `rolling-curl` library. `Queue`
issues a batch of HTTP requests through curl's multi interface and keeps
at most a fixed number of them ("the window") in flight. Each time one
finishes, it hands the response to a callback and starts the next queued
request. `Collector` is a small result table built on a queue.

Modules, from the leaves up:

- `Php` (php.dfy) covers the PHP values used by the queue.
  - Arrays are modelled in order, with distinct keys.
  - `$a[$k] = $v` is `Assign`, `$l + $r` is `Union` (left-biased), and `array_keys($a, $v)[0]` is `FirstKeyOf`.
- `Curl` (curl.dfy) holds the request record, the `CURLOPT_*` constants with their libcurl values, and `getOptions` (`EffectiveOptions`).
- `Net` (net.dfy) is the transport, kept abstract.
  - A poll either fails, standing for `curl_multi_exec` returning something other than `CURLM_OK`, or lists the handles that finished, in the order curl reports them.
  - A reply is a body plus what `curl_getinfo` reports.
  - `Valid` is the only promise made about the transport: it reports distinct attached handles, at least one per poll.
- `Scheduler` (scheduler.dfy) is `execute`, `singleCurl` and `rollingCurl` written as a state machine over values.
  - An execution carries a cursor, the handle→index map, the attached handles with their options, the captured callback exception, and logs of callback invocations and dispatched indices.
  - It holds the invariant of the window loop and the theorems about a whole execution.
- `Queueing` (queueing.dfy) is the class `Queue` with its fields.
  - `rollingCurl` runs imperatively: a `for` loop for the first batch, an outer poll loop, and an inner loop over finished handles.
  - Its result is proved equal to `Scheduler.RollingCurl`.
- `Collecting` (collecting.dfy) is the class `Collector`.
  - `processPage` only writes `data` and only reads `requests`. The queue ignores what the callback returns.
  - So `run` is modelled as `execute` followed by `processPage` for each recorded invocation, in invocation order.

Points where the code behaves differently from what its documentation suggests (the model follows the code):

- `getOptions` never reads a request's own `headers` or `method`. Only the queue-level headers are sent. A request body turns on `CURLOPT_POST`, whatever the method.
- After a callback throws, in-flight handles are drained, but no further request is started. A batch with a failure therefore does not complete every round trip.
- The clamped window is stored back into `$this->windowSize`, so it persists into later executions.
- A map entry is removed only when the callback is callable. With no callable callback, the entries of every execution stay in `requestMap`.
- `singleCurl` shifts its request off the queue, does not catch an exception from the callback, and returns `true` for a callback that is set but not callable.
- With an empty queue, `execute` takes the rolling path and throws, because the window clamps to 0.

## Model

| member | source | states |
|---|---|---|
| `Php.Get` | Queue.php:321 | `$a[$k]` is present exactly when `$k` is a key of `$a`; its value is given by `GetUnion`, `GetAssign` and `FirstKeyOf` |
| `Php.Assign` | Queue.php:321 | `$a[$k] = $v` makes the key set that of `$a` plus `$k`; order and values are in `AssignOrder` and `GetAssign` |
| `Php.Missing` | Queue.php:317 | the entries `$l + $r` takes from `$r`: exactly the keys of `$r` not in `$l`, with `$r`'s values; their order is in `MissingOrder` |
| `Php.Union` | Queue.php:317 | `$l + $r` has the keys of both operands, and the left operand is its prefix, unchanged |
| `Php.GetUnion` | Queue.php:317 | in `$l + $r` a key of the left operand keeps the left value; any other key takes the right value |
| `Php.MissingOrder` | Queue.php:97 | the entries `$l + $r` takes from the right operand keep their relative order in it, which fixes the order of a merged header list |
| `Php.AssignOrder` | Queue.php:310-311 | assigning to an existing key keeps every key in place; a new key is appended at the end |
| `Php.GetAssign` | Queue.php:321 | after `$a[$k] = $v`, `$a[$k]` is `$v` and every other key is unchanged |
| `Php.FirstKeyOf` | Collector.php:17 | `array_keys($a, $v)[0]` is a key whose value is `$v` with no earlier such key, or none when no value is `$v` |
| `Curl.BaseOptionsAt` | Queue.php:308-312 | the base options, with redirects set to follow (max 5) when safe mode is off |
| `Curl.MergedOptionsAt` | Queue.php:316-318 | a non-empty request options array wins on each of its keys; every other key keeps the queue-level value |
| `Curl.WithUrlAt` | Queue.php:321 | `CURLOPT_URL` is set to the request URL over any other value |
| `Curl.WithPostAt` | Queue.php:324-327 | a truthy body sets `CURLOPT_POST` to 1 and `CURLOPT_POSTFIELDS` to the body; with a falsy body nothing changes |
| `Curl.EffectiveOptionsAt` | Queue.php:306-334 | `getOptions`, key by key: URL, then post keys, then the header keys when queue headers are non-empty, then request options, then queue options |
| `Curl.EffectiveOptions` | Queue.php:306-334 | definition of `getOptions`; its properties are in `EffectiveOptionsAt`, `UrlIsRequestUrl` and `RequestOptionWins` |
| `Curl.UrlIsRequestUrl` | Queue.php:321 | the URL handed to curl is always the request's own, whatever its options say |
| `Curl.RequestOptionWins` | Queue.php:316-318 | a request-level option overrides the queue-level one, except for the keys `getOptions` sets afterwards |
| `Scheduler.Dispatch` | Queue.php:268-276 | starting a request attaches one fresh handle, set up with the cursor's request options, maps it to the cursor, and advances the cursor by one; nothing else changes |
| `Scheduler.Invoke` | Queue.php:251-264 | a callable callback unmaps the finished handle; it is invoked with its request and reply only when no exception is captured, and then its throw becomes the captured exception; any other callback changes nothing |
| `Scheduler.Complete` | Queue.php:244-281 | processing a finished handle detaches it, unmaps it when the callback is callable, and replenishes with one fresh handle exactly when requests remain and no exception is captured; after an exception it invokes nothing and starts nothing; a callable callback appends one invocation to the log |
| `Scheduler.Drain` | Queue.php:244-282 | processing a poll's finished handles in order: the cursor never decreases, a captured exception freezes the log and the cursor, and a callback that is not callable is never invoked |
| `Scheduler.Run` | Queue.php:237-288 | the corrected loop ends with no handle attached or on a failed poll; the cursor never decreases |
| `Scheduler.CompleteWindow` | Queue.php:267-277 | after each completion at most `window` handles are attached (the replacement is attached before the finished handle is detached, so `window + 1` are attached in between), and keeps the window full while requests remain and no exception is captured |
| `Scheduler.CompleteSlots` | Queue.php:253-275 | every attached handle stays mapped to a dispatched request and set up with that request's options; this execution's entries map distinct handles to distinct indices; with a callable callback none outlives its handle |
| `Scheduler.CompleteLaunched` | Queue.php:267-277 | exactly the indices below the cursor have been dispatched, once each and in ascending order |
| `Scheduler.CompleteCallsResults` | Queue.php:257-263 | every invocation except one that threw returned normally, and the captured exception is the one the last invocation threw |
| `Scheduler.CompleteInv` | Queue.php:244-281 | processing one finished handle keeps the whole invariant |
| `Scheduler.DrainInv` | Queue.php:244-282 | processing all handles of one poll keeps the invariant |
| `Scheduler.RunInv` | Queue.php:237-288 | the loop keeps the invariant to its end |
| `Scheduler.BeginBatch` | Queue.php:224-235 | the first batch maps `W` distinct fresh handles to indices `0 .. W-1`, attaches exactly those, leaves earlier map entries alone, and leaves the cursor at `W` |
| `Scheduler.Begin` | Queue.php:224-235 | the first-batch `for` loop leaves the cursor at the window; the rest is in `BeginBatch` and `BeginInv` |
| `Scheduler.BeginInv` | Queue.php:224-235 | the invariant holds after the first batch |
| `Scheduler.RunDrains` | Queue.php:237-288 | on a transport that never fails, the corrected loop ends with nothing attached, and with every request dispatched unless a callback threw |
| `Scheduler.ClampWindow` | Queue.php:206-213 | the window is the argument if given, else the field, capped at the number of requests |
| `Scheduler.Setup` | Queue.php:227-228 | definition: a handle is set up with `getOptions` of its request under the queue's configuration; its properties are those of `Curl.EffectiveOptions` |
| `Scheduler.RollingCurl` | Queue.php:205-296 | the clamped window is stored; a window below 2 throws before any handle is created; otherwise the outcome is the captured exception or `true` |
| `Scheduler.RollingInv` | Queue.php:205-296 | the final state of `rollingCurl` satisfies the invariant |
| `Scheduler.RollingCallsEachRequestOnce` | Queue.php:244-282 | for the corrected loop: with a callable callback on a transport that never fails, a `true` result means each request went to the callback exactly once, with its own handle's reply, nothing is left attached, and no map entry of this execution remains |
| `Scheduler.RollingRethrowsFirstException` | Queue.php:257-295 | `true` exactly when no invocation threw; otherwise the last invocation's exception, the first one thrown, is rethrown after the loop |
| `Scheduler.RollingWithoutCallback` | Queue.php:250-264 | a callback that is unset or not callable is never invoked, and `rollingCurl` then returns `true` (window permitting) |
| `Scheduler.Output` | Queue.php:182 | definition: `curl_exec` yields the body, or `false` when there is none; used by `SingleCurl` |
| `Scheduler.Content` | Queue.php:248 | definition: `curl_multi_getcontent` yields the body, or `null` when there is none; used by `Collecting.Response` |
| `Scheduler.SingleCurl` | Queue.php:177-195 | the raw output is returned exactly when no callback is set; a callable callback is invoked once with the request and its reply, and its throw propagates; a callback that is set but not callable means `true` and no invocation |
| `Scheduler.Execute` | Queue.php:161-169 | the single path shifts the request off and keeps window and map; the rolling path (the corrected loop) keeps the queue and stores the clamped window |
| `Scheduler.ExecutePaths` | Queue.php:163-168 | with one queued request the result does not depend on the window argument, takes one fresh handle and calls back at most once; with any other number of requests the raw output is never returned |
| `Scheduler.ExecuteFresh` | Queue.php:232-275 | every map entry left by `execute` names a handle older than the next fresh one |
| `Scheduler.RollingCurlAsWritten` | Queue.php:205-296 | `rollingCurl` with the loop as written: the window is clamped, a window below 2 throws before any handle is opened, and otherwise the held exception is rethrown or `true` returned |
| `Scheduler.RunAsWritten` | Queue.php:237-288 | the loop as written, exiting when `$running` is zero: it keeps every attached handle mapped and older than the next fresh one, and the cursor never decreases; its invariant is in `RunAsWrittenInv` and its early exit in `RunningExitsEarly` |
| `Scheduler.Running` | Queue.php:238 | definition of `$running`: the attached handles the poll did not report finished; used by `RunAsWritten` |
| `Scheduler.RunAsWrittenInv` | Queue.php:237-288 | the loop as written, exiting on `$running`, keeps the same invariant as the corrected loop |
| `Scheduler.RollingAsWrittenInv` | Queue.php:205-296 | the final state of `rollingCurl` as written satisfies the invariant: window bound, injective map, each index dispatched once and in order, no invocation after a captured exception, each call paired with its handle's reply |
| `Scheduler.RollingAsWrittenRethrows` | Queue.php:205-296 | as written, `true` is returned exactly when no invocation threw; otherwise the exception rethrown is the first, raised by the last invocation |
| `Scheduler.RunningExitsEarly` | Queue.php:237-288 | the loop as written, with 3 requests and a window of 2, when both first handles finish in one poll: `true` is returned after 2 invocations, with handle 2 still attached |
| `Scheduler.CorrectedLoopCompletes` | Queue.php:237-288 | on the same transport, the corrected loop invokes the callback 3 times and leaves nothing attached |
| `Queueing.Queue.constructor` | Queue.php:16-79 | the defaults: window 20, timeout 10, the four base options, no headers, no requests, an empty map, the given callback |
| `Queueing.Queue.Set` | Queue.php:94-102 | `__set` lays `options` and `headers` over the old value (new keys win, old keys stay) and replaces any other property; it returns `true` |
| `Queueing.Queue.Add` | Queue.php:110-113 | the request is appended, earlier entries unchanged, and the result is `true` |
| `Queueing.Queue.Request` | Queue.php:125-128 | a request with the given fields is appended |
| `Queueing.Queue.Get` | Queue.php:138-140 | a `GET` request with no body is appended |
| `Queueing.Queue.Post` | Queue.php:151-153 | a `POST` request with the given body is appended |
| `Queueing.Queue.Execute` | Queue.php:161-169 | the new queue state and the outcome are those of `Scheduler.Execute`, and the map stays older than the next handle |
| `Queueing.Queue.SingleCurl` | Queue.php:177-195 | the outcome and invocations are those of `Scheduler.SingleCurl` on the shifted request and a fresh handle |
| `Queueing.Queue.Perform` | Queue.php:179-192 | the transfer and what follows it are exactly `Scheduler.SingleCurl` for the request and handle |
| `Queueing.Queue.Launch` | Queue.php:268-276 | a fresh handle is created, set up with the request's options, attached and mapped to the cursor, and the cursor advances |
| `Queueing.Queue.Notify` | Queue.php:250-264 | the callback step for one finished handle, in place, is a `Scheduler.Invoke` step |
| `Queueing.Queue.FirstBatch` | Queue.php:223-234 | the first-batch loop leaves the cursor, attached handles and map exactly as `Scheduler.Begin` does |
| `Queueing.Queue.Finish` | Queue.php:246-280 | processing one finished handle in place is a `Scheduler.Complete` step |
| `Queueing.Queue.DrainPoll` | Queue.php:244-282 | the `curl_multi_info_read` loop is a `Scheduler.Drain` of the poll's handles |
| `Queueing.Queue.Poll` | Queue.php:237-288 | the polling loop (corrected) is `Scheduler.Run` |
| `Queueing.Queue.RollingCurl` | Queue.php:205-296 | window field, outcome, invocations, map and handle counter after the imperative loop are those of `Scheduler.RollingCurl` |
| `Collecting.Recording` | Collector.php:12 | definition: `array($this, 'processPage')` as the queue sees it, a callable callback that never throws; its effect on the table is in `Collecting.Collector.Run` |
| `Collecting.PageKey` | Collector.php:17 | the key is the first one under which an equal request is registered, and it looks that request up; with none it is the empty key (`null`) |
| `Collecting.Stored` | Collector.php:18-21 | definition: a status other than 200 stores `false`; status 200 stores the response, even `null` or empty; used by `Store` and `PagesLastWins` |
| `Collecting.Store` | Collector.php:15-22 | `processPage` sets the entry at the request's key and keeps every other entry |
| `Collecting.Response` | Queue.php:182 | definition: the body the callback receives, `curl_exec`'s output on the single path and `curl_multi_getcontent`'s (Queue.php:248) on the rolling path |
| `Collecting.Pages` | Collector.php:15-22 | definition: the table after `processPage` for each invocation in order; its properties are in `PagesElsewhere` and `PagesLastWins` |
| `Collecting.PagesElsewhere` | Collector.php:15-22 | a key that no invocation's request maps to keeps its entry through a run |
| `Collecting.PagesLastWins` | Collector.php:15-22 | the entry at a key is the one the last invocation for that key stored |
| `Collecting.Accepted` | Collector.php:32-34 | the elements taken before the first non-request are exactly the leading requests, and the next element, if any, is not a request |
| `Collecting.RegisterAt` | Collector.php:35 | after registration a key holds the request last registered under it; any other key is unchanged |
| `Collecting.Register` | Collector.php:35 | definition: `$this->requests[$key] = $request` for each pair in order; its properties are in `RegisterAt` |
| `Collecting.Queued` | Collector.php:36 | the requests are queued in iteration order |
| `Collecting.Collector.constructor` | Collector.php:10-13 | an empty table and a fresh queue whose callback is `processPage` |
| `Collecting.Collector.ProcessPage` | Collector.php:15-22 | the table becomes `Store` of the old one; the registrations are untouched |
| `Collecting.Collector.AddRequest` | Collector.php:24-27 | the request is registered under the key; the data and the queue are untouched |
| `Collecting.Collector.Enqueue` | Collector.php:32-37 | registers and queues the leading requests in order, and reports whether every element was a request |
| `Collecting.Collector.Accept` | Collector.php:35-36 | the request is registered under its key and appended to the queue; data and the queue's other fields are untouched |
| `Collecting.Collector.Replay` | Collector.php:38 | `processPage` is applied for each invocation, in order |
| `Collecting.Collector.Run` | Collector.php:30-39 | a non-request element throws after the earlier elements were registered and queued, with `execute` not called; otherwise `execute()` runs once on the whole queue, with the corrected loop, and the result of each of its invocations is stored |
| `Collecting.Collector.GetData` | Collector.php:41-47 | without a key: the whole table, or `null` while it is empty; with a key: the stored value, or `null` when nothing is stored there |

## Left out

- The curl calls themselves are not modelled; they are I/O. This covers `curl_init`, `curl_setopt_array`, `curl_exec`, `curl_multi_*` and `curl_getinfo`. The transport is a parameter: a poll function and a reply function of the handle and its options.
- Polls in which no handle finishes are not modelled. During those the code only spins on `CURLM_CALL_MULTI_PERFORM` or waits in `curl_multi_select`. So the select timeout is stored in the `timeout` field but never used.
- A transport that never reports a finished handle is outside `Net.Valid`. On such a transport the PHP loop would spin forever. The model assumes every poll makes progress.
- `ini_get('safe_mode')` is an environment query, so it is a boolean parameter (`safeModeOff`).
- Handles are numbers drawn in sequence from a counter. PHP's resource ids are also used up by the multi handle and by other resources; only freshness matters to the properties.
- Callback exceptions are all caught. `rollingCurl` catches `Exception` inside the `RollingCurl` namespace, and a thrown object of another class would escape the loop at once. PHP class resolution is not modelled.
- PHP's loose comparison in `array_keys($this->requests, $request)` is modelled as structural equality of requests.
- PHP key normalisation (`"1"` as `1`) is not modelled, and neither are floats or objects other than requests.
- `__set` with a non-array value for `options` or `headers` is not modelled; PHP raises an error there. Nor is `__set` of the map or of an undeclared property.
- `__get`, `__destruct` and the `Request` constructor are not modelled: they are plain reads, teardown and a data record. `index.php` is a demonstration driver, not part of this model.
- `Scheduler.Output`: assumes `CURLOPT_RETURNTRANSFER` is set, as in the default options. If a request clears it, `curl_exec` returns `true` instead of the body, and that case is not modelled.
- `Collecting.Collector.Run`: `processPage` is applied after `execute` rather than interleaved with it. The two are equivalent because neither side reads what the other writes. The invocations are returned by `Queueing.Queue.Execute` as an extra out-parameter.
- `Scheduler.Execute`: its rolling path runs the corrected `Scheduler.RollingCurl`, not the loop as written. Where the `$running` exit leaves requests unfinished (see Findings), the source makes fewer callback invocations than this model.
- `Queueing.Queue.Execute`: it is tied to `Scheduler.Execute`, so its rolling path also runs the corrected loop, with the same difference from the source.
- `Collecting.Collector.Run`: it runs `execute` with the corrected loop. Where the `$running` exit drops requests, the source stores fewer pages than the model. On the Findings input the source stores 2 pages and the model stores 3.
- `Queueing.Queue.RollingCurl` implements the corrected loop. The loop as written, which exits on `$running`, is modelled by `Scheduler.RollingCurlAsWritten` (see Findings), and its invariant and exception behaviour are proved by `Scheduler.RollingAsWrittenInv` and `Scheduler.RollingAsWrittenRethrows`.
- A callback that changes the queue during `rollingCurl` is not modelled. Such a callback might add requests, set options or headers, or set the callback. The source re-reads `$this->callback` for each finished handle (Queue.php:251), `count($this->requests)` before each replenishment (Queue.php:267) and the options and headers on each dispatch (Queue.php:269). The model fixes the batch, the options and the callback for the whole execution: the callback is a pure function of the call's index, reply and request.
- The `isset($this->requests[$i])` test in the replenish condition is not modelled separately. The queue is a sequence of requests, so it is the same as `$i < count($this->requests)`.

## Findings

| source | as written | input that shows it | evidently intended | confidence | as-written member | corrected member |
|---|---|---|---|---|---|---|
| Queue.php:237-288 | the loop runs `while ($running)`. `curl_multi_exec` counts `$running` before the finished handles are processed, so it does not include the replacements started while draining | 3 requests, window 2: handles 0 and 1 finish in the same poll. `$running` is 0, request 3's handle is attached while draining, and the loop exits. The callback has run twice and `true` is returned | loop while any handle is attached, so every dispatched request completes and calls back | not executed | `Scheduler.RunningExitsEarly` | `Scheduler.RollingCallsEachRequestOnce` |

The corrected loop is `Scheduler.Run`, used by `Scheduler.RollingCurl` and by `Queueing.Queue.Poll`. `Scheduler.CorrectedLoopCompletes` states that the corrected loop, on the same transport as the counterexample, invokes the callback 3 times.
