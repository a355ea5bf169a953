/**
 * Requests and the per-request curl options the queue computes for them
 * (`Request.php` and `Queue::getOptions`). Option keys are libcurl's
 * `CURLOPT_*` integer constants, with their libcurl values.
 */
module Curl {
  import opened Php

  const CURLOPT_TIMEOUT: Key := IntKey(13)
  const CURLOPT_HEADER: Key := IntKey(42)
  const CURLOPT_POST: Key := IntKey(47)
  const CURLOPT_FOLLOWLOCATION: Key := IntKey(52)
  const CURLOPT_SSL_VERIFYPEER: Key := IntKey(64)
  const CURLOPT_MAXREDIRS: Key := IntKey(68)
  const CURLOPT_CONNECTTIMEOUT: Key := IntKey(78)
  const CURLOPT_URL: Key := IntKey(10002)
  const CURLOPT_POSTFIELDS: Key := IntKey(10015)
  const CURLOPT_HTTPHEADER: Key := IntKey(10023)
  const CURLOPT_RETURNTRANSFER: Key := IntKey(19913)

  /**
   * A request record (`verb` is the PHP `$method` property). `null`
   * headers or options are the empty array (the two behave alike
   * everywhere the queue looks at them).
   */
  datatype Request = Request(
    url: string,
    verb: string,
    postData: Value,
    headers: Assoc<Value>,
    options: Assoc<Value>)

  /** The queue's base options, as the queue is constructed with them. */
  const DefaultOptions: Assoc<Value> :=
    [ (CURLOPT_SSL_VERIFYPEER, Int(0)),
      (CURLOPT_RETURNTRANSFER, Int(1)),
      (CURLOPT_CONNECTTIMEOUT, Int(5)),
      (CURLOPT_TIMEOUT, Int(5)) ]

  /**
   * What `getOptions` reads from the queue: its base options and headers,
   * and whether PHP's `safe_mode` is off (an environment query, here a
   * parameter).
   */
  datatype Config = Config(options: Assoc<Value>, headers: Assoc<Value>, safeModeOff: bool)

  /** The base options with the redirect settings `getOptions` adds when safe mode is off. */
  function BaseOptions(c: Config): Assoc<Value> {
    if c.safeModeOff then Assign(Assign(c.options, CURLOPT_FOLLOWLOCATION, Int(1)), CURLOPT_MAXREDIRS, Int(5))
    else c.options
  }

  /**
   * The base options with the request's own options laid over them (`if
   * ($request->options)`: a PHP array is truthy when it is non-empty).
   */
  function MergedOptions(c: Config, r: Request): Assoc<Value> {
    if |r.options| > 0 then Union(r.options, BaseOptions(c)) else BaseOptions(c)
  }

  /** The merged options with the request URL set. */
  function WithUrl(c: Config, r: Request): Assoc<Value> {
    Assign(MergedOptions(c, r), CURLOPT_URL, Str(r.url))
  }

  /** ... and, for a truthy body, POST switched on and the post fields set. */
  function WithPost(c: Config, r: Request): Assoc<Value> {
    if Truthy(r.postData) then Assign(Assign(WithUrl(c, r), CURLOPT_POST, Int(1)), CURLOPT_POSTFIELDS, r.postData)
    else WithUrl(c, r)
  }

  /**
   * `getOptions($request)`: the options array handed to `curl_setopt_array`.
   * The queue-level headers are attached when there are any; the request's
   * own `headers` and `verb` are not read.
   */
  function EffectiveOptions(c: Config, r: Request): Assoc<Value> {
    if |c.headers| > 0 then Assign(Assign(WithPost(c, r), CURLOPT_HEADER, Int(0)), CURLOPT_HTTPHEADER, Arr(c.headers))
    else WithPost(c, r)
  }

  /** The value the queue level supplies for key `k` before request options are applied. */
  function Inherited(c: Config, k: Key): Option<Value> {
    if c.safeModeOff && k == CURLOPT_FOLLOWLOCATION then Some(Int(1))
    else if c.safeModeOff && k == CURLOPT_MAXREDIRS then Some(Int(5))
    else Get(c.options, k)
  }

  lemma BaseOptionsAt(c: Config, k: Key)
    ensures Get(BaseOptions(c), k) == Inherited(c, k)
  {
    if c.safeModeOff {
      GetAssign(Assign(c.options, CURLOPT_FOLLOWLOCATION, Int(1)), CURLOPT_MAXREDIRS, Int(5), k);
      GetAssign(c.options, CURLOPT_FOLLOWLOCATION, Int(1), k);
    }
  }

  lemma MergedOptionsAt(c: Config, r: Request, k: Key)
    ensures Get(MergedOptions(c, r), k) == if k in Keys(r.options) then Get(r.options, k) else Inherited(c, k)
  {
    BaseOptionsAt(c, k);
    GetUnion(r.options, BaseOptions(c), k);
    assert |r.options| == 0 ==> Keys(r.options) == {};
  }

  /**
   * Every key of the effective options, one by one: the URL is always the
   * request's; a truthy body forces POST and sets the post fields;
   * non-empty queue headers switch header output off and set the header
   * list; otherwise a request-level option wins and an unset key keeps the
   * queue-level value.
   */
  lemma EffectiveOptionsAt(c: Config, r: Request, k: Key)
    ensures Get(EffectiveOptions(c, r), k) ==
      if k == CURLOPT_URL then Some(Str(r.url))
      else if Truthy(r.postData) && k == CURLOPT_POST then Some(Int(1))
      else if Truthy(r.postData) && k == CURLOPT_POSTFIELDS then Some(r.postData)
      else if |c.headers| > 0 && k == CURLOPT_HEADER then Some(Int(0))
      else if |c.headers| > 0 && k == CURLOPT_HTTPHEADER then Some(Arr(c.headers))
      else if k in Keys(r.options) then Get(r.options, k)
      else Inherited(c, k)
  {
    WithPostAt(c, r, k);
    WithUrlAt(c, r, k);
    var p := WithPost(c, r);
    var e := EffectiveOptions(c, r);
    if |c.headers| > 0 {
      GetAssign(Assign(p, CURLOPT_HEADER, Int(0)), CURLOPT_HTTPHEADER, Arr(c.headers), k);
      GetAssign(p, CURLOPT_HEADER, Int(0), k);
      assert Get(e, k) == if k == CURLOPT_HTTPHEADER then Some(Arr(c.headers))
                          else if k == CURLOPT_HEADER then Some(Int(0)) else Get(p, k);
    } else {
      assert Get(e, k) == Get(p, k);
    }
  }

  lemma WithUrlAt(c: Config, r: Request, k: Key)
    ensures Get(WithUrl(c, r), k) ==
      if k == CURLOPT_URL then Some(Str(r.url))
      else if k in Keys(r.options) then Get(r.options, k)
      else Inherited(c, k)
  {
    MergedOptionsAt(c, r, k);
    GetAssign(MergedOptions(c, r), CURLOPT_URL, Str(r.url), k);
  }

  lemma WithPostAt(c: Config, r: Request, k: Key)
    ensures Get(WithPost(c, r), k) ==
      if Truthy(r.postData) && k == CURLOPT_POST then Some(Int(1))
      else if Truthy(r.postData) && k == CURLOPT_POSTFIELDS then Some(r.postData)
      else Get(WithUrl(c, r), k)
  {
    if Truthy(r.postData) {
      GetAssign(Assign(WithUrl(c, r), CURLOPT_POST, Int(1)), CURLOPT_POSTFIELDS, r.postData, k);
      GetAssign(WithUrl(c, r), CURLOPT_POST, Int(1), k);
    }
  }

  /** The URL handed to curl is always the request's own, whatever the request options say. */
  lemma UrlIsRequestUrl(c: Config, r: Request)
    ensures Get(EffectiveOptions(c, r), CURLOPT_URL) == Some(Str(r.url))
  {
    EffectiveOptionsAt(c, r, CURLOPT_URL);
  }

  /**
   * A request-level option overrides the queue-level one, except for the
   * keys the queue itself sets afterwards (URL, post and header keys).
   */
  lemma RequestOptionWins(c: Config, r: Request, k: Key)
    requires k in Keys(r.options)
    requires k !in {CURLOPT_URL, CURLOPT_POST, CURLOPT_POSTFIELDS, CURLOPT_HEADER, CURLOPT_HTTPHEADER}
    ensures Get(EffectiveOptions(c, r), k) == Get(r.options, k)
  {
    EffectiveOptionsAt(c, r, k);
  }
}
