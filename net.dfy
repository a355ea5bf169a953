/**
 * The transport behind the queue (curl's easy and multi interfaces),
 * reduced to what the scheduler observes. Handles are opaque identities;
 * they are drawn from a counter because PHP never reuses a resource id.
 * Which handles finish, and what they return, is up to the transport: the
 * scheduler's properties hold for every transport that keeps the
 * contract in `Valid`.
 */
module Net {
  import opened Php

  type Handle = nat

  /** What `curl_getinfo` reports; the scheduler only passes it on. */
  datatype Info = Info(httpCode: int)

  /** A finished transfer: the body (`None` when curl has none) and its metadata. */
  datatype Reply = Reply(body: Option<string>, info: Info)

  /**
   * One `curl_multi_exec` followed by draining `curl_multi_info_read`: the
   * transport either fails (a status other than `CURLM_OK`) or reports
   * the handles that finished, in the order it reports them.
   */
  datatype Poll = Aborted | Finished(done: seq<Handle>)

  datatype Transport = Transport(
    poll: set<Handle> -> Poll,
    reply: (Handle, Assoc<Value>) -> Reply)

  predicate Distinct<T(==)>(s: seq<T>) {
    forall i, j :: 0 <= i < j < |s| ==> s[i] != s[j]
  }

  /**
   * A poll over the attached handles `active` reports distinct attached
   * handles, and at least one: polls in which nothing finishes only wait
   * and are not modelled.
   */
  predicate ValidPoll(active: set<Handle>, p: Poll) {
    p.Finished? ==> |p.done| > 0 && Distinct(p.done) && forall i :: 0 <= i < |p.done| ==> p.done[i] in active
  }

  ghost predicate Valid(t: Transport) {
    forall active: set<Handle> {:trigger t.poll(active)} :: active != {} ==> ValidPoll(active, t.poll(active))
  }
}
