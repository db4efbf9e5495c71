/** Results of calls to the hosted backend.

    Every request the front end sends to the backend either succeeds or comes
    back with an error object carrying a message. The model does not see the
    backend, so the answer to each request is an input: a `Response`, and for
    a sequence of requests a script of responses consumed one per request. */
module Outcomes {

  datatype Option<T> = None | Some(value: T)

  /** A call that either produces a value or throws `new Error(message)`. */
  datatype Result<T> = Success(value: T) | Failure(error: string)

  /** The backend's answer to one request. */
  datatype Response = Ok | Err(message: string)

  /** The answer to the `j`-th request of a scripted run; requests past the
      end of the script succeed. */
  function ReplyAt(replies: seq<Response>, j: nat): (r: Response)
    ensures j < |replies| ==> r == replies[j]
    ensures j >= |replies| ==> r == Ok
  {
    if j < |replies| then replies[j] else Ok
  }

  /** The index of the first failing request among the first `n` requests of
      a run, or `n` when all of them succeed. A loop that stops at the first
      error makes exactly `FirstErr(replies, n) + 1` requests when one fails. */
  function FirstErr(replies: seq<Response>, n: nat): (k: nat)
    ensures k <= n
    ensures forall j :: 0 <= j < k ==> ReplyAt(replies, j).Ok?
    ensures k < n ==> ReplyAt(replies, k).Err?
  {
    if n == 0 then 0
    else
      var k := FirstErr(replies, n - 1);
      if k < n - 1 then k
      else if ReplyAt(replies, n - 1).Err? then n - 1
      else n
  }

  /** The first failure is determined by the script: any index before which
      all requests succeed and at which one fails (or that reaches `n`) is it. */
  lemma FirstErrUnique(replies: seq<Response>, n: nat, k: nat)
    requires k <= n
    requires forall j :: 0 <= j < k ==> ReplyAt(replies, j).Ok?
    requires k < n ==> ReplyAt(replies, k).Err?
    ensures FirstErr(replies, n) == k
  {
  }
}
