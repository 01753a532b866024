/** The login token bucket. Times are seconds; the arithmetic is exact. */
module TokenBucket {

  datatype Bucket = Bucket(tokens: real, refill: real)

  const CAPACITY := 5.0
  const SECONDS_PER_TOKEN := 12.0

  function Min(a: real, b: real): real {
    if a <= b then a else b
  }

  function Max(a: real, b: real): real {
    if a >= b then a else b
  }

  /** Refilling, which a clock that stepped back does not do. */
  function Refilled(b: Bucket, now: real): Bucket {
    if now > b.refill then Bucket(Min(CAPACITY, b.tokens + (now - b.refill) / SECONDS_PER_TOKEN), now) else b
  }

  function Allows(b: Bucket, now: real): bool {
    Refilled(b, now).tokens >= 1.0
  }

  function AfterCall(b: Bucket, now: real): Bucket {
    var r := Refilled(b, now);
    if r.tokens < 1.0 then r else r.(tokens := r.tokens - 1.0)
  }

  class Limiter {
    var tokens: real
    var refill: real

    function State(): Bucket
      reads this
    {
      Bucket(tokens, refill)
    }

    constructor (now: real)
      ensures State() == Bucket(CAPACITY, now)
    {
      tokens, refill := CAPACITY, now;
    }

    method AllowLogin(now: real) returns (ok: bool)
      modifies this
      ensures ok == Allows(old(State()), now) && State() == AfterCall(old(State()), now)
    {
      var elapsed := now - refill;
      if elapsed > 0.0 {
        tokens := Min(CAPACITY, tokens + elapsed / SECONDS_PER_TOKEN);
        refill := now;
      }
      if tokens < 1.0 {
        return false;
      }
      tokens := tokens - 1.0;
      return true;
    }
  }

  // ------------------------------------------------------------------- runs

  function AfterCalls(b: Bucket, calls: seq<real>): Bucket
    decreases calls
  {
    if calls == [] then b else AfterCalls(AfterCall(b, calls[0]), calls[1..])
  }

  function Answers(b: Bucket, calls: seq<real>): (answers: seq<bool>)
    ensures |answers| == |calls|
    decreases calls
  {
    if calls == [] then [] else [Allows(b, calls[0])] + Answers(AfterCall(b, calls[0]), calls[1..])
  }

  function Count(answers: seq<bool>): nat {
    if answers == [] then 0 else (if answers[0] then 1 else 0) + Count(answers[1..])
  }

  predicate Sane(b: Bucket) {
    0.0 <= b.tokens <= CAPACITY
  }

  predicate Latest(start: real, calls: seq<real>, t: real) {
    && start <= t && (t == start || t in calls)
    && forall i :: 0 <= i < |calls| ==> calls[i] <= t
  }

  /** Tokens stay within bounds and refill is the latest time observed, whatever
      the clock does. */
  lemma {:induction false} BucketStaysSane(b: Bucket, calls: seq<real>)
    requires Sane(b)
    ensures Sane(AfterCalls(b, calls))
    ensures Latest(b.refill, calls, AfterCalls(b, calls).refill)
    decreases calls
  {
    if calls != [] {
      var c := AfterCall(b, calls[0]);
      BucketStaysSane(c, calls[1..]);
      var t := AfterCalls(c, calls[1..]).refill;
      assert forall i :: 1 <= i < |calls| ==> calls[i] == calls[1..][i - 1] <= t;
      assert c.refill == Max(b.refill, calls[0]);
    }
  }

  /** What was accepted was paid for: the tokens at the start and the refill. */
  lemma {:induction false} AcceptedIsPaidFor(b: Bucket, calls: seq<real>)
    ensures Count(Answers(b, calls)) as real + AfterCalls(b, calls).tokens <=
            b.tokens + (AfterCalls(b, calls).refill - b.refill) / SECONDS_PER_TOKEN
    decreases calls
  {
    if calls != [] {
      var c := AfterCall(b, calls[0]);
      AcceptedIsPaidFor(c, calls[1..]);
      assert Answers(b, calls)[1..] == Answers(c, calls[1..]);
    }
  }

  /** A call is accepted exactly when the tokens left and a twelfth of the seconds
      the clock moved on make one token. */
  lemma AllowsExactly(b: Bucket, now: real)
    requires Sane(b)
    ensures Allows(b, now) <==> b.tokens + (if now > b.refill then now - b.refill else 0.0) / 12.0 >= 1.0
  {
  }

  /** Tokens in hand are never refused, whatever the clock does: a full bucket
      accepts the next five calls. */
  lemma {:induction false} TokensAreHonoured(b: Bucket, calls: seq<real>)
    requires Sane(b) && |calls| as real <= b.tokens
    ensures Count(Answers(b, calls)) == |calls|
    decreases calls
  {
    if calls != [] {
      var c := AfterCall(b, calls[0]);
      assert 5.0 >= c.tokens >= b.tokens - 1.0;
      TokensAreHonoured(c, calls[1..]);
      assert Answers(b, calls)[1..] == Answers(c, calls[1..]);
    }
  }

  lemma FullBucketAllowsFive(start: real, calls: seq<real>)
    requires |calls| <= 5
    ensures Answers(Bucket(CAPACITY, start), calls) == seq(|calls|, _ => true)
  {
    TokensAreHonoured(Bucket(CAPACITY, start), calls);
    AllCounted(Answers(Bucket(CAPACITY, start), calls));
  }

  lemma {:induction false} AllCounted(answers: seq<bool>)
    ensures Count(answers) <= |answers|
    ensures Count(answers) == |answers| ==> forall i :: 0 <= i < |answers| ==> answers[i]
  {
    if answers != [] {
      AllCounted(answers[1..]);
      assert forall i :: 1 <= i < |answers| ==> answers[i] == answers[1..][i - 1];
    }
  }

  lemma {:induction false} CallsInTwoParts(b: Bucket, first: seq<real>, rest: seq<real>)
    ensures AfterCalls(b, first + rest) == AfterCalls(AfterCalls(b, first), rest)
    ensures Answers(b, first + rest) == Answers(b, first) + Answers(AfterCalls(b, first), rest)
    decreases first
  {
    if first == [] {
      assert first + rest == rest;
    } else {
      assert (first + rest)[0] == first[0] && (first + rest)[1..] == first[1..] + rest;
      CallsInTwoParts(AfterCall(b, first[0]), first[1..], rest);
    }
  }

  /** Any stretch of calls accepts at most five and one for every twelve seconds
      the latest observed time moved during the stretch. */
  lemma StretchIsBounded(b: Bucket, before: seq<real>, stretch: seq<real>)
    requires Sane(b)
    ensures var from, to := AfterCalls(b, before), AfterCalls(b, before + stretch);
            && Answers(b, before + stretch) == Answers(b, before) + Answers(from, stretch)
            && Count(Answers(from, stretch)) as real <= 5.0 + (to.refill - from.refill) / 12.0
  {
    CallsInTwoParts(b, before, stretch);
    BucketStaysSane(b, before);
    BucketStaysSane(AfterCalls(b, before), stretch);
    AcceptedIsPaidFor(AfterCalls(b, before), stretch);
  }

  // ---------------------------------------------------------- refused calls

  /** The calls to keep. */
  function Kept<T>(s: seq<T>, keep: seq<bool>): seq<T>
    requires |s| == |keep|
  {
    if s == [] then [] else (if keep[0] then [s[0]] else []) + Kept(s[1..], keep[1..])
  }

  /** `behind` has seen fewer refused calls: it is the same bucket, or one that has
      yet to credit part of a refill that was too small to allow anything. */
  predicate Lags(b: Bucket, behind: Bucket) {
    b == behind ||
    (b.tokens < 1.0 && behind.refill <= b.refill && b.tokens == behind.tokens + (b.refill - behind.refill) / SECONDS_PER_TOKEN)
  }

  lemma CallKeepsLag(b: Bucket, behind: Bucket, now: real)
    requires Lags(b, behind)
    ensures Allows(behind, now) == Allows(b, now)
    ensures Lags(AfterCall(b, now), AfterCall(behind, now))
  {
  }

  lemma RefusalKeepsLag(b: Bucket, behind: Bucket, now: real)
    requires Lags(b, behind) && !Allows(b, now)
    ensures Lags(AfterCall(b, now), behind)
  {
  }

  /** Only refused calls are left out. */
  predicate LeavesOutRefusals(answers: seq<bool>, keep: seq<bool>) {
    |keep| == |answers| && forall i :: 0 <= i < |answers| ==> keep[i] || !answers[i]
  }

  lemma LeavesOutRefusalsTail(answers: seq<bool>, keep: seq<bool>)
    requires LeavesOutRefusals(answers, keep) && answers != []
    ensures LeavesOutRefusals(answers[1..], keep[1..])
  {
  }

  lemma {:induction false} AnswersUnderLag(b: Bucket, behind: Bucket, calls: seq<real>, keep: seq<bool>)
    requires Lags(b, behind) && LeavesOutRefusals(Answers(b, calls), keep)
    ensures Answers(behind, Kept(calls, keep)) == Kept(Answers(b, calls), keep)
    decreases calls
  {
    if calls != [] {
      var c, rest := AfterCall(b, calls[0]), calls[1..];
      var answers := Answers(b, calls);
      assert answers[1..] == Answers(c, rest);
      LeavesOutRefusalsTail(answers, keep);
      if keep[0] {
        CallKeepsLag(b, behind, calls[0]);
        AnswersUnderLag(c, AfterCall(behind, calls[0]), rest, keep[1..]);
        assert Kept(calls, keep)[1..] == Kept(rest, keep[1..]);
      } else {
        assert !answers[0];
        assert Kept(calls, keep) == Kept(rest, keep[1..]) && Kept(answers, keep) == Kept(answers[1..], keep[1..]);
        RefusalKeepsLag(b, behind, calls[0]);
        AnswersUnderLag(c, behind, rest, keep[1..]);
      }
    }
  }

  /** Leaving refused calls out of a run changes no other answer. */
  lemma RefusedCallsDoNotCount(b: Bucket, calls: seq<real>, keep: seq<bool>)
    requires LeavesOutRefusals(Answers(b, calls), keep)
    ensures Answers(b, Kept(calls, keep)) == Kept(Answers(b, calls), keep)
  {
    AnswersUnderLag(b, b, calls, keep);
  }
}
