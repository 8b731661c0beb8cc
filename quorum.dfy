/**
 * The coordinator's quorum: the replica outcomes arrive one after another
 * (the pool threads give some order), a success counter and a failure
 * counter go up, successes are filed in a map from timestamp to response,
 * and exactly the `ack`-th success or the `(from - ack + 1)`-th failure
 * answers the client.
 */
module Quorum {
  import opened JavaLang
  import opened NavMap
  import opened Http

  /** A replica's response: its status, its request-time header (if any) and its body. */
  datatype Reply = Reply(status: int, requestTime: Option<string>, body: Body)

  /** What `replicaResponseFuture.get()` produced in one runnable. */
  datatype Outcome =
    | Answered(reply: Reply)
    | Failed     // InterruptedException or ExecutionException, caught by the runnable
    | Cancelled  // CancellationException after `cancelFutures`: not caught, the runnable just ends

  /** A response sent to the client's session. */
  datatype Sent = Forwarded(reply: Reply) | NotEnoughReplicas

  datatype QuorumParams = QuorumParams(successStatuses: seq<int>, ack: int, from: int)

  /** `successCounter`, `failsCounter`, the `responses` skip-list map, and what was sent so far. */
  datatype QuorumState = QuorumState(successes: int, fails: int, responses: seq<(int, Reply)>, sent: seq<Sent>)

  const Initial: QuorumState := QuorumState(0, 0, [], [])

  predicate IsSuccess(p: QuorumParams, reply: Reply) {
    reply.status in p.successStatuses
  }

  /**
   * The key a success is filed under: its request-time header parsed with
   * `Long.parseLong`, or 0 without the header. `None` when the header does
   * not parse: the NumberFormatException escapes the runnable.
   */
  function Stamp(reply: Reply): (r: Option<int>)
    ensures reply.requestTime.None? ==> r == Some(0)
    ensures reply.requestTime.Some? ==>
              var h := reply.requestTime.value;
              && (r.Some? <==> IsDecimal(h) && LONG_MIN <= DecimalValue(h) <= LONG_MAX)
              && (r.Some? ==> r.value == DecimalValue(h))
  {
    match reply.requestTime
    case None => Some(0)
    case Some(h) => ParseLong(h)
  }

  /** How one outcome moves the counters. */
  datatype Effect = CountsSuccess | CountsFailure | NoEffect

  function EffectOf(p: QuorumParams, o: Outcome): (e: Effect)
    ensures e == CountsSuccess <==> o.Answered? && IsSuccess(p, o.reply) && Stamp(o.reply).Some?
    ensures e == CountsFailure <==> o.Failed? || (o.Answered? && !IsSuccess(p, o.reply))
    ensures e == NoEffect <==> o.Cancelled? || (o.Answered? && IsSuccess(p, o.reply) && Stamp(o.reply).None?)
  {
    match o
    case Cancelled => NoEffect
    case Failed => CountsFailure
    case Answered(reply) =>
      if !IsSuccess(p, reply) then CountsFailure
      else if Stamp(reply).None? then NoEffect
      else CountsSuccess
  }

  /** One runnable of `handleReplicasResponses`, run to completion. */
  function Step(p: QuorumParams, st: QuorumState, o: Outcome): (r: QuorumState)
    requires Sorted(st.responses)
    ensures Sorted(r.responses)
  {
    match EffectOf(p, o)
    case NoEffect => st
    case CountsFailure =>
      var f := st.fails + 1;
      st.(fails := f, sent := if f == p.from - p.ack + 1 then st.sent + [NotEnoughReplicas] else st.sent)
    case CountsSuccess =>
      var reply := o.reply;
      var key := Stamp(reply).value;
      PutEntries(st.responses, key, reply);
      var responses := if reply.requestTime.Some? || st.responses == [] then Put(st.responses, key, reply) else st.responses;
      var s := st.successes + 1;
      st.(successes := s, responses := responses,
          sent := if s == p.ack then st.sent + [Forwarded(LastEntry(responses).1)] else st.sent)
  }

  /** The state after the outcomes `outs`, in arrival order. */
  function Run(p: QuorumParams, outs: seq<Outcome>): (st: QuorumState)
    ensures Sorted(st.responses)
  {
    if outs == [] then Initial else Step(p, Run(p, outs[..|outs| - 1]), outs[|outs| - 1])
  }

  /** How many of `outs` have effect `e`. */
  function CountOf(p: QuorumParams, outs: seq<Outcome>, e: Effect): nat {
    if outs == [] then 0
    else CountOf(p, outs[..|outs| - 1], e) + (if EffectOf(p, outs[|outs| - 1]) == e then 1 else 0)
  }

  function Forwards(sent: seq<Sent>): nat {
    if sent == [] then 0 else Forwards(sent[..|sent| - 1]) + (if sent[|sent| - 1].Forwarded? then 1 else 0)
  }

  function Rejections(sent: seq<Sent>): nat {
    if sent == [] then 0 else Rejections(sent[..|sent| - 1]) + (if sent[|sent| - 1].NotEnoughReplicas? then 1 else 0)
  }

  lemma {:induction false} SentSplits(sent: seq<Sent>)
    ensures |sent| == Forwards(sent) + Rejections(sent)
  {
    if sent != [] {
      SentSplits(sent[..|sent| - 1]);
    }
  }

  lemma {:induction false} CountsCover(p: QuorumParams, outs: seq<Outcome>)
    ensures CountOf(p, outs, CountsSuccess) + CountOf(p, outs, CountsFailure) + CountOf(p, outs, NoEffect) == |outs|
  {
    if outs != [] {
      CountsCover(p, outs[..|outs| - 1]);
    }
  }

  /**
   * The counters count the successes and failures, the success response is
   * sent once the successes have reached `ack`, and the 504 once the
   * failures have reached `from - ack + 1`; each at most once.
   */
  lemma {:induction false} RunCounts(p: QuorumParams, outs: seq<Outcome>)
    ensures var st := Run(p, outs);
      && st.successes == CountOf(p, outs, CountsSuccess)
      && st.fails == CountOf(p, outs, CountsFailure)
      && Forwards(st.sent) == (if 1 <= p.ack <= st.successes then 1 else 0)
      && Rejections(st.sent) == (if 1 <= p.from - p.ack + 1 <= st.fails then 1 else 0)
  {
    if outs != [] {
      var init := outs[..|outs| - 1];
      RunCounts(p, init);
      var before := Run(p, init);
      var after := Run(p, outs);
      assert after == Step(p, before, outs[|outs| - 1]);
      if after.sent != before.sent {
        assert after.sent[..|after.sent| - 1] == before.sent;
      }
    }
  }

  /** Whatever the order, no more than `from` outcomes with `1 <= ack <= from` answer the client at most once. */
  lemma AtMostOneResponse(p: QuorumParams, outs: seq<Outcome>)
    requires 1 <= p.ack <= p.from
    requires |outs| <= p.from
    ensures |Run(p, outs).sent| <= 1
  {
    RunCounts(p, outs);
    CountsCover(p, outs);
    SentSplits(Run(p, outs).sent);
  }

  /**
   * When each of the `from` replicas answers or fails (none cancelled, no
   * unparsable timestamp), the client gets exactly one response, whatever
   * the order: the thresholds `ack` and `from - ack + 1` add up to `from + 1`.
   */
  lemma ExactlyOneResponse(p: QuorumParams, outs: seq<Outcome>)
    requires 1 <= p.ack <= p.from
    requires |outs| == p.from
    requires forall i :: 0 <= i < |outs| ==> EffectOf(p, outs[i]) != NoEffect
    ensures |Run(p, outs).sent| == 1
  {
    RunCounts(p, outs);
    CountsCover(p, outs);
    NoEffectCount(p, outs);
    SentSplits(Run(p, outs).sent);
  }

  lemma {:induction false} NoEffectCount(p: QuorumParams, outs: seq<Outcome>)
    requires forall i :: 0 <= i < |outs| ==> EffectOf(p, outs[i]) != NoEffect
    ensures CountOf(p, outs, NoEffect) == 0
  {
    if outs != [] {
      NoEffectCount(p, outs[..|outs| - 1]);
    }
  }

  /** Responses are only ever appended. */
  lemma {:induction false} SentGrows(p: QuorumParams, outs: seq<Outcome>, more: seq<Outcome>)
    ensures var a := Run(p, outs).sent; var b := Run(p, outs + more).sent;
      |a| <= |b| && b[..|a|] == a
    decreases |more|
  {
    if more == [] {
      assert outs + more == outs;
    } else {
      var init := more[..|more| - 1];
      SentGrows(p, outs, init);
      assert (outs + more)[..|outs + more| - 1] == outs + init;
    }
  }

  /** Once the client has its response, the outcomes still to come (up to `from` in all) send nothing. */
  lemma LaterOutcomesSendNothing(p: QuorumParams, outs: seq<Outcome>, more: seq<Outcome>)
    requires 1 <= p.ack <= p.from
    requires |outs| + |more| <= p.from
    requires Run(p, outs).sent != []
    ensures Run(p, outs + more).sent == Run(p, outs).sent
  {
    SentGrows(p, outs, more);
    AtMostOneResponse(p, outs + more);
    AtMostOneResponse(p, outs);
  }

  /** Every filed response is a success, filed under its own stamp. */
  ghost predicate Filed(p: QuorumParams, responses: seq<(int, Reply)>) {
    forall i :: 0 <= i < |responses| ==> IsSuccess(p, responses[i].1) && Stamp(responses[i].1) == Some(responses[i].0)
  }

  /** A success carrying a request-time header that parses. */
  predicate HeaderedSuccess(p: QuorumParams, o: Outcome) {
    EffectOf(p, o) == CountsSuccess && o.reply.requestTime.Some?
  }

  /** The map holds only successes under their stamps, and holds the stamp of every headered success so far. */
  lemma {:induction false} RunFilesStamps(p: QuorumParams, outs: seq<Outcome>)
    ensures Filed(p, Run(p, outs).responses)
    ensures forall i :: 0 <= i < |outs| && HeaderedSuccess(p, outs[i]) ==>
              ContainsKey(Run(p, outs).responses, Stamp(outs[i].reply).value)
  {
    if outs != [] {
      var init := outs[..|outs| - 1];
      var o := outs[|outs| - 1];
      RunFilesStamps(p, init);
      var before := Run(p, init);
      var after := Run(p, outs);
      assert after == Step(p, before, o);
      if EffectOf(p, o) == CountsSuccess {
        var key := Stamp(o.reply).value;
        PutEntries(before.responses, key, o.reply);
        PutKeys(before.responses, key, o.reply);
        forall i | 0 <= i < |after.responses|
          ensures IsSuccess(p, after.responses[i].1) && Stamp(after.responses[i].1) == Some(after.responses[i].0)
        {
          if after.responses[i] != (key, o.reply) {
            var j :| 0 <= j < |before.responses| && before.responses[j] == after.responses[i];
          }
        }
      }
      forall i | 0 <= i < |outs| && HeaderedSuccess(p, outs[i])
        ensures ContainsKey(after.responses, Stamp(outs[i].reply).value)
      {
        if i < |init| {
          assert outs[i] == init[i];
        }
      }
    }
  }

  /** `reply` is the reply of one of the successes among `outs`. */
  ghost predicate RepliedBy(p: QuorumParams, outs: seq<Outcome>, reply: Reply) {
    exists i :: 0 <= i < |outs| && EffectOf(p, outs[i]) == CountsSuccess && outs[i].reply == reply
  }

  /** A reply filed from a prefix of the outcomes stays filed. */
  lemma FiledExtends(p: QuorumParams, outs: seq<Outcome>, reply: Reply)
    requires outs != [] && RepliedBy(p, outs[..|outs| - 1], reply)
    ensures RepliedBy(p, outs, reply)
  {
    var i :| 0 <= i < |outs| - 1 && EffectOf(p, outs[..|outs| - 1][i]) == CountsSuccess && outs[..|outs| - 1][i].reply == reply;
    assert outs[i] == outs[..|outs| - 1][i];
  }

  /** Every filed response is the reply of some success received so far. */
  lemma {:induction false} RunFiledFromOutcomes(p: QuorumParams, outs: seq<Outcome>)
    ensures forall k :: 0 <= k < |Run(p, outs).responses| ==> RepliedBy(p, outs, Run(p, outs).responses[k].1)
  {
    if outs != [] {
      var init := outs[..|outs| - 1];
      var o := outs[|outs| - 1];
      RunFiledFromOutcomes(p, init);
      var before := Run(p, init);
      var after := Run(p, outs);
      assert after == Step(p, before, o);
      if EffectOf(p, o) == CountsSuccess {
        PutEntries(before.responses, Stamp(o.reply).value, o.reply);
      }
      forall k | 0 <= k < |after.responses|
        ensures RepliedBy(p, outs, after.responses[k].1)
      {
        if EffectOf(p, o) == CountsSuccess && after.responses[k] == (Stamp(o.reply).value, o.reply) {
          assert outs[|outs| - 1] == o;
        } else {
          var j := k;
          if after.responses != before.responses {
            j :| 0 <= j < |before.responses| && before.responses[j] == after.responses[k];
          }
          assert before.responses[j] == after.responses[k];
          assert RepliedBy(p, init, before.responses[j].1);
          FiledExtends(p, outs, before.responses[j].1);
        }
      }
    } else {
      assert Run(p, outs).responses == [];
    }
  }

  /**
   * Last write wins: the response sent at the `ack`-th success is the reply
   * of one of the successes received, and its stamp is at least the stamp of
   * every headered success received so far.
   */
  lemma ForwardedIsFreshest(p: QuorumParams, outs: seq<Outcome>)
    requires outs != []
    requires |Run(p, outs).sent| > |Run(p, outs[..|outs| - 1]).sent|
    requires Run(p, outs).sent[|Run(p, outs).sent| - 1].Forwarded?
    ensures var r := Run(p, outs).sent[|Run(p, outs).sent| - 1].reply;
      && IsSuccess(p, r) && Stamp(r).Some?
      && (exists i :: 0 <= i < |outs| && EffectOf(p, outs[i]) == CountsSuccess && outs[i].reply == r)
      && forall i :: 0 <= i < |outs| && HeaderedSuccess(p, outs[i]) ==> Stamp(outs[i].reply).value <= Stamp(r).value
  {
    var after := Run(p, outs);
    ForwardedIsLastEntry(p, outs);
    RunFilesStamps(p, outs);
    RunFiledFromOutcomes(p, outs);
    var e := LastEntry(after.responses);
    var k :| 0 <= k < |after.responses| && after.responses[k] == e;
    assert RepliedBy(p, outs, after.responses[k].1);
    forall i | 0 <= i < |outs| && HeaderedSuccess(p, outs[i])
      ensures Stamp(outs[i].reply).value <= Stamp(e.1).value
    {
      var j :| 0 <= j < |after.responses| && after.responses[j].0 == Stamp(outs[i].reply).value;
    }
  }

  /** The response forwarded at the `ack`-th success is the freshest entry of the map at that moment. */
  lemma ForwardedIsLastEntry(p: QuorumParams, outs: seq<Outcome>)
    requires outs != []
    requires |Run(p, outs).sent| > |Run(p, outs[..|outs| - 1]).sent|
    requires Run(p, outs).sent[|Run(p, outs).sent| - 1].Forwarded?
    ensures Run(p, outs).responses != []
    ensures Run(p, outs).sent[|Run(p, outs).sent| - 1].reply == LastEntry(Run(p, outs).responses).1
  {
    assert Run(p, outs) == Step(p, Run(p, outs[..|outs| - 1]), outs[|outs| - 1]);
  }

  lemma RunSnoc(p: QuorumParams, outs: seq<Outcome>, o: Outcome)
    ensures Run(p, outs + [o]) == Step(p, Run(p, outs), o)
  {
    assert (outs + [o])[..|outs|] == outs;
  }

  /**
   * The state `handleReplicasResponses` shares between its runnables: the two
   * atomic counters, the `responses` map, and the responses sent to the session.
   */
  class QuorumCollector {
    const params: QuorumParams
    var successCounter: int
    var failsCounter: int
    var responses: seq<(int, Reply)>
    var sent: seq<Sent>
    /** The outcomes handled so far, in the order their runnables ran. */
    ghost var outcomes: seq<Outcome>

    function State(): QuorumState
      reads this
    {
      QuorumState(successCounter, failsCounter, responses, sent)
    }

    ghost predicate Valid()
      reads this
    {
      State() == Run(params, outcomes)
    }

    constructor (params: QuorumParams)
      ensures Valid() && outcomes == [] && this.params == params
      ensures State() == Initial
    {
      this.params := params;
      successCounter, failsCounter, responses, sent := 0, 0, [], [];
      outcomes := [];
    }

    /** The body of one runnable, once its future has produced `o`. */
    method OnOutcome(o: Outcome)
      requires Valid()
      modifies this
      ensures State() == Step(params, old(State()), o)
      ensures Valid() && outcomes == old(outcomes) + [o]
    {
      ghost var expected := Step(params, State(), o);
      RunSnoc(params, outcomes, o);
      outcomes := outcomes + [o];
      match o {
        case Cancelled =>
          assert State() == expected;
        case Failed =>
          CountFailure();
          assert State() == expected;
        case Answered(reply) =>
          if reply.status in params.successStatuses {
            var key: int := 0;
            if reply.requestTime.Some? {
              var parsed := ParseLong(reply.requestTime.value);
              if parsed.None? {
                assert EffectOf(params, o) == NoEffect;
                assert State() == expected;
                return;
              }
              key := parsed.value;
              assert EffectOf(params, o) == CountsSuccess && Stamp(reply) == Some(key);
              PutEntries(responses, key, reply);
              responses := Put(responses, key, reply);
            } else if responses == [] {
              assert EffectOf(params, o) == CountsSuccess && Stamp(reply) == Some(key);
              PutEntries(responses, key, reply);
              responses := Put(responses, key, reply);
            }
            successCounter := successCounter + 1;
            if successCounter == params.ack {
              sent := sent + [Forwarded(LastEntry(responses).1)];
            }
            assert State() == expected;
          } else {
            CountFailure();
            assert State() == expected;
          }
      }
    }

    method CountFailure()
      modifies this`failsCounter, this`sent
      ensures failsCounter == old(failsCounter) + 1
      ensures sent == if failsCounter == params.from - params.ack + 1 then old(sent) + [NotEnoughReplicas] else old(sent)
    {
      failsCounter := failsCounter + 1;
      if failsCounter == params.from - params.ack + 1 {
        sent := sent + [NotEnoughReplicas];
      }
    }
  }

  /**
   * `handleReplicasResponses` with its runnables run one after another in the
   * order `outs`: what the client's session is sent.
   */
  method HandleReplicasResponses(params: QuorumParams, outs: seq<Outcome>) returns (sent: seq<Sent>)
    ensures sent == Run(params, outs).sent
  {
    var collector := new QuorumCollector(params);
    for i := 0 to |outs|
      invariant collector.Valid() && collector.params == params && collector.outcomes == outs[..i]
    {
      collector.OnOutcome(outs[i]);
      assert outs[..i + 1] == outs[..i] + [outs[i]];
    }
    assert outs[..|outs|] == outs;
    sent := collector.sent;
  }
}
