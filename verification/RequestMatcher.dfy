/** The request/response matcher: senders register a context under a key and wait; responses look the
    key up, settle the context and remove the key. Each critical section is one step; a timeout's
    decision and its clean-up are one step. */
module RequestMatcher {
  import opened Wrappers

  type Tid = string

  /** `sendRequestAndWait`, or `waitForDockNotice`, which sends nothing and ignores the result code. */
  datatype Kind = Send | Notice

  /** What has settled the request: nothing yet, response number `reply`, the timeout, or a failure to
      serialise the message. */
  datatype Status = Waiting | Answered(result: int, reply: nat) | TimedOut | NotSent

  datatype Request = Request(tid: Tid, kind: Kind, sent: bool, status: Status, returned: Option<bool>)

  /** `pending` is m_pendingRequests, its contexts named by their position in `requests`. */
  datatype Manager = Manager(pending: map<Tid, nat>, requests: seq<Request>, replies: nat)

  datatype Event =
    | Register(tid: Tid, kind: Kind)
    | Serialised(id: nat)
    | SerialiseFails(id: nat)
    | Reply(tid: Tid, result: int)
    | Timeout(id: nat)
    | Resume(id: nat)

  const Init := Manager(map[], [], 0)

  predicate Enabled(s: Manager, e: Event) {
    match e
    case Register(_, _) => true
    case Serialised(id) => id < |s.requests| && !s.requests[id].sent && s.requests[id].returned.None?
    case SerialiseFails(id) => id < |s.requests| && !s.requests[id].sent && s.requests[id].returned.None?
    case Reply(_, _) => true
    case Timeout(id) =>
      id < |s.requests| && s.requests[id].sent && s.requests[id].returned.None? && s.requests[id].status.Waiting?
    case Resume(id) =>
      id < |s.requests| && s.requests[id].sent && s.requests[id].returned.None? && s.requests[id].status.Answered?
  }

  /** Every context the map names exists: what the source's shared pointers guarantee. */
  predicate Named(s: Manager) { forall t :: t in s.pending ==> s.pending[t] < |s.requests| }

  /** What the waiting function returns for a result code. */
  function Outcome(kind: Kind, result: int): bool { kind.Notice? || result == 0 }

  function Apply(s: Manager, e: Event): Manager
    requires Named(s) && Enabled(s, e)
  {
    match e
    case Register(tid, kind) =>
      s.(pending := s.pending[tid := |s.requests|],
         requests := s.requests + [Request(tid, kind, kind.Notice?, Waiting, None)])
    case Serialised(id) => s.(requests := s.requests[id := s.requests[id].(sent := true)])
    case SerialiseFails(id) =>
      var r := s.requests[id];
      var status := if r.status.Waiting? then NotSent else r.status;
      s.(pending := s.pending - {r.tid}, requests := s.requests[id := r.(status := status, returned := Some(false))])
    case Reply(tid, result) =>
      if tid in s.pending then
        var id := s.pending[tid];
        var r := s.requests[id].(status := Answered(result, s.replies));
        Manager(s.pending - {tid}, s.requests[id := r], s.replies + 1)
      else s.(replies := s.replies + 1)
    case Timeout(id) =>
      var r := s.requests[id];
      s.(pending := s.pending - {r.tid}, requests := s.requests[id := r.(status := TimedOut, returned := Some(false))])
    case Resume(id) =>
      var r := s.requests[id];
      s.(requests := s.requests[id := r.(returned := Some(Outcome(r.kind, r.status.result)))])
  }

  // ---------- The invariant ----------

  /** The request may still look up or erase its key. */
  predicate Live(r: Request) { r.returned.None? && (r.status.Waiting? || !r.sent) }

  /** The pending map holds exactly the waiting requests. */
  ghost predicate Exact(s: Manager) {
    && (forall t :: t in s.pending ==>
          s.pending[t] < |s.requests| && s.requests[s.pending[t]].tid == t && s.requests[s.pending[t]].status.Waiting?)
    && (forall id :: 0 <= id < |s.requests| && s.requests[id].status.Waiting? ==>
          s.requests[id].tid in s.pending && s.pending[s.requests[id].tid] == id)
  }

  /** No two live requests share a key. */
  ghost predicate DistinctKeys(s: Manager) {
    forall i, j :: 0 <= i < j < |s.requests| && Live(s.requests[i]) && Live(s.requests[j]) ==>
      s.requests[i].tid != s.requests[j].tid
  }

  /** What a request's waiting function has returned fits what settled it. */
  predicate Consistent(r: Request, replies: nat) {
    && (r.status.Waiting? ==> r.returned.None?)
    && (r.status.TimedOut? || r.status.NotSent? ==> r.returned == Some(false))
    && (r.status.Answered? ==> r.status.reply < replies)
    && (r.status.Answered? && r.sent && r.returned.Some? ==> r.returned.value == Outcome(r.kind, r.status.result))
    && (!r.sent && r.returned.Some? ==> !r.returned.value)
    && (r.status.TimedOut? ==> r.sent)
    && (r.kind.Notice? ==> r.sent)
  }

  /** No response has settled two requests. */
  ghost predicate OnePerReply(s: Manager) {
    forall i, j :: 0 <= i < j < |s.requests| && s.requests[i].status.Answered? && s.requests[j].status.Answered? ==>
      s.requests[i].status.reply != s.requests[j].status.reply
  }

  ghost predicate Good(s: Manager) {
    && Exact(s) && DistinctKeys(s) && OnePerReply(s)
    && forall id :: 0 <= id < |s.requests| ==> Consistent(s.requests[id], s.replies)
  }

  /** The key is not in use by a live request: what distinct in-flight keys ask of a registration. */
  ghost predicate FreshKey(s: Manager, e: Event) {
    e.Register? ==> forall id :: 0 <= id < |s.requests| && Live(s.requests[id]) ==> s.requests[id].tid != e.tid
  }

  lemma RegisterExact(s: Manager, tid: Tid, kind: Kind)
    requires Exact(s) && FreshKey(s, Register(tid, kind))
    requires forall id :: 0 <= id < |s.requests| ==> Consistent(s.requests[id], s.replies)
    ensures Exact(Apply(s, Register(tid, kind)))
  {
    forall id | 0 <= id < |s.requests| && s.requests[id].status.Waiting?
      ensures s.requests[id].tid != tid
    {
      assert Live(s.requests[id]);
    }
  }

  /** Erasing a live request's key takes that request's entry only. */
  lemma EraseExact(s: Manager, id: nat, r: Request)
    requires Exact(s) && DistinctKeys(s) && id < |s.requests| && Live(s.requests[id])
    requires forall k :: 0 <= k < |s.requests| ==> Consistent(s.requests[k], s.replies)
    requires r.tid == s.requests[id].tid && !r.status.Waiting?
    ensures Exact(s.(pending := s.pending - {r.tid}, requests := s.requests[id := r]))
  {
    forall k | 0 <= k < |s.requests| && k != id && s.requests[k].status.Waiting?
      ensures s.requests[k].tid != r.tid
    {
      assert Live(s.requests[k]);
    }
  }

  lemma ReplyExact(s: Manager, tid: Tid, result: int)
    requires Exact(s)
    ensures Exact(Apply(s, Reply(tid, result)))
  {
  }

  lemma StepExact(s: Manager, e: Event)
    requires Good(s) && Enabled(s, e) && FreshKey(s, e)
    ensures Exact(Apply(s, e))
  {
    hide OnePerReply, DistinctKeys;
    match e
    case Register(tid, kind) => RegisterExact(s, tid, kind);
    case Reply(tid, result) => ReplyExact(s, tid, result);
    case Timeout(id) => EraseExact(s, id, Apply(s, e).requests[id]);
    case SerialiseFails(id) => EraseExact(s, id, Apply(s, e).requests[id]);
    case Serialised(id) =>
    case Resume(id) =>
  }

  lemma StepKeys(s: Manager, e: Event)
    requires Good(s) && Enabled(s, e) && FreshKey(s, e)
    ensures DistinctKeys(Apply(s, e))
  {
    hide OnePerReply;
  }

  lemma StepReplies(s: Manager, e: Event)
    requires Good(s) && Enabled(s, e)
    ensures OnePerReply(Apply(s, e))
    ensures var s' := Apply(s, e); forall id :: 0 <= id < |s'.requests| ==> Consistent(s'.requests[id], s'.replies)
  {
    hide DistinctKeys;
  }

  /** Every step with a fresh key keeps the invariant. */
  lemma StepGood(s: Manager, e: Event)
    requires Good(s) && Enabled(s, e) && FreshKey(s, e)
    ensures Good(Apply(s, e))
  {
    hide Exact, DistinctKeys, OnePerReply, Consistent;
    StepExact(s, e);
    StepKeys(s, e);
    StepReplies(s, e);
  }

  // ---------- Which registrations are safe ----------

  /** The map describes exactly the waiting requests, and goes on doing so when one more message fails
      to serialise. */
  ghost predicate Sturdy(s: Manager)
    requires Named(s)
  {
    && Exact(s)
    && forall id: nat :: Enabled(s, SerialiseFails(id)) ==> Exact(Apply(s, SerialiseFails(id)))
  }

  lemma GoodSturdy(s: Manager)
    requires Good(s)
    ensures Named(s) && Sturdy(s)
  {
    forall id: nat | Enabled(s, SerialiseFails(id))
      ensures Exact(Apply(s, SerialiseFails(id)))
    {
      StepExact(s, SerialiseFails(id));
    }
  }

  /** A second request under the key of a live one: either it takes the entry of a waiting request, or the
      other one, not sent yet, takes its entry by failing to serialise. */
  lemma SharedKeyBreaks(s: Manager, tid: Tid, kind: Kind, id: nat)
    requires Good(s) && id < |s.requests| && Live(s.requests[id]) && s.requests[id].tid == tid
    ensures Named(s) && !Sturdy(Apply(s, Register(tid, kind)))
  {
    var n, s' := |s.requests|, Apply(s, Register(tid, kind));
    assert s'.requests[id] == s.requests[id] && s'.pending[tid] == n;
    if !s.requests[id].status.Waiting? {
      assert Enabled(s', SerialiseFails(id));
      var s'' := Apply(s', SerialiseFails(id));
      assert s''.requests[n] == Request(tid, kind, kind.Notice?, Waiting, None) && tid !in s''.pending;
    }
  }

  /** The exact condition on a registration: the map goes on describing the waiting requests precisely if
      no live request has the key. */
  lemma RegisterSturdyIff(s: Manager, tid: Tid, kind: Kind)
    requires Good(s)
    ensures Named(s) && (Sturdy(Apply(s, Register(tid, kind))) <==> FreshKey(s, Register(tid, kind)))
  {
    if FreshKey(s, Register(tid, kind)) {
      StepGood(s, Register(tid, kind));
      GoodSturdy(Apply(s, Register(tid, kind)));
    } else {
      var id: nat :| id < |s.requests| && Live(s.requests[id]) && s.requests[id].tid == tid;
      SharedKeyBreaks(s, tid, kind, id);
    }
  }

  // ---------- Runs ----------

  lemma InitGood()
    ensures Good(Init)
  {
  }

  lemma StepNamed(s: Manager, e: Event)
    requires Named(s) && Enabled(s, e)
    ensures Named(Apply(s, e))
  {
  }

  /** The steps can be made one after the other, whatever the keys. */
  ghost predicate Possible(s: Manager, es: seq<Event>)
    requires Named(s)
    decreases |es|
  {
    es == [] || (Enabled(s, es[0]) && (StepNamed(s, es[0]); Possible(Apply(s, es[0]), es[1..])))
  }

  /** Each registration's key is not in use by a live request when it is made. */
  ghost predicate FreshKeys(s: Manager, es: seq<Event>)
    requires Named(s) && Possible(s, es)
    decreases |es|
  {
    es == [] || (FreshKey(s, es[0]) && (StepNamed(s, es[0]); FreshKeys(Apply(s, es[0]), es[1..])))
  }

  /** Every state the run passes through is sturdy. */
  ghost predicate SturdyRun(s: Manager, es: seq<Event>)
    requires Named(s) && Possible(s, es)
    decreases |es|
  {
    Sturdy(s) && (es == [] || (StepNamed(s, es[0]); SturdyRun(Apply(s, es[0]), es[1..])))
  }

  /** Main result on keys: over any run the map goes on describing exactly the waiting requests if and
      only if every registration's key is not in use by a live request. */
  lemma {:induction false} SturdyRunIff(s: Manager, es: seq<Event>)
    requires Good(s) && Possible(s, es)
    ensures SturdyRun(s, es) <==> FreshKeys(s, es)
    decreases |es|
  {
    GoodSturdy(s);
    hide Sturdy, Good, Apply, Enabled, Live;
    if es != [] {
      var e := es[0];
      StepNamed(s, e);
      if e.Register? { RegisterSturdyIff(s, e.tid, e.kind); }
      if FreshKey(s, e) {
        StepGood(s, e);
        SturdyRunIff(Apply(s, e), es[1..]);
      }
    }
  }

  /** A run with distinct in-flight keys. */
  ghost predicate IsRun(s: Manager, es: seq<Event>)
    requires Named(s)
  {
    Possible(s, es) && FreshKeys(s, es)
  }

  ghost function Final(s: Manager, es: seq<Event>): (s': Manager)
    requires Named(s) && Possible(s, es)
    ensures Named(s')
    decreases |es|
  {
    if es == [] then s
    else
      StepNamed(s, es[0]);
      Final(Apply(s, es[0]), es[1..])
  }

  lemma {:induction false} RunGood(s: Manager, es: seq<Event>)
    requires Good(s) && IsRun(s, es)
    ensures Good(Final(s, es))
    decreases |es|
  {
    if es != [] {
      StepNamed(s, es[0]);
      StepGood(s, es[0]);
      hide Good, Apply, Enabled, FreshKey;
      RunGood(Apply(s, es[0]), es[1..]);
    }
  }

  /** Main result: after every run with distinct in-flight keys the map holds exactly the waiting
      requests, no response has settled two of them, and a sender whose message went out has returned
      true only if the response that settled it carried result 0, and false only otherwise. */
  lemma RunOutcome(es: seq<Event>)
    requires IsRun(Init, es)
    ensures var s := Final(Init, es);
      && Exact(s) && OnePerReply(s)
      && forall id :: 0 <= id < |s.requests| && s.requests[id].returned.Some? ==>
           var r := s.requests[id];
           && !r.status.Waiting?
           && (r.kind.Send? && r.sent ==> (r.returned.value <==> r.status.Answered? && r.status.result == 0))
           && (r.kind.Notice? ==> (r.returned.value <==> r.status.Answered?))
           && (!r.sent ==> !r.returned.value)
  {
    InitGood();
    RunGood(Init, es);
    var s := Final(Init, es);
    assert forall id :: 0 <= id < |s.requests| ==> Consistent(s.requests[id], s.replies);
  }

  /** A request is settled once: whatever settled it, and what was returned, never changes. */
  lemma {:induction false} SettledOnce(s: Manager, es: seq<Event>, id: nat)
    requires Good(s) && IsRun(s, es) && id < |s.requests|
    ensures var s' := Final(s, es);
      && id < |s'.requests| && s'.requests[id].tid == s.requests[id].tid
      && (!s.requests[id].status.Waiting? ==> s'.requests[id].status == s.requests[id].status)
      && (s.requests[id].returned.Some? ==> s'.requests[id].returned == s.requests[id].returned)
    decreases |es|
  {
    if es != [] {
      SettledStep(s, es[0], id);
      StepNamed(s, es[0]);
      StepGood(s, es[0]);
      SettledOnce(Apply(s, es[0]), es[1..], id);
    }
  }

  lemma SettledStep(s: Manager, e: Event, id: nat)
    requires Good(s) && Enabled(s, e) && id < |s.requests|
    ensures var s' := Apply(s, e);
      && id < |s'.requests| && s'.requests[id].tid == s.requests[id].tid
      && (!s.requests[id].status.Waiting? ==> s'.requests[id].status == s.requests[id].status)
      && (s.requests[id].returned.Some? ==> s'.requests[id].returned == s.requests[id].returned)
  {
    hide DistinctKeys, OnePerReply;
  }

  /** A response reaches the waiting request with its key, and touches no other request. */
  lemma ReplyReaches(s: Manager, tid: Tid, result: int)
    requires Good(s)
    ensures Enabled(s, Reply(tid, result)) && Apply(s, Reply(tid, result)).replies == s.replies + 1
    ensures var s' := Apply(s, Reply(tid, result));
      forall id :: 0 <= id < |s.requests| ==>
        s'.requests[id] == if s.requests[id].status.Waiting? && s.requests[id].tid == tid
                           then s.requests[id].(status := Answered(result, s.replies)) else s.requests[id]
  {
    hide DistinctKeys, OnePerReply;
  }

  /** Nobody waits for ever: a request whose message is out and that has not returned can be returned by
      one step, false by its timeout while it waits, else by what its response carried; the step touches no
      other request. */
  lemma CanReturn(s: Manager, id: nat)
    requires Good(s) && id < |s.requests| && s.requests[id].sent && s.requests[id].returned.None?
    ensures var r := s.requests[id];
            var e := if r.status.Waiting? then Timeout(id) else Resume(id);
      Enabled(s, e) && var s' := Apply(s, e);
      && |s'.requests| == |s.requests| && s'.replies == s.replies
      && (forall k :: 0 <= k < |s.requests| && k != id ==> s'.requests[k] == s.requests[k])
      && s'.requests[id].returned
         == Some(r.status.Answered? && (r.kind.Notice? || r.status.result == 0))
      && (forall t :: t != r.tid ==> (t in s'.pending <==> t in s.pending))
  {
    hide DistinctKeys, OnePerReply;
  }

  /** A message goes out, or its sender returns false at once. */
  lemma CanSend(s: Manager, id: nat)
    requires Good(s) && id < |s.requests| && !s.requests[id].sent && s.requests[id].returned.None?
    ensures Enabled(s, Serialised(id)) && Enabled(s, SerialiseFails(id))
    ensures Apply(s, Serialised(id)).requests == s.requests[id := s.requests[id].(sent := true)]
    ensures Apply(s, SerialiseFails(id)).requests[id].returned == Some(false)
  {
    hide DistinctKeys, OnePerReply;
  }

  // ---------- Without distinct keys ----------

  /** Commands matched by method name can share a key. Then the first sender's timeout erases the second
      one's entry: a response with result 0 arrives while the second sender waits, and it still returns
      false after its own timeout. */
  lemma SharedKeyLosesAnswer(tid: Tid)
    ensures var s1 := Apply(Apply(Init, Register(tid, Send)), Register(tid, Send));
            var s2 := Apply(Apply(s1, Serialised(0)), Serialised(1));
            var s3 := Apply(s2, Timeout(0));
            var s4 := Apply(s3, Reply(tid, 0));
            && s3.requests[1].status.Waiting? && s4.requests[1].status.Waiting?
            && Apply(s4, Timeout(1)).requests[1].returned == Some(false)
  {
  }

  /** That the key is not in the map is not enough: a request answered before its message went out still
      erases its key when the message fails to serialise, and with it the entry of a later request. */
  lemma AbsentKeyLosesAnswer(tid: Tid)
    ensures var s1 := Apply(Apply(Init, Register(tid, Send)), Reply(tid, 5));
            var s2 := Apply(Apply(s1, Register(tid, Send)), Serialised(1));
            var s3 := Apply(s2, SerialiseFails(0));
            var s4 := Apply(s3, Reply(tid, 0));
            && tid !in s1.pending && Exact(s2) && !Exact(s3) && s4.requests[1].status.Waiting?
            && Apply(s4, Timeout(1)).requests[1].returned == Some(false)
  {
    var s1 := Apply(Apply(Init, Register(tid, Send)), Reply(tid, 5));
    var s3 := Apply(Apply(Apply(s1, Register(tid, Send)), Serialised(1)), SerialiseFails(0));
    assert s3.requests[1].status.Waiting? && tid !in s3.pending;
  }
}
