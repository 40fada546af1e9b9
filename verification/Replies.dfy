/** Where every reply comes from: what each step sends, field by field, and, over whole runs, why each
    client got what it got. */
module Replies {
  import opened Common
  import opened Messages
  import opened Responses
  import opened Relay

  // ---------- what a step sends ----------

  lemma GoodSessions(c: Config, s: State)
    requires c.Valid() && Inv(c, s)
    ensures SessionsGood(c, s) && SameIds(s)
  {
  }

  /** A query of this origin relayed under an id: the client's packet with only the id changed. */
  ghost predicate Relays(a: Action, q: nat, asked: Packet, id: uint16, upstream: nat) {
    a.Send? && a.query == q && a.upstream == upstream && a.packet.header.id == id && SameButId(a.packet, asked)
  }

  ghost predicate Replied(a: Action, q: nat, clientEnd: NetEnd) {
    a.Reply? && a.query == q && a.clientEnd == clientEnd
  }

  /** What a step adds to the log. */
  lemma StepSpeaks(c: Config, s: State, step: Step)
    requires c.Valid() && SessionsGood(c, s) && Enabled(c, s, step)
    ensures var log, q := Apply(c, s, step).log, |s.origins|;
            s.log <= log &&
            var e := log[|s.log|..];
            match step
            case AnswerLocally(o, response) => |e| == 1 && Replied(e[0], q, o.clientEnd) && e[0].packet == response
            case AnswerExhausted(o) =>
              |e| == 1 && Replied(e[0], q, o.clientEnd) && Responds(e[0].packet, o.asked, 2) && NoRecords(e[0].packet)
            case RelayFails(o, id) => |e| == 2 && Relays(e[0], q, o.asked, id, s.next) && e[1] == Drop(q)
            case RelayOpens(o, id, _) => |e| == 1 && Relays(e[0], q, o.asked, id, s.next)
            case ResponseArrives(id, packet) =>
              |e| == 1 && Replied(e[0], s.table[id].query, s.table[id].clientEnd) &&
              e[0].packet.header.id == s.table[id].clientId && SameButId(e[0].packet, packet)
            case ResponseUnmatched(_) => e == []
            case TimeoutRetries(id, _) =>
              |e| == 1 && Relays(e[0], s.table[id].query, s.origins[s.table[id].query].asked, id, s.next)
            case TimeoutGivesUp(id) =>
              |e| == 1 && Replied(e[0], s.table[id].query, s.table[id].clientEnd) &&
              Responds(e[0].packet, s.origins[s.table[id].query].asked, 2) && NoRecords(e[0].packet)
  {
    hide Responds, NoRecords, MakeInnerError, Apply;
    var e := Appended(c, s, step);
    AppendedShape(c, s, step);
    assert (s.log + e)[|s.log|..] == e;
    match step
    case AnswerLocally(_, _) =>
    case AnswerExhausted(o) => InnerErrorIsServfail(o.asked);
    case RelayFails(_, _) =>
    case RelayOpens(_, _, _) =>
    case ResponseArrives(_, _) =>
    case ResponseUnmatched(_) =>
    case TimeoutRetries(_, _) =>
    case TimeoutGivesUp(id) =>
      FailureAnswersQuery(c, s, id);
      InnerErrorIsServfail(s.origins[s.table[id].query].asked);
  }

  // ---------- what a packet leads to ----------

  /** One reply more, to the client of the session under the packet's id: under the client's id, and
      otherwise field by field the packet received. */
  ghost predicate HandsOn(before: State, after: State, packet: Packet) {
    var n, id := |before.log|, packet.header.id;
    && id in before.table && |after.log| == n + 1 && after.log[..n] == before.log
    && var a, e := after.log[n], before.table[id];
    && a.Reply? && a.query == e.query && a.clientEnd == e.clientEnd
    && a.packet.header.id == e.clientId
    && a.packet.header.flags == packet.header.flags
    && a.packet.header.qcount == packet.header.qcount
    && a.packet.header.answers == packet.header.answers
    && a.packet.header.authorities == packet.header.authorities
    && a.packet.header.additionals == packet.header.additionals
    && a.packet.questions == packet.questions
    && a.packet.records == packet.records
  }

  lemma ResponseHandedOn(c: Config, s: State, step: Step, packet: Packet)
    requires c.Valid() && Inv(c, s) && Enabled(c, s, step)
    ensures step == ResponseArrives(packet.header.id, packet) ==> HandsOn(s, Apply(c, s, step), packet)
    ensures step.ResponseUnmatched? ==> Apply(c, s, step).log == s.log
  {
    hide Apply, Inv;
    GoodSessions(c, s);
    StepSpeaks(c, s, step);
  }

  /** A query without local answer: SERVFAIL to its client when every id is taken; otherwise the client's
      query upstream, under an id not taken. If the send fails, the query is dropped; if not, a session is
      open under that id. */
  ghost predicate PassesOn(before: State, after: State, packet: Packet, source: NetEnd, fails: bool) {
    var n, q := |before.log|, |before.origins|;
    && n < |after.log| && after.log[..n] == before.log
    && var a := after.log[n];
    if forall id: uint16 :: id in before.used
    then |after.log| == n + 1 && Replied(a, q, source) && Servfail(a.packet, packet)
    else a.Send? && a.query == q && a.upstream == before.next
         && a.packet.header.id !in before.used && SameButId(a.packet, packet)
         && if fails then after.log[n + 1..] == [Drop(q)] && after.table == before.table
            else |after.log| == n + 1 && after.table.Keys == before.table.Keys + {a.packet.header.id}
  }

  /** What is sent on account of a packet from a source, for which the resolver may have an answer. */
  ghost predicate ReactsTo(before: State, after: State, packet: Packet, source: NetEnd, local: Option<Packet>, fails: bool) {
    if packet.header.flags >= 0x8000
    then if packet.header.id in before.table then HandsOn(before, after, packet) else after.log == before.log
    else if local.Some? then after.log == before.log + [Reply(|before.origins|, local.value, source)]
    else PassesOn(before, after, packet, source, fails)
  }

  lemma LocalEnabled(c: Config, s: State, o: Origin, response: Packet)
    requires response.header.id == o.asked.header.id
    ensures Enabled(c, s, AnswerLocally(o, response))
  {
  }

  lemma StepAnswers(c: Config, s: State, step: Step, packet: Packet, source: NetEnd, local: Option<Packet>, fails: bool)
    requires c.Valid() && Inv(c, s) && Enabled(c, s, step)
    requires var o := Origin(packet, source);
             if packet.header.flags >= 0x8000
             then step == ResponseArrives(packet.header.id, packet) || step == ResponseUnmatched(packet.header.id)
             else if local.Some? then step == AnswerLocally(o, local.value)
             else step == AnswerExhausted(o) ||
                  (if fails then step.RelayFails? && step.origin == o else step.RelayOpens? && step.origin == o)
    ensures ReactsTo(s, Apply(c, s, step), packet, source, local, fails)
  {
    hide Apply, Inv, Responds, NoRecords, SameButId, HandsOn, Together, WithId;
    GoodSessions(c, s);
    StepSpeaks(c, s, step);
    ResponseHandedOn(c, s, step, packet);
    TablesAfter(c, s, step);
    var log, n := Apply(c, s, step).log, |s.log|;
    assert log == s.log + log[n..];
    assert |log[n..]| > 0 ==> log[n] == log[n..][0];
    assert |log[n..]| > 1 ==> log[n + 1] == log[n..][1];
  }

  // ---------- why each client got what it got ----------

  /** One of the steps answered the query of this origin with this packet. */
  ghost predicate LocalReply(steps: seq<Step>, o: Origin, packet: Packet) {
    exists j :: 0 <= j < |steps| && steps[j].AnswerLocally? && steps[j].origin == o && steps[j].response == packet
  }

  /** The query has been sent upstream under this id. */
  ghost predicate SentUnder(log: seq<Action>, q: nat, id: uint16) {
    exists k :: 0 <= k < |log| && log[k].Send? && log[k].query == q && log[k].packet.header.id == id
  }

  /** The packet is, but for its id, a response that arrived under an id the query was sent under. */
  ghost predicate Upstreams(steps: seq<Step>, log: seq<Action>, q: nat, packet: Packet) {
    exists j :: 0 <= j < |steps| && steps[j].ResponseArrives? && SameButId(packet, steps[j].packet) &&
                SentUnder(log, q, steps[j].packet.header.id)
  }

  /**
   A reply carries the client's id to the client's address. For a query never sent it is the resolver's
   answer or SERVFAIL; for a query sent it is the upstream's response, or SERVFAIL after one send and all
   the retries.
   */
  ghost predicate Explained(c: Config, s: State, steps: seq<Step>, a: Action) {
    a.Reply? ==>
      a.query < |s.origins| &&
      var o, sends := s.origins[a.query], Sends(s.log, a.query);
      && a.clientEnd == o.clientEnd && a.packet.header.id == o.asked.header.id
      && (if sends == 0
          then LocalReply(steps, o, a.packet) || Servfail(a.packet, o.asked)
          else Upstreams(steps, s.log, a.query, a.packet) ||
               (Servfail(a.packet, o.asked) && sends == 1 + if c.maxRetry < 0 then 0 else c.maxRetry))
  }

  ghost predicate Servfail(packet: Packet, asked: Packet) {
    Responds(packet, asked, 2) && NoRecords(packet)
  }

  ghost predicate AllExplained(c: Config, s: State, steps: seq<Step>) {
    && (forall a | a in s.log :: Explained(c, s, steps, a))
    && (forall id | id in s.table :: SentUnder(s.log, s.table[id].query, id))
  }

  lemma {:induction false} RepliedOnce(log: seq<Action>, a: Action)
    requires a in log && a.Reply?
    ensures Replies(log, a.query) > 0
    decreases |log|
  {
    var n := |log| - 1;
    if log[n] != a {
      assert a in log[..n];
      RepliedOnce(log[..n], a);
    }
  }

  /** Once replied to, a query is sent no more. */
  lemma RepliedIsSettled(c: Config, s: State, step: Step, a: Action)
    requires c.Valid() && Inv(c, s) && Enabled(c, s, step) && a in s.log && a.Reply? && a.query < |s.origins|
    ensures Sends(Apply(c, s, step).log, a.query) == Sends(s.log, a.query)
  {
    hide Apply, Sends, Replies, Drops, Faithful, SendsBounded, Conserved, RoundRobin, SessionsGood;
    RepliedOnce(s.log, a);
    SendsAfter(c, s, step);
    assert !IsOpen(s, a.query);
  }

  lemma MoreSteps(steps: seq<Step>, log: seq<Action>, step: Step, more: seq<Action>)
    ensures forall o, p :: LocalReply(steps, o, p) ==> LocalReply(steps + [step], o, p)
    ensures forall q, id :: SentUnder(log, q, id) ==> SentUnder(log + more, q, id)
    ensures forall q, p :: Upstreams(steps, log, q, p) ==> Upstreams(steps + [step], log + more, q, p)
  {
    hide SameButId;
    var steps', log' := steps + [step], log + more;
    forall o, p | LocalReply(steps, o, p)
      ensures LocalReply(steps', o, p)
    {
      var j :| 0 <= j < |steps| && steps[j].AnswerLocally? && steps[j].origin == o && steps[j].response == p;
      assert steps'[j] == steps[j];
    }
    forall q, id | SentUnder(log, q, id)
      ensures SentUnder(log', q, id)
    {
      var k :| 0 <= k < |log| && log[k].Send? && log[k].query == q && log[k].packet.header.id == id;
      assert log'[k] == log[k];
    }
    forall q, p | Upstreams(steps, log, q, p)
      ensures Upstreams(steps', log', q, p)
    {
      var j :| 0 <= j < |steps| && steps[j].ResponseArrives? && SameButId(p, steps[j].packet) &&
               SentUnder(log, q, steps[j].packet.header.id);
      assert steps'[j] == steps[j];
    }
  }

  /** The reply of a step is explained by the step. */
  lemma NewReplyExplained(c: Config, s: State, steps: seq<Step>, step: Step, a: Action)
    requires c.Valid() && Inv(c, s) && Enabled(c, s, step) && AllExplained(c, s, steps)
    requires a.Reply? && Apply(c, s, step).log == s.log + [a]
    ensures Explained(c, Apply(c, s, step), steps + [step], a)
  {
    hide Apply, Sends, Responds, NoRecords, SameButId, Upstreams, SentUnder, LocalReply, Conserved, RoundRobin, OneFate;
    var s', steps' := Apply(c, s, step), steps + [step];
    AppendedShape(c, s, step);
    StepSpeaks(c, s, step);
    assert s'.log[|s.log|..] == [a];
    SendsAfter(c, s, step);
    StepKeepsFaith(c, s, step);
    assert Fits(s'.origins, a);
    MoreSteps(steps, s.log, step, [a]);
    if step.AnswerLocally? {
      LastIsLocal(steps, step);
    } else if step.ResponseArrives? {
      LastIsUpstreams(steps, s.log + [a], step, a);
    }
  }

  lemma LastIsLocal(steps: seq<Step>, step: Step)
    requires step.AnswerLocally?
    ensures LocalReply(steps + [step], step.origin, step.response)
  {
    assert (steps + [step])[|steps|] == step;
  }

  lemma LastIsUpstreams(steps: seq<Step>, log: seq<Action>, step: Step, a: Action)
    requires a.Reply? && step.ResponseArrives? && SameButId(a.packet, step.packet)
    requires SentUnder(log, a.query, step.packet.header.id)
    ensures Upstreams(steps + [step], log, a.query, a.packet)
  {
    hide SameButId, SentUnder;
    assert (steps + [step])[|steps|] == step;
  }

  lemma SessionsStaySent(c: Config, s: State, steps: seq<Step>, step: Step)
    requires c.Valid() && Inv(c, s) && Enabled(c, s, step) && AllExplained(c, s, steps)
    ensures var s' := Apply(c, s, step); forall id | id in s'.table :: SentUnder(s'.log, s'.table[id].query, id)
  {
    hide Apply, SentUnder, Explained, SameButId, OneFate, Faithful, SendsBounded, Conserved, RoundRobin;
    var s' := Apply(c, s, step);
    StepSpeaks(c, s, step);
    TablesAfter(c, s, step);
    var e := s'.log[|s.log|..];
    assert s'.log == s.log + e;
    MoreSteps(steps, s.log, step, e);
    if step.RelayOpens? {
      assert e == [e[0]];
      LastIsSent(s.log, e[0], step.relayId);
    }
    forall id | id in s'.table
      ensures SentUnder(s'.log, s'.table[id].query, id)
    {
      assert !(step.RelayOpens? && id == step.relayId) ==> id in s.table && s.table[id].query == s'.table[id].query;
    }
  }

  lemma LastIsSent(log: seq<Action>, a: Action, id: uint16)
    requires a.Send? && a.packet.header.id == id
    ensures SentUnder(log + [a], a.query, id)
  {
    assert (log + [a])[|log|] == a;
  }

  lemma StepStaysExplained(c: Config, s: State, steps: seq<Step>, step: Step)
    requires c.Valid() && Inv(c, s) && Enabled(c, s, step) && AllExplained(c, s, steps)
    ensures AllExplained(c, Apply(c, s, step), steps + [step])
  {
    hide Apply, Sends, SentUnder, LocalReply, Upstreams, Servfail, Inv, Enabled;
    var s' := Apply(c, s, step);
    SessionsStaySent(c, s, steps, step);
    AppendedShape(c, s, step);
    var e := Appended(c, s, step);
    MoreSteps(steps, s.log, step, e);
    forall a | a in s'.log
      ensures Explained(c, s', steps + [step], a)
    {
      if a in s.log {
        if a.Reply? {
          assert Explained(c, s, steps, a);
          RepliedIsSettled(c, s, step, a);
        }
      } else if a.Reply? {
        assert e == [a];
        NewReplyExplained(c, s, steps, step, a);
      }
    }
  }

  lemma {:induction false} RunStaysExplained(c: Config, s: State, past: seq<Step>, steps: seq<Step>)
    requires c.Valid() && Inv(c, s) && AllExplained(c, s, past) && CanRun(c, s, steps)
    ensures AllExplained(c, Run(c, s, steps), past + steps)
    decreases |steps|
  {
    hide Inv, AllExplained, Apply, Enabled;
    if steps == [] {
      assert past + [] == past;
    } else {
      StepStaysExplained(c, s, past, steps[0]);
      StepKeepsInv(c, s, steps[0]);
      RunStaysExplained(c, Apply(c, s, steps[0]), past + [steps[0]], steps[1..]);
      assert past + [steps[0]] + steps[1..] == past + steps;
    }
  }

  /** Every reply of every run. */
  lemma RepliesExplained(c: Config, steps: seq<Step>)
    requires c.Valid() && CanRun(c, INITIAL, steps)
    ensures forall a | a in Run(c, INITIAL, steps).log :: Explained(c, Run(c, INITIAL, steps), steps, a)
  {
    InitialInv(c);
    RunStaysExplained(c, INITIAL, [], steps);
    assert [] + steps == steps;
  }
}
