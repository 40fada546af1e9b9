/** What the packets of a whole run look like: everything sent is printable, and a query that never
    went upstream is answered with a response to its own question. */
module Conversation {
  import opened Common
  import opened Messages
  import opened Responses
  import opened Relay
  import opened Replies

  ghost predicate AnswersTo(reply: Packet, asked: Packet) {
    && WellFormed(reply) && !IsQuery(reply.header.flags)
    && reply.header.id == asked.header.id && reply.questions == asked.questions
  }

  /** What comes in is well-formed, and local answers answer. */
  ghost predicate WellFed(step: Step) {
    match step
    case AnswerLocally(o, response) => WellFormed(o.asked) && AnswersTo(response, o.asked)
    case AnswerExhausted(o) => WellFormed(o.asked)
    case RelayFails(o, _) => WellFormed(o.asked)
    case RelayOpens(o, _, _) => WellFormed(o.asked)
    case ResponseArrives(_, packet) => WellFormed(packet)
    case _ => true
  }

  ghost predicate ProperAction(origins: seq<Origin>, log: seq<Action>, a: Action) {
    a.Drop? || (
      && a.query < |origins| && WellFormed(a.packet)
      && (a.Reply? && Sends(log, a.query) == 0 ==> AnswersTo(a.packet, origins[a.query].asked)))
  }

  /** Every packet sent is well-formed; and the reply to a query never sent upstream answers it. */
  ghost predicate Proper(s: State) {
    && (forall o | o in s.origins :: WellFormed(o.asked))
    && (forall a | a in s.log :: ProperAction(s.origins, s.log, a))
  }

  lemma InitialIsProper()
    ensures Proper(INITIAL)
  {
  }

  lemma WithIdWellFormed(p: Packet, id: uint16)
    ensures WellFormed(WithId(p, id)) <==> WellFormed(p)
  {
  }

  lemma InnerErrorAnswers(asked: Packet)
    requires WellFormed(asked)
    ensures AnswersTo(MakeInnerError(asked), asked)
  {
    FailureResponse(asked, RCODE_SERVFAIL);
  }

  /** The session of a response or timeout has its query, well-formed, sent before. */
  lemma SessionWasSent(c: Config, s: State, id: uint16)
    requires c.Valid() && Inv(c, s) && Proper(s) && id in s.table
    ensures var e := s.table[id];
            e.query < |s.origins| && Sends(s.log, e.query) > 0 && WellFormed(s.origins[e.query].asked) &&
            WellFormed(e.packet)
  {
    hide WellFormed, Sends, WithId, Conserved, RoundRobin, OneFate, Faithful;
    var e := s.table[id];
    WithIdWellFormed(s.origins[e.query].asked, id);
  }

  /** What a step sends is proper. */
  lemma SentIsProper(c: Config, s: State, step: Step, a: Action)
    requires c.Valid() && Inv(c, s) && Proper(s) && Enabled(c, s, step) && WellFed(step)
    requires a in Appended(c, s, step)
    ensures a.Drop? || (a.query < |Apply(c, s, step).origins| && WellFormed(a.packet))
    ensures a.Reply? ==> Sends(s.log, a.query) > 0 || AnswersTo(a.packet, Apply(c, s, step).origins[a.query].asked)
  {
    hide WellFormed, Sends, WithId, MakeInnerError, Inv, AnswersTo, Proper;
    match step
    case AnswerLocally(o, response) => LocalIsWellFormed(response, o.asked);
    case AnswerExhausted(o) =>
      InnerErrorAnswers(o.asked);
      LocalIsWellFormed(MakeInnerError(o.asked), o.asked);
    case RelayFails(o, id) => WithIdWellFormed(o.asked, id);
    case RelayOpens(o, id, _) => WithIdWellFormed(o.asked, id);
    case ResponseArrives(id, packet) =>
      SessionWasSent(c, s, id);
      WithIdWellFormed(packet, s.table[id].clientId);
    case ResponseUnmatched(_) =>
    case TimeoutRetries(id, _) => SessionWasSent(c, s, id);
    case TimeoutGivesUp(id) =>
      SessionWasSent(c, s, id);
      GoodSessions(c, s);
      FailureAnswersQuery(c, s, id);
      InnerErrorAnswers(s.origins[s.table[id].query].asked);
      LocalIsWellFormed(MakeInnerError(s.origins[s.table[id].query].asked), s.origins[s.table[id].query].asked);
  }

  lemma LocalIsWellFormed(reply: Packet, asked: Packet)
    requires AnswersTo(reply, asked)
    ensures WellFormed(reply)
  {
  }

  /** Later queries and sends do not make an action improper. */
  lemma ActionStays(origins: seq<Origin>, log: seq<Action>, origins': seq<Origin>, log': seq<Action>, a: Action)
    requires ProperAction(origins, log, a) && origins <= origins' && forall q :: Sends(log, q) <= Sends(log', q)
    ensures ProperAction(origins', log', a)
  {
    hide AnswersTo, WellFormed, Sends;
  }

  /** What a step does to log and origins. */
  lemma LogExtends(c: Config, s: State, step: Step)
    requires c.Valid() && Enabled(c, s, step)
    ensures var s' := Apply(c, s, step);
            s'.log == s.log + Appended(c, s, step) && s.origins <= s'.origins && forall q :: Sends(s.log, q) <= Sends(s'.log, q)
  {
    hide Apply, Appended, Enabled, Sends;
    AppendedShape(c, s, step);
    Tallies(c, s, step);
  }

  lemma StepKeepsProper(c: Config, s: State, step: Step)
    requires c.Valid() && Inv(c, s) && Proper(s) && Enabled(c, s, step) && WellFed(step)
    ensures Proper(Apply(c, s, step))
  {
    hide Apply, Appended, Enabled, Inv, WellFed, ProperAction, WellFormed, Sends;
    var s' := Apply(c, s, step);
    LogExtends(c, s, step);
    OriginsStayProper(c, s, step);
    forall a | a in s'.log
      ensures ProperAction(s'.origins, s'.log, a)
    {
      if a in s.log {
        ActionStays(s.origins, s.log, s'.origins, s'.log, a);
      } else {
        SentStaysProper(c, s, step, a);
      }
    }
  }

  lemma SentStaysProper(c: Config, s: State, step: Step, a: Action)
    requires c.Valid() && Inv(c, s) && Proper(s) && Enabled(c, s, step) && WellFed(step)
    requires a in Appended(c, s, step)
    ensures ProperAction(Apply(c, s, step).origins, Apply(c, s, step).log, a)
  {
    hide Apply, Appended, Enabled, Inv, WellFed, Proper, WellFormed, Sends, AnswersTo;
    SentIsProper(c, s, step, a);
    LogExtends(c, s, step);
  }

  lemma OriginsStayProper(c: Config, s: State, step: Step)
    requires c.Valid() && Enabled(c, s, step) && Proper(s) && WellFed(step)
    ensures forall o | o in Apply(c, s, step).origins :: WellFormed(o.asked)
  {
    hide Apply, Appended, Enabled, AnswersTo, WellFormed, ProperAction;
    AppendedShape(c, s, step);
  }

  /** Whole runs stay proper. */
  lemma {:induction false} RunKeepsProper(c: Config, s: State, steps: seq<Step>)
    requires c.Valid() && Inv(c, s) && Proper(s) && CanRun(c, s, steps)
    requires forall step | step in steps :: WellFed(step)
    ensures Proper(Run(c, s, steps))
    decreases |steps|
  {
    hide Inv, Proper, Apply, Enabled, WellFed;
    if steps != [] {
      assert steps[0] in steps;
      StepKeepsProper(c, s, steps[0]);
      StepKeepsInv(c, s, steps[0]);
      RunKeepsProper(c, Apply(c, s, steps[0]), steps[1..]);
    }
  }

  lemma TimeoutsAreFed(steps: seq<Step>)
    requires forall step | step in steps :: IsTimeout(step)
    ensures forall step | step in steps :: WellFed(step)
  {
  }
}
