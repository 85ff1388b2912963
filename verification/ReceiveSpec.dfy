/** What a receive loop makes of the events its socket delivers. */
module ReceiveSpec {
  import opened Identifiers
  import opened Messages
  import opened Sockets

  /** The receiver would return this message. A server answers PING requests instead of returning them. */
  predicate Wanted(m: Received, sel: Selector, server: bool) {
    !(server && IsPing(m)) && Matches(m, sel)
  }

  /** The receiver consumes this event and carries on. */
  predicate Skipped(e: Event, sel: Selector, server: bool) {
    e.Msg? && !Wanted(e.m, sel, server)
  }

  predicate AllSkipped(events: seq<Event>, sel: Selector, server: bool) {
    forall i :: 0 <= i < |events| ==> Skipped(events[i], sel, server)
  }

  /** How many events of `before` are missing from its suffix `after`. */
  predicate Suffix(before: seq<Event>, after: seq<Event>) {
    |after| <= |before| && after == before[|before| - |after|..]
  }

  function Used(before: seq<Event>, after: seq<Event>): seq<Event>
    requires Suffix(before, after)
  {
    before[..|before| - |after|]
  }

  function Last<T>(s: seq<T>): T
    requires s != []
  {
    s[|s| - 1]
  }

  function Front<T>(s: seq<T>): seq<T>
    requires s != []
  {
    s[..|s| - 1]
  }

  /** `m` is the first wanted message, and nothing that ends a receive came before it. */
  predicate FoundFirst(before: seq<Event>, after: seq<Event>, sel: Selector, server: bool, m: Received) {
    && Suffix(before, after)
    && var used := Used(before, after);
       used != [] && Last(used) == Msg(m) && Wanted(m, sel, server) && AllSkipped(Front(used), sel, server)
  }

  /** An error arrived before any wanted message. */
  predicate FailedFirst(before: seq<Event>, after: seq<Event>, sel: Selector, server: bool) {
    && Suffix(before, after)
    && var used := Used(before, after);
       used != [] && Last(used).Fail? && AllSkipped(Front(used), sel, server)
  }

  /** The receiver gave up with nothing wanted consumed. */
  predicate NothingYet(before: seq<Event>, after: seq<Event>, sel: Selector, server: bool) {
    Suffix(before, after) && AllSkipped(Used(before, after), sel, server)
  }

  predicate IsAnswer(s: Sent, to: Identifier) {
    s.message == RawMessage(IPC_PING_RSP, []) && s.to == to
  }

  /** Since `before`, exactly one PING_RSP was tried to each of `senders`, in order, and nothing else. */
  ghost predicate Answered(before: seq<Sent>, after: seq<Sent>, senders: seq<Identifier>) {
    && |after| == |before| + |senders|
    && after[..|before|] == before
    && forall i :: 0 <= i < |senders| ==> IsAnswer(after[|before| + i], senders[i])
  }

  /** How many of some sends succeeded. */
  function Successes(sent: seq<Sent>): nat {
    if sent == [] then 0
    else Successes(sent[..|sent| - 1]) + if 0 <= sent[|sent| - 1].result then 1 else 0
  }

  lemma SuccessesSnoc(sent: seq<Sent>, s: Sent)
    ensures Successes(sent + [s]) == Successes(sent) + if 0 <= s.result then 1 else 0
  {
    assert (sent + [s])[..|sent|] == sent;
  }

  /** How many of some events are errors. */
  function Failures(events: seq<Event>): nat {
    if events == [] then 0
    else Failures(events[..|events| - 1]) + if events[|events| - 1].Fail? then 1 else 0
  }

  lemma {:induction false} FailuresConcat(a: seq<Event>, b: seq<Event>)
    ensures Failures(a + b) == Failures(a) + Failures(b)
  {
    if b == [] {
      assert a + b == a;
    } else {
      FailuresConcat(a, b[..|b| - 1]);
      assert (a + b)[..|a + b| - 1] == a + b[..|b| - 1];
    }
  }

  lemma {:induction false} NoFailureSkipped(events: seq<Event>, sel: Selector, server: bool)
    requires AllSkipped(events, sel, server)
    ensures Failures(events) == 0
  {
    if events != [] {
      assert forall i :: 0 <= i < |events| - 1 ==> events[..|events| - 1][i] == events[i];
      NoFailureSkipped(events[..|events| - 1], sel, server);
    }
  }

  lemma StepUsed(before: seq<Event>, mid: seq<Event>, after: seq<Event>)
    requires Suffix(before, mid) && mid != [] && after == mid[1..]
    ensures Suffix(before, after) && Used(before, after) == Used(before, mid) + [mid[0]]
  {
  }

  lemma SkipOne(before: seq<Event>, mid: seq<Event>, after: seq<Event>, sel: Selector, server: bool)
    requires NothingYet(before, mid, sel, server) && mid != [] && after == mid[1..]
    ensures Skipped(mid[0], sel, server) ==> NothingYet(before, after, sel, server)
    ensures mid[0].Fail? ==> FailedFirst(before, after, sel, server)
    ensures mid[0].Msg? && Wanted(mid[0].m, sel, server) ==> FoundFirst(before, after, sel, server, mid[0].m)
  {
    StepUsed(before, mid, after);
    var used := Used(before, after);
    assert Front(used) == Used(before, mid);
  }
}
