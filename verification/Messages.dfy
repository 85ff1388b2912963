/** Received messages, receive selectors, and the filter all three receivers share. */
module Messages {
  import opened Wrappers
  import opened Identifiers

  type Byte = x: int | 0 <= x < 0x100
  type Int32 = x: int | -0x8000_0000 <= x < 0x8000_0000

  const IPC_PING_REQ: Word32 := 1
  const IPC_PING_RSP: Word32 := 2
  const IMMEDIATE_TIMEOUT: Int32 := 0
  const INFINITE_TIMEOUT: Int32 := -1

  datatype RawMessage = RawMessage(reqId: Word32, payload: seq<Byte>)

  datatype Received = Received(message: RawMessage, from: Identifier)

  /** What a receive call asks for: a set of request ids (empty: any) and a sender (None: any). */
  datatype Selector = Selector(sigsel: seq<Word32>, from: Option<Identifier>)

  const ANY: Selector := Selector([], None)

  predicate MatchesSignalSelector(msg: RawMessage, sigsel: seq<Word32>) {
    |sigsel| == 0 || msg.reqId in sigsel
  }

  predicate MatchesFrom(from: Option<Identifier>, expected: Option<Identifier>) {
    if expected.None? then true
    else if from.None? then false
    else Same(from.value, expected.value)
  }

  predicate Matches(m: Received, sel: Selector) {
    MatchesFrom(Some(m.from), sel.from) && MatchesSignalSelector(m.message, sel.sigsel)
  }

  /**
   * The filter by its laws: an empty id list and a missing sender accept everything, one id accepts that id,
   * joining two non-empty lists accepts what either does, and naming a sender narrows to messages from it.
   */
  lemma SelectorLaws(m: Received, ids: seq<Word32>, more: seq<Word32>, id: Word32, from: Option<Identifier>)
    ensures Matches(m, Selector([], None)) && Matches(m, ANY)
    ensures Matches(m, Selector([id], from)) <==> m.message.reqId == id && Matches(m, Selector([], from))
    ensures ids != [] && more != [] ==>
              (Matches(m, Selector(ids + more, from)) <==> Matches(m, Selector(ids, from)) || Matches(m, Selector(more, from)))
    ensures from.Some? ==>
              (Matches(m, Selector(ids, from)) <==> Matches(m, Selector(ids, None)) && Same(m.from, from.value))
    ensures from.Some? ==> !MatchesFrom(None, from)
  {
  }

  /** Of some messages, those a selector matches, in order. */
  function Chosen(ms: seq<Received>, sel: Selector): seq<Received> {
    if ms == [] then [] else
      var rest := Chosen(ms[..|ms| - 1], sel);
      var m := ms[|ms| - 1];
      if Matches(m, sel) then rest + [m] else rest
  }

  lemma {:induction false} ChosenConcat(a: seq<Received>, b: seq<Received>, sel: Selector)
    ensures Chosen(a + b, sel) == Chosen(a, sel) + Chosen(b, sel)
  {
    if b == [] {
      assert a + b == a;
    } else {
      ChosenConcat(a, b[..|b| - 1], sel);
      assert (a + b)[..|a + b| - 1] == a + b[..|b| - 1];
    }
  }

  lemma {:induction false} ChosenAll(ms: seq<Received>, sel: Selector)
    requires forall i :: 0 <= i < |ms| ==> Matches(ms[i], sel)
    ensures Chosen(ms, sel) == ms
  {
    if ms != [] {
      ChosenAll(ms[..|ms| - 1], sel);
    }
  }

  lemma ChosenAny(ms: seq<Received>)
    ensures Chosen(ms, ANY) == ms
  {
    ChosenAll(ms, ANY);
  }

  lemma {:induction false} ChosenNone(ms: seq<Received>, sel: Selector)
    requires forall i :: 0 <= i < |ms| ==> !Matches(ms[i], sel)
    ensures Chosen(ms, sel) == []
  {
    if ms != [] {
      ChosenNone(ms[..|ms| - 1], sel);
    }
  }

  // What a selector does not match can be left out.
  lemma ChosenWithout(skipped: seq<Received>, m: seq<Received>, rest: seq<Received>, sel: Selector)
    requires Chosen(skipped, sel) == []
    ensures Chosen(skipped + (m + rest), sel) == Chosen(m, sel) + Chosen(skipped + rest, sel)
  {
    ChosenConcat(skipped, m + rest, sel);
    ChosenConcat(m, rest, sel);
    ChosenConcat(skipped, rest, sel);
  }

  // A stretch moved from the front of what is to come to the end of what has been.
  lemma ChosenMoved(past: seq<Received>, m: seq<Received>, before: seq<Received>, after: seq<Received>, sel: Selector)
    requires Chosen(before, sel) == Chosen(m, sel) + Chosen(after, sel)
    ensures Chosen(past + m, sel) + Chosen(after, sel) == Chosen(past, sel) + Chosen(before, sel)
  {
    ChosenConcat(past, m, sel);
  }

  predicate IsPing(m: Received) {
    m.message.reqId == IPC_PING_REQ
  }

  /** One result of a socket receive: a datagram (positive result) or a non-positive code. */
  datatype Event = Msg(m: Received) | Fail(code: int)

  /** Everything the application is meant to see of a stretch of socket events. */
  function NonPing(trace: seq<Event>): seq<Received> {
    if trace == [] then [] else
      var rest := NonPing(trace[..|trace| - 1]);
      var e := trace[|trace| - 1];
      if e.Msg? && !IsPing(e.m) then rest + [e.m] else rest
  }

  /** The senders of the PING requests in a stretch of socket events, in order. */
  function PingSenders(trace: seq<Event>): seq<Identifier> {
    if trace == [] then [] else
      var rest := PingSenders(trace[..|trace| - 1]);
      var e := trace[|trace| - 1];
      if e.Msg? && IsPing(e.m) then rest + [e.m.from] else rest
  }

  /** After the first failure there is nothing but failures. */
  predicate FailuresLast(trace: seq<Event>) {
    forall i, j :: 0 <= i < j < |trace| && trace[i].Fail? ==> trace[j].Fail?
  }

  lemma TraceSnoc(a: seq<Event>, e: Event)
    ensures e.Msg? && !IsPing(e.m) ==> NonPing(a + [e]) == NonPing(a) + [e.m] && PingSenders(a + [e]) == PingSenders(a)
    ensures e.Msg? && IsPing(e.m) ==> NonPing(a + [e]) == NonPing(a) && PingSenders(a + [e]) == PingSenders(a) + [e.m.from]
    ensures e.Fail? ==> NonPing(a + [e]) == NonPing(a) && PingSenders(a + [e]) == PingSenders(a)
  {
    assert (a + [e])[..|a|] == a;
  }

  lemma {:induction false} TraceConcat(a: seq<Event>, b: seq<Event>)
    ensures NonPing(a + b) == NonPing(a) + NonPing(b)
    ensures PingSenders(a + b) == PingSenders(a) + PingSenders(b)
  {
    if b == [] {
      assert a + b == a;
    } else {
      var front, e := b[..|b| - 1], b[|b| - 1];
      TraceConcat(a, front);
      assert a + b == (a + front) + [e];
      TraceSnoc(a + front, e);
      TraceSnoc(front, e);
      assert b == front + [e];
    }
  }
}
