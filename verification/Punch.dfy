/** The hub through which hole-punching requests share one control connection. */
module Punch {

  /** `NatHoleResp`: only the transaction id matters here. */
  datatype Response = Response(transactionId: string, content: string)

  datatype State = Open | Answered(response: Response) | Closed

  /** One oneshot channel: whose request it was made for, what has become of the sending half, and
      whether the requester still holds the receiving half. */
  datatype Channel = Channel(transactionId: string, state: State, awaited: bool)

  /** The waiters, and every channel made so far; a waiter is the sending half of a channel. */
  datatype Bus = Bus(waiters: map<string, nat>, channels: seq<Channel>)

  datatype Event =
    | Request(transactionId: string, sent: bool)
    | Deliver(response: Response)
    | Clear
    | TimeOut(channel: nat)

  const START := Bus(map[], [])

  /** Dropping the sending half closes a channel that has not been answered. */
  function Dropped(c: Channel): Channel {
    if c.state.Open? then c.(state := Closed) else c
  }

  function Sent(c: Channel, r: Response): Channel {
    c.(state := if c.awaited then Answered(r) else Closed)
  }

  function DropAll(channels: seq<Channel>, which: set<nat>): (r: seq<Channel>)
    ensures |r| == |channels|
    ensures forall k | 0 <= k < |r| :: r[k] == if k in which then Dropped(channels[k]) else channels[k]
  {
    seq(|channels|, k requires 0 <= k < |channels| => if k in which then Dropped(channels[k]) else channels[k])
  }

  predicate Inv(b: Bus) {
    && (forall t | t in b.waiters :: b.waiters[t] < |b.channels|)
    && (forall t | t in b.waiters ::
          b.channels[b.waiters[t]].transactionId == t && b.channels[b.waiters[t]].state.Open?)
    && (forall k | 0 <= k < |b.channels| && b.channels[k].state.Open? ::
          b.channels[k].transactionId in b.waiters && b.waiters[b.channels[k].transactionId] == k)
    && (forall k | 0 <= k < |b.channels| && b.channels[k].state.Answered? ::
          b.channels[k].state.response.transactionId == b.channels[k].transactionId)
  }

  function Step(b: Bus, e: Event): Bus
    requires Inv(b)
  {
    match e
    case Request(t, sent) =>
      var kept := if t in b.waiters then b.channels[b.waiters[t] := Dropped(b.channels[b.waiters[t]])] else b.channels;
      if sent then Bus(b.waiters[t := |b.channels|], kept + [Channel(t, Open, true)])
      else Bus(b.waiters - {t}, kept + [Channel(t, Closed, false)])
    case Deliver(r) =>
      if r.transactionId in b.waiters then
        var k := b.waiters[r.transactionId];
        Bus(b.waiters - {r.transactionId}, b.channels[k := Sent(b.channels[k], r)])
      else b
    case Clear => Bus(map[], DropAll(b.channels, b.waiters.Values))
    case TimeOut(k) =>
      if k < |b.channels| then b.(channels := b.channels[k := b.channels[k].(awaited := false)]) else b
  }

  lemma RequestInv(b: Bus, t: string, sent: bool)
    requires Inv(b)
    ensures Inv(Step(b, Request(t, sent))) && |Step(b, Request(t, sent)).channels| == |b.channels| + 1
  {
    var after, n := Step(b, Request(t, sent)), |b.channels|;
    forall k | 0 <= k < n ensures after.channels[k] == if t in b.waiters && b.waiters[t] == k
                                                       then Dropped(b.channels[k]) else b.channels[k]
    {
    }
  }

  lemma DeliverInv(b: Bus, r: Response)
    requires Inv(b)
    ensures Inv(Step(b, Deliver(r))) && |Step(b, Deliver(r)).channels| == |b.channels|
  {
  }

  lemma ClearInv(b: Bus)
    requires Inv(b)
    ensures Inv(Step(b, Clear)) && |Step(b, Clear).channels| == |b.channels|
  {
  }

  lemma TimeOutInv(b: Bus, k: nat)
    requires Inv(b)
    ensures Inv(Step(b, TimeOut(k))) && |Step(b, TimeOut(k)).channels| == |b.channels|
  {
  }

  lemma StepInv(b: Bus, e: Event)
    requires Inv(b)
    ensures Inv(Step(b, e))
    ensures |Step(b, e).channels| == |b.channels| + if e.Request? then 1 else 0
  {
    hide Inv, Step;
    match e
    case Request(t, sent) => RequestInv(b, t, sent);
    case Deliver(r) => DeliverInv(b, r);
    case Clear => ClearInv(b);
    case TimeOut(k) => TimeOutInv(b, k);
  }

  function Run(b: Bus, events: seq<Event>): Bus
    requires Inv(b)
    decreases |events|
  {
    if events == [] then b
    else
      StepInv(b, events[0]);
      Run(Step(b, events[0]), events[1..])
  }

  lemma {:induction false} RunInv(b: Bus, events: seq<Event>)
    requires Inv(b)
    ensures Inv(Run(b, events)) && |Run(b, events).channels| >= |b.channels|
    decreases |events|
  {
    if events != [] {
      StepInv(b, events[0]);
      RunInv(Step(b, events[0]), events[1..]);
    }
  }

  lemma InRange(b: Bus)
    requires Inv(b)
    ensures forall t | t in b.waiters :: b.waiters[t] < |b.channels|
  {
  }

  lemma Unsent(kept: seq<Channel>, t: string)
    ensures (kept + [Channel(t, Open, true)])[|kept| := Channel(t, Closed, false)] == kept + [Channel(t, Closed, false)]
  {
  }

  // ----- The hub -----

  class PunchBus {
    var waiters: map<string, nat>
    /** Every oneshot channel made so far; the Rust source leaves them to the runtime. */
    var channels: seq<Channel>

    ghost function Now(): Bus reads this { Bus(waiters, channels) }

    ghost predicate Valid() reads this { Inv(Now()) }

    constructor ()
      ensures Valid() && Now() == START
    {
      waiters := map[];
      channels := [];
    }

    /** `insert`, which drops the sending half it replaces. */
    method Register(t: string, k: nat)
      modifies this
      requires Valid()
      ensures waiters == old(waiters)[t := k]
      ensures channels == if t in old(waiters)
                          then old(channels)[old(waiters)[t] := Dropped(old(channels)[old(waiters)[t]])]
                          else old(channels)
    {
      if t in waiters {
        channels := channels[waiters[t] := Dropped(channels[waiters[t]])];
      }
      waiters := waiters[t := k];
    }

    /** `request`; `sent` says whether the session still takes requests from the channel. */
    method Request(t: string, sent: bool) returns (rx: nat, ok: bool)
      requires Valid()
      modifies this
      ensures Valid() && Now() == Step(old(Now()), Event.Request(t, sent))
      ensures ok == sent && rx == |old(channels)|
    {
      StepInv(Now(), Event.Request(t, sent));
      InRange(Now());
      hide Inv;
      rx := |channels|;
      Register(t, rx);
      Unsent(channels, t);
      assert waiters - {t} == old(waiters) - {t};
      channels := channels + [Channel(t, Open, true)];
      if !sent {
        channels := channels[rx := Channel(t, Closed, false)];
        waiters := waiters - {t};
        ok := false;
      } else {
        ok := true;
      }
    }

    method Deliver(r: Response)
      requires Valid()
      modifies this
      ensures Valid() && Now() == Step(old(Now()), Event.Deliver(r))
    {
      StepInv(Now(), Event.Deliver(r));
      if r.transactionId in waiters {
        var k := waiters[r.transactionId];
        waiters := waiters - {r.transactionId};
        channels := channels[k := Sent(channels[k], r)];
      }
    }

    method Clear()
      requires Valid()
      modifies this
      ensures Valid() && Now() == Step(old(Now()), Event.Clear)
    {
      StepInv(Now(), Event.Clear);
      channels := DropAll(channels, waiters.Values);
      waiters := map[];
    }

    /** The requester gives up: the timeout drops the receiving half and leaves the waiter. */
    method GiveUp(rx: nat)
      requires Valid()
      modifies this
      ensures Valid() && Now() == Step(old(Now()), TimeOut(rx))
    {
      StepInv(Now(), TimeOut(rx));
      if rx < |channels| {
        channels := channels[rx := channels[rx].(awaited := false)];
      }
    }
  }

  // ----- What one requester sees -----

  /** What an event does to one channel, no shared table in sight: the first response with its own id, a
      disconnection, or a second request with the same id ends it. */
  function Seen(c: Channel, k: nat, e: Event): Channel {
    match e
    case Request(t, _) => if t == c.transactionId then Dropped(c) else c
    case Deliver(r) => if c.state.Open? && r.transactionId == c.transactionId then Sent(c, r) else c
    case Clear => Dropped(c)
    case TimeOut(j) => if j == k then c.(awaited := false) else c
  }

  function Fate(c: Channel, k: nat, events: seq<Event>): Channel
    decreases |events|
  {
    if events == [] then c else Fate(Seen(c, k, events[0]), k, events[1..])
  }

  lemma StepSeen(b: Bus, e: Event, k: nat)
    requires Inv(b) && k < |b.channels|
    ensures k < |Step(b, e).channels| && Step(b, e).channels[k] == Seen(b.channels[k], k, e)
  {
  }

  /** Sharing one table changes nothing for anyone: over every run each request sees exactly what it
      would see alone. */
  lemma {:induction false} EachToItsOwn(b: Bus, events: seq<Event>, k: nat)
    requires Inv(b) && k < |b.channels|
    ensures k < |Run(b, events).channels| && Run(b, events).channels[k] == Fate(b.channels[k], k, events)
    decreases |events|
  {
    if events != [] {
      StepInv(b, events[0]);
      StepSeen(b, events[0], k);
      EachToItsOwn(Step(b, events[0]), events[1..], k);
    }
  }

  /** An answer is for the request that gets it, and it is the only one it ever gets. */
  lemma {:induction false} OneAnswer(events: seq<Event>, later: seq<Event>, k: nat)
    requires k < |Run(START, events).channels| && Run(START, events).channels[k].state.Answered?
    ensures var c := Run(START, events).channels[k];
            && c.state.response.transactionId == c.transactionId
            && k < |Run(START, events + later).channels|
            && Run(START, events + later).channels[k].state == c.state
  {
    RunInv(START, events);
    RunSplit(START, events, later);
    EachToItsOwn(Run(START, events), later, k);
    AnswerStays(Run(START, events).channels[k], k, later);
  }

  lemma {:induction false} AnswerStays(c: Channel, k: nat, events: seq<Event>)
    requires !c.state.Open?
    ensures Fate(c, k, events).state == c.state
    decreases |events|
  {
    if events != [] {
      AnswerStays(Seen(c, k, events[0]), k, events[1..]);
    }
  }

  /** Whoever has given up waiting is never answered, whatever comes later. */
  lemma {:induction false} TooLate(events: seq<Event>, later: seq<Event>, k: nat)
    requires k < |Run(START, events).channels| && Run(START, events).channels[k].state.Open?
    ensures var all := events + [TimeOut(k)] + later;
            k < |Run(START, all).channels| && !Run(START, all).channels[k].state.Answered?
  {
    RunInv(START, events);
    RunSplit(START, events, [TimeOut(k)] + later);
    assert events + [TimeOut(k)] + later == events + ([TimeOut(k)] + later);
    var c := Run(START, events).channels[k];
    EachToItsOwn(Run(START, events), [TimeOut(k)] + later, k);
    assert ([TimeOut(k)] + later)[1..] == later;
    NeverAnswered(c.(awaited := false), k, later);
  }

  lemma {:induction false} NeverAnswered(c: Channel, k: nat, events: seq<Event>)
    requires !c.awaited && !c.state.Answered?
    ensures !Fate(c, k, events).state.Answered?
    decreases |events|
  {
    if events != [] {
      NeverAnswered(Seen(c, k, events[0]), k, events[1..]);
    }
  }

  lemma {:induction false} RunSplit(b: Bus, events: seq<Event>, later: seq<Event>)
    requires Inv(b)
    ensures Inv(Run(b, events)) && Run(b, events + later) == Run(Run(b, events), later)
    decreases |events|
  {
    hide Inv, Step;
    RunInv(b, events);
    if events == [] {
      assert events + later == later;
    } else {
      StepInv(b, events[0]);
      RunSplit(Step(b, events[0]), events[1..], later);
      assert (events + later)[1..] == events[1..] + later;
    }
  }

  // ----- The table -----

  /** This event ends the wait for `t`. */
  predicate Ends(e: Event, t: string) {
    match e
    case Request(u, sent) => u == t && !sent
    case Deliver(r) => r.transactionId == t
    case Clear => true
    case TimeOut(_) => false
  }

  /** `t` was sent at some point and nothing has ended the wait since. */
  ghost predicate Outstanding(events: seq<Event>, t: string) {
    exists i | 0 <= i < |events| :: events[i] == Request(t, true) && QuietSince(events, i, t)
  }

  ghost predicate QuietSince(events: seq<Event>, i: nat, t: string) {
    forall j | i < j < |events| :: !Ends(events[j], t)
  }

  lemma OutstandingStep(events: seq<Event>, e: Event, t: string)
    ensures Outstanding(events + [e], t) <==> e == Request(t, true) || (Outstanding(events, t) && !Ends(e, t))
  {
    var all := events + [e];
    if e == Request(t, true) {
      assert all[|events|] == e && QuietSince(all, |events|, t);
    } else if Outstanding(events, t) && !Ends(e, t) {
      var i :| 0 <= i < |events| && events[i] == Request(t, true) && QuietSince(events, i, t);
      assert all[i] == events[i] && QuietSince(all, i, t);
    }
    if Outstanding(all, t) && e != Request(t, true) {
      var i :| 0 <= i < |all| && all[i] == Request(t, true) && QuietSince(all, i, t);
      assert i < |events| && all[|events|] == e;
      assert forall j | i < j < |events| :: events[j] == all[j];
      assert events[i] == all[i] && QuietSince(events, i, t);
    }
  }

  lemma WaitersStep(b: Bus, e: Event, t: string)
    requires Inv(b)
    ensures t in Step(b, e).waiters <==> e == Request(t, true) || (t in b.waiters && !Ends(e, t))
  {
    hide Inv;
  }

  lemma NothingOutstanding(t: string)
    ensures t !in Run(START, []).waiters && !Outstanding([], t)
  {
  }

  /** After every run, the waiters are the ids outstanding. */
  lemma {:induction false} WaitersOutstanding(events: seq<Event>, t: string)
    ensures t in Run(START, events).waiters <==> Outstanding(events, t)
  {
    if events == [] {
      NothingOutstanding(t);
    } else {
      hide Inv, Step, Run, Outstanding;
      var n := |events| - 1;
      var e := events[n];
      WaitersOutstanding(events[..n], t);
      OutstandingStep(events[..n], e, t);
      assert events[..n] + [e] == events;
      RunSplit(START, events[..n], [e]);
      RunOne(Run(START, events[..n]), e);
      WaitersStep(Run(START, events[..n]), e, t);
    }
  }

  /** No two requests carry the same transaction id. */
  predicate UniqueIds(events: seq<Event>) {
    forall i, j | 0 <= i < j < |events| && events[i].Request? && events[j].Request? ::
      events[i].transactionId != events[j].transactionId
  }

  /** Sent, and neither answered nor cleared since. */
  ghost predicate AwaitingAnswer(events: seq<Event>, t: string) {
    exists i | 0 <= i < |events| :: events[i] == Request(t, true) && UnansweredSince(events, i, t)
  }

  ghost predicate UnansweredSince(events: seq<Event>, i: nat, t: string) {
    forall j | i < j < |events| :: !events[j].Clear? && !Answers(events[j], t)
  }

  predicate Answers(e: Event, t: string) {
    e.Deliver? && e.response.transactionId == t
  }

  lemma AwaitingStep(events: seq<Event>, e: Event, t: string)
    ensures AwaitingAnswer(events + [e], t)
            <==> e == Request(t, true) || (AwaitingAnswer(events, t) && !e.Clear? && !Answers(e, t))
  {
    var all := events + [e];
    if e == Request(t, true) {
      assert all[|events|] == e && UnansweredSince(all, |events|, t);
    } else if AwaitingAnswer(events, t) && !e.Clear? && !Answers(e, t) {
      var i :| 0 <= i < |events| && events[i] == Request(t, true) && UnansweredSince(events, i, t);
      assert all[i] == events[i] && UnansweredSince(all, i, t);
    }
    if AwaitingAnswer(all, t) && e != Request(t, true) {
      var i :| 0 <= i < |all| && all[i] == Request(t, true) && UnansweredSince(all, i, t);
      assert i < |events| && all[|events|] == e;
      assert forall j | i < j < |events| :: events[j] == all[j];
      assert events[i] == all[i] && UnansweredSince(events, i, t);
    }
  }

  /** What a caller can look up before a request that will not be sent: its id has no waiter. */
  ghost predicate Guarded(events: seq<Event>, t: string) {
    forall i | 0 <= i < |events| :: events[i] == Request(t, false) ==> t !in Run(START, events[..i]).waiters
  }

  ghost predicate ExactAt(events: seq<Event>, t: string) {
    t in Run(START, events).waiters <==> AwaitingAnswer(events, t)
  }

  lemma ExactStep(events: seq<Event>, e: Event, t: string)
    requires ExactAt(events, t)
    ensures ExactAt(events + [e], t) <==> (e == Request(t, false) ==> t !in Run(START, events).waiters)
  {
    hide Run;
    WaitersOutstanding(events, t);
    WaitersOutstanding(events + [e], t);
    OutstandingStep(events, e, t);
    AwaitingStep(events, e, t);
  }

  /** The exact condition, for every run: the waiters are at all times the requests sent and neither
      answered nor cleared, if and only if no unsendable request reuses the id of a waiter. */
  lemma {:induction false} WaitersExactIff(events: seq<Event>, t: string)
    ensures (forall n | 0 <= n <= |events| :: ExactAt(events[..n], t)) <==> Guarded(events, t)
  {
    hide ExactAt, Run;
    if events == [] {
      NothingAwaited(t);
      assert forall n | 0 <= n <= |events| :: events[..n] == [];
    } else {
      var m := |events| - 1;
      var before := events[..m];
      WaitersExactIff(before, t);
      assert events[..m + 1] == events == before + [events[m]];
      assert forall n | 0 <= n <= m :: before[..n] == events[..n];
      assert before[..m] == before;
      if ExactAt(before, t) {
        ExactStep(before, events[m], t);
      }
    }
  }

  lemma NothingAwaited(t: string)
    ensures ExactAt([], t)
  {
  }

  /** With unique ids, as the transaction ids of the client are meant to be, the condition holds. */
  lemma WaitersExactly(events: seq<Event>, t: string)
    requires UniqueIds(events)
    ensures Guarded(events, t) && ExactAt(events, t)
  {
    forall i | 0 <= i < |events| && events[i] == Request(t, false) ensures t !in Run(START, events[..i]).waiters {
      WaitersOutstanding(events[..i], t);
    }
    WaitersExactIff(events, t);
    assert events[..|events|] == events;
  }

  /** The condition can fail: a repeated id whose sending fails takes away the waiter of the first. */
  lemma RepeatedIdLosesTheFirst(t: string, r: Response)
    requires r.transactionId == t
    ensures var events := [Request(t, true), Request(t, false)];
            && AwaitingAnswer(events, t) && t !in Run(START, events).waiters
            && Run(START, events + [Deliver(r)]) == Run(START, events)
            && Run(START, events).channels == [Channel(t, Closed, true), Channel(t, Closed, false)]
  {
    var first, second := Request(t, true), Request(t, false);
    var events := [first, second];
    assert events[0] == first;
    assert !events[1].Clear? && !Answers(events[1], t);
    var one := Step(START, first);
    StepInv(START, first);
    StepInv(one, second);
    RunOne(START, first);
    RunOne(one, second);
    assert [first] + [second] == events;
    RunSplit(START, [first], [second]);
    RunSplit(START, events, [Deliver(r)]);
    RunOne(Step(one, second), Deliver(r));
  }

  lemma RunOne(b: Bus, e: Event)
    requires Inv(b)
    ensures Run(b, [e]) == Step(b, e)
  {
    assert [e][1..] == [];
    StepInv(b, e);
  }

  /** With unique ids, the response that first follows a request still waited for reaches it. */
  lemma AnswerArrives(before: seq<Event>, t: string, between: seq<Event>, r: Response)
    requires UniqueIds(before + [Request(t, true)] + between)
    requires r.transactionId == t
    requires forall i | 0 <= i < |between| ::
               !between[i].Clear? && !Answers(between[i], t) && between[i] != TimeOut(|Run(START, before).channels|)
    ensures var k := |Run(START, before).channels|;
            var end := Run(START, before + [Request(t, true)] + between + [Deliver(r)]);
            k < |end.channels| && end.channels[k] == Channel(t, Answered(r), true)
  {
    hide Fate, UniqueIds, Seen, Step, Run;
    RunInv(START, before);
    var b := Run(START, before);
    var k := |b.channels|;
    var asked := Request(t, true);
    var rest := between + [Deliver(r)];
    StepInv(b, asked);
    RunSplit(START, before, [asked]);
    RunOne(b, asked);
    RunSplit(START, before + [asked], rest);
    assert before + [asked] + between + [Deliver(r)] == before + [asked] + rest;
    SentOnce(before, t, between);
    EachToItsOwn(Step(b, asked), rest, k);
    Opened(b, t);
    Untouched(Channel(t, Open, true), k, between, r);
  }

  lemma SentOnce(before: seq<Event>, t: string, between: seq<Event>)
    requires UniqueIds(before + [Request(t, true)] + between)
    ensures forall i | 0 <= i < |between| :: between[i].Request? ==> between[i].transactionId != t
  {
    var all := before + [Request(t, true)] + between;
    forall i | 0 <= i < |between| ensures between[i].Request? ==> between[i].transactionId != t {
      assert all[|before|] == Request(t, true) && all[|before| + 1 + i] == between[i];
    }
  }

  lemma Opened(b: Bus, t: string)
    requires Inv(b)
    ensures var after := Step(b, Request(t, true)).channels;
            |after| == |b.channels| + 1 && after[|b.channels|] == Channel(t, Open, true)
  {
  }

  lemma {:induction false} Untouched(c: Channel, k: nat, between: seq<Event>, r: Response)
    requires c.state.Open? && c.awaited && r.transactionId == c.transactionId
    requires forall i | 0 <= i < |between| ::
               && !between[i].Clear? && !Answers(between[i], c.transactionId) && between[i] != TimeOut(k)
               && (between[i].Request? ==> between[i].transactionId != c.transactionId)
    ensures Fate(c, k, between + [Deliver(r)]) == c.(state := Answered(r))
  {
    if between == [] {
      assert between + [Deliver(r)] == [Deliver(r)] && [Deliver(r)][1..] == [];
    } else {
      assert (between + [Deliver(r)])[1..] == between[1..] + [Deliver(r)];
      Untouched(c, k, between[1..], r);
    }
  }
}
