/** The mailbox of a CPU (demo/mem.c): any number of senders and the one receiver, each step a memory access.
    compare_exchange_64 is one step; the plain read before it is two, one for each half. */
module Mailbox {

  const WORD32 := 0x1_0000_0000

  type Word = x: int | 0 <= x < WORD32
  type Word64 = x: int | 0 <= x < WORD32 * WORD32

  /** The arguments of remote_send. */
  datatype Message = Message(ptr: Word, write: int, val: Word)

  /** What remote_recv hands out. */
  datatype Delivery = Delivery(ptr: Word, write: int, val: Word)

  /** ptr and val as sent, the pointer aligned and the flag reduced to a bit. */
  function Normalized(m: Message): Delivery {
    Delivery(m.ptr - m.ptr % 4, m.write % 2, m.val)
  }

  /** send_word: pointer, flag and a valid bit in the high half, the value in the low half. */
  function Encode(m: Message): (w: Word64)
    ensures w != 0
  {
    (m.ptr - m.ptr % 4 + m.write % 2 * 2 + 1) * WORD32 + m.val
  }

  function Decode(w: Word64): Delivery {
    var high := w / WORD32;
    Delivery(high - high % 4, high / 2 % 2, w % WORD32)
  }

  lemma DecodeEncode(m: Message)
    ensures Decode(Encode(m)) == Normalized(m)
  {
    var high := m.ptr - m.ptr % 4 + m.write % 2 * 2 + 1;
    Halves(high, m.val);
    HighFields(m.ptr / 4, m.write % 2);
    assert m.ptr - m.ptr % 4 == 4 * (m.ptr / 4);
  }

  lemma Halves(high: nat, low: Word)
    ensures (high * WORD32 + low) / WORD32 == high && (high * WORD32 + low) % WORD32 == low
  {
  }

  /** The flag sits in bit 1, next to the valid bit. */
  lemma HighFields(a: nat, f: nat)
    requires f < 2
    ensures var high := 4 * a + f * 2 + 1; high - high % 4 == 4 * a && high / 2 % 2 == f
  {
    var high := 4 * a + f * 2 + 1;
    assert high / 2 == 2 * a + f;
  }

  /** Where a sender is: reading the low half, the high half, or looping on the exchange. */
  datatype Sender =
    | SendIdle
    | SendLow(m: Message)
    | SendHigh(m: Message, low: Word)
    | SendCas(m: Message, current: Word64)

  datatype Receiver =
    | RecvIdle
    | RecvLow
    | RecvHigh(low: Word)
    | RecvCas(current: Word64)

  datatype Fate = Delivered | Overwritten

  /** The shared word and the program points, then the history: the messages that remote_send was called with and
      the number of calls of remote_recv, the messages in the order in which their exchanges succeeded, what became
      of each that is no longer pending, and the deliveries. */
  datatype State = State(mailbox: Word64, senders: seq<Sender>, receiver: Receiver,
                         started: seq<Message>, receives: nat,
                         sent: seq<Message>, fates: seq<Fate>, deliveries: seq<Delivery>)

  /** bsp_main has cleared the mailbox. */
  predicate Init(s: State) {
    && s.mailbox == 0 && s.sent == [] && s.fates == [] && s.deliveries == []
    && s.started == [] && s.receives == 0 && s.receiver == RecvIdle
    && forall i :: 0 <= i < |s.senders| ==> s.senders[i] == SendIdle
  }

  /** Sender i calls remote_send. */
  function StartStep(s: State, i: nat, m: Message): State
    requires i < |s.senders|
  {
    s.(senders := s.senders[i := SendLow(m)], started := s.started + [m])
  }

  /** One step of sender i inside remote_send. */
  function SendStep(s: State, i: nat): State
    requires i < |s.senders|
  {
    match s.senders[i]
    case SendIdle => s
    case SendLow(m) =>
      s.(senders := s.senders[i := SendHigh(m, s.mailbox % WORD32)])
    case SendHigh(m, low) =>
      s.(senders := s.senders[i := SendCas(m, s.mailbox / WORD32 * WORD32 + low)])
    case SendCas(m, current) =>
      if s.mailbox == current then
        s.(mailbox := Encode(m), senders := s.senders[i := SendIdle], sent := s.sent + [m],
           fates := if s.mailbox == 0 then s.fates else s.fates + [Overwritten])
      else
        s.(senders := s.senders[i := SendCas(m, s.mailbox)])
  }

  /** One step inside remote_recv: an exchange that finds the mailbox empty succeeds, and loops. */
  function RecvStep(s: State): State {
    match s.receiver
    case RecvIdle => s.(receiver := RecvLow, receives := s.receives + 1)
    case RecvLow => s.(receiver := RecvHigh(s.mailbox % WORD32))
    case RecvHigh(low) => s.(receiver := RecvCas(s.mailbox / WORD32 * WORD32 + low))
    case RecvCas(current) =>
      if s.mailbox != current then
        s.(receiver := RecvCas(s.mailbox))
      else if current == 0 then
        s
      else
        s.(mailbox := 0, receiver := RecvIdle, fates := s.fates + [Delivered],
           deliveries := s.deliveries + [Decode(current)])
  }

  ghost predicate Next(s: State, s': State) {
    || s' == RecvStep(s)
    || (exists i: nat :: i < |s.senders| && s' == SendStep(s, i))
    || (exists i: nat, m: Message ::
          i < |s.senders| && s.senders[i] == SendIdle && s' == StartStep(s, i, m))
  }

  ghost predicate IsRun(run: seq<State>) {
    && run != [] && Init(run[0])
    && forall i :: 0 <= i < |run| - 1 ==> Next(run[i], run[i + 1])
  }

  /** The places in the sending order of the messages that were delivered. */
  function DeliveredAt(fates: seq<Fate>): (at: seq<nat>)
    ensures |at| <= |fates|
    ensures forall j :: 0 <= j < |at| ==> at[j] < |fates| && fates[at[j]] == Delivered
    ensures forall j, k :: 0 <= j < k < |at| ==> at[j] < at[k]
  {
    if fates == [] then []
    else
      var n := |fates| - 1;
      assert forall k :: 0 <= k < n ==> fates[..n][k] == fates[k];
      DeliveredAt(fates[..n]) + if fates[n] == Delivered then [n] else []
  }

  function Overwrites(fates: seq<Fate>): nat {
    if fates == [] then 0
    else Overwrites(fates[..|fates| - 1]) + if fates[|fates| - 1] == Overwritten then 1 else 0
  }

  lemma {:induction false} EveryFateCounts(fates: seq<Fate>)
    ensures |DeliveredAt(fates)| + Overwrites(fates) == |fates|
  {
    if fates != [] {
      EveryFateCounts(fates[..|fates| - 1]);
    }
  }

  /** A call with message m that has not returned. */
  function Sending(x: Sender, m: Message): nat {
    if x != SendIdle && x.m == m then 1 else 0
  }

  /** The number of calls with message m that have not returned. */
  function InFlight(senders: seq<Sender>, m: Message): nat {
    if senders == [] then 0 else InFlight(senders[..|senders| - 1], m) + Sending(senders[|senders| - 1], m)
  }

  lemma {:induction false} InFlightUpdate(senders: seq<Sender>, i: nat, x: Sender, m: Message)
    requires i < |senders|
    ensures InFlight(senders[i := x], m) + Sending(senders[i], m) == InFlight(senders, m) + Sending(x, m)
  {
    var n, t := |senders| - 1, senders[i := x];
    if i < n {
      InFlightUpdate(senders[..n], i, x, m);
      assert t[..n] == senders[..n][i := x];
    } else {
      assert t[..n] == senders[..n];
    }
  }

  lemma {:induction false} NothingInFlight(senders: seq<Sender>, m: Message)
    requires forall i :: 0 <= i < |senders| ==> senders[i] == SendIdle
    ensures InFlight(senders, m) == 0
  {
    if senders != [] {
      NothingInFlight(senders[..|senders| - 1], m);
    }
  }

  function Times(messages: seq<Message>, m: Message): nat { multiset(messages)[m] }

  lemma TimesAppend(messages: seq<Message>, x: Message, m: Message)
    ensures Times(messages + [x], m) == Times(messages, m) + if x == m then 1 else 0
  {
    assert multiset(messages + [x]) == multiset(messages) + multiset{x};
  }

  /** Every message handed to remote_send is sent, or its call still runs; every call of remote_recv that has
      returned delivered a message. */
  ghost predicate CallsOk(s: State) {
    && (forall m :: Times(s.started, m) == Times(s.sent, m) + InFlight(s.senders, m))
    && s.receives == |s.deliveries| + if s.receiver == RecvIdle then 0 else 1
  }

  lemma StartKeepsCalls(s: State, i: nat, x: Message)
    requires CallsOk(s) && i < |s.senders| && s.senders[i] == SendIdle
    ensures CallsOk(StartStep(s, i, x))
  {
    var s' := StartStep(s, i, x);
    forall m
      ensures Times(s'.started, m) == Times(s'.sent, m) + InFlight(s'.senders, m)
    {
      InFlightUpdate(s.senders, i, SendLow(x), m);
      TimesAppend(s.started, x, m);
    }
  }

  lemma SendKeepsCalls(s: State, i: nat)
    requires CallsOk(s) && i < |s.senders|
    ensures CallsOk(SendStep(s, i))
  {
    var s' := SendStep(s, i);
    forall m
      ensures Times(s'.started, m) == Times(s'.sent, m) + InFlight(s'.senders, m)
    {
      InFlightUpdate(s.senders, i, s'.senders[i], m);
      if s'.sent != s.sent {
        TimesAppend(s.sent, s.senders[i].m, m);
      }
      assert s'.senders == s.senders[i := s'.senders[i]];
    }
  }

  lemma RecvKeepsCalls(s: State)
    requires CallsOk(s)
    ensures CallsOk(RecvStep(s))
  {
  }

  ghost predicate Inv(s: State) {
    && |s.fates| + (if s.mailbox == 0 then 0 else 1) == |s.sent|
    && (s.mailbox != 0 ==> s.mailbox == Encode(s.sent[|s.sent| - 1]))
    && |s.deliveries| == |DeliveredAt(s.fates)|
    && forall j :: 0 <= j < |s.deliveries| ==> s.deliveries[j] == Normalized(s.sent[DeliveredAt(s.fates)[j]])
  }

  lemma SendKeepsInv(s: State, i: nat)
    requires Inv(s) && i < |s.senders|
    ensures Inv(SendStep(s, i))
  {
    var s' := SendStep(s, i);
    if s'.fates != s.fates {
      assert s'.fates[..|s.fates|] == s.fates;
    }
  }

  lemma RecvKeepsInv(s: State)
    requires Inv(s)
    ensures Inv(RecvStep(s))
  {
    var s' := RecvStep(s);
    if s'.fates != s.fates {
      assert s'.fates[..|s.fates|] == s.fates;
      DecodeEncode(s.sent[|s.sent| - 1]);
    }
  }

  lemma {:induction false} RunKeepsInv(run: seq<State>, i: nat)
    requires IsRun(run) && i < |run|
    ensures Inv(run[i]) && CallsOk(run[i])
  {
    if i == 0 {
      forall m ensures InFlight(run[0].senders, m) == 0 {
        NothingInFlight(run[0].senders, m);
      }
    } else {
      RunKeepsInv(run, i - 1);
      var s, s' := run[i - 1], run[i];
      assert Next(run[i - 1], run[i - 1 + 1]);
      if s' == RecvStep(s) {
        RecvKeepsInv(s);
        RecvKeepsCalls(s);
      } else if j: nat :| j < |s.senders| && s' == SendStep(s, j) {
        SendKeepsInv(s, j);
        SendKeepsCalls(s, j);
      } else {
        var j: nat, m: Message :| j < |s.senders| && s.senders[j] == SendIdle && s' == StartStep(s, j, m);
        StartKeepsCalls(s, j, m);
      }
    }
  }

  /** In every run no call loses its message: those handed to remote_send are the ones sent and those of the calls
      still running. And remote_recv returns only with a delivery. */
  lemma EveryCallCounts(run: seq<State>, i: nat, m: Message)
    requires IsRun(run) && i < |run|
    ensures multiset(run[i].started)[m] == multiset(run[i].sent)[m] + InFlight(run[i].senders, m)
    ensures run[i].receives == |run[i].deliveries| + if run[i].receiver == RecvIdle then 0 else 1
  {
    RunKeepsInv(run, i);
    assert Times(run[i].started, m) == Times(run[i].sent, m) + InFlight(run[i].senders, m);
  }

  /** A call of remote_send returns with its own message sent last and pending in the mailbox. */
  lemma ReturnMeansSent(run: seq<State>, i: nat, c: nat)
    requires IsRun(run) && i + 1 < |run| && c < |run[i].senders| && c < |run[i + 1].senders|
    requires run[i].senders[c] != SendIdle && run[i + 1].senders[c] == SendIdle
    ensures run[i + 1].sent == run[i].sent + [run[i].senders[c].m]
    ensures run[i + 1].mailbox != 0 && Decode(run[i + 1].mailbox) == Normalized(run[i].senders[c].m)
  {
    assert Next(run[i], run[i + 1]);
    var s, s', m := run[i], run[i + 1], run[i].senders[c].m;
    var j: nat :| j < |s.senders| && s' == SendStep(s, j);
    assert j == c;
    DecodeEncode(m);
  }

  /** A call of remote_send that runs alone returns within four of its steps. */
  lemma SendAloneReturns(s: State, i: nat)
    requires i < |s.senders|
    ensures SendStep(SendStep(SendStep(SendStep(s, i), i), i), i).senders[i] == SendIdle
  {
    if s.senders[i].SendLow? {
      CasAfterReads(s, i);
    }
  }

  lemma CasAfterReads(s: State, i: nat)
    requires i < |s.senders| && s.senders[i].SendLow?
    ensures var t := SendStep(SendStep(s, i), i); t.senders[i].SendCas? && t.mailbox == t.senders[i].current
  {
  }

  /** In every run: sends = deliveries + overwritten messages + pending (0 or 1), whatever the torn reads
      before the exchanges returned. */
  lemma Conservation(run: seq<State>, i: nat)
    requires IsRun(run) && i < |run|
    ensures |run[i].sent|
            == |run[i].deliveries| + Overwrites(run[i].fates) + if run[i].mailbox == 0 then 0 else 1
  {
    RunKeepsInv(run, i);
    EveryFateCounts(run[i].fates);
  }

  /** In every run the deliveries are, in order and each once, messages sent earlier: delivery j decodes to
      the aligned pointer, the flag and the value of the message in place at[j] of the sending order. */
  lemma DeliveriesInOrder(run: seq<State>, i: nat) returns (at: seq<nat>)
    requires IsRun(run) && i < |run|
    ensures |at| == |run[i].deliveries|
    ensures forall j, k :: 0 <= j < k < |at| ==> at[j] < at[k]
    ensures forall j :: 0 <= j < |at| ==>
              at[j] < |run[i].sent| && run[i].deliveries[j] == Normalized(run[i].sent[at[j]])
  {
    RunKeepsInv(run, i);
    at := DeliveredAt(run[i].fates);
  }

  /** What is pending is the last message sent, so a delivery is never of a message that a later one
      overwrote. */
  lemma PendingIsLast(run: seq<State>, i: nat)
    requires IsRun(run) && i < |run| && run[i].mailbox != 0
    ensures run[i].sent != [] && Decode(run[i].mailbox) == Normalized(run[i].sent[|run[i].sent| - 1])
  {
    RunKeepsInv(run, i);
    DecodeEncode(run[i].sent[|run[i].sent| - 1]);
  }

  /** A receiver at its exchange, running alone, delivers the pending message in at most two steps. */
  lemma PendingIsDelivered(run: seq<State>, i: nat)
    requires IsRun(run) && i < |run| && run[i].mailbox != 0 && run[i].receiver.RecvCas?
    ensures var s1 := RecvStep(run[i]);
            var s := if s1.receiver == RecvIdle then s1 else RecvStep(s1);
            && s.mailbox == 0 && s.receiver == RecvIdle
            && s.deliveries == run[i].deliveries + [Decode(run[i].mailbox)]
  {
    PendingIsLast(run, i);
  }
}
