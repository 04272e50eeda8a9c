/** The coherence ring (tb/models/ring.py): bit-packed requests, and one queue per segment, in which forwarded
    requests go before the segment's own. */
module RingSegments {
  import opened Powers

  type Byte = x: int | 0 <= x < 256

  /** The fields of a request; all but ttl have a fixed width. */
  datatype Request = Request(ttl: nat, read: nat, inval: nat, reply: nat, tag: nat, index: nat, data: nat)

  const TAG := 0x2000
  const INDEX := 0x1000
  const DATA := 0x1_0000_0000_0000_0000_0000_0000_0000_0000
  const LINE_BYTES := 20

  /** _shift_in and _shift_out, of a field with m = 2^n values. */
  function ShiftIn(val: nat, m: nat, req: nat): nat
    requires m > 0
  {
    req * m + val % m
  }

  function ShiftOut(val: nat, m: nat): (nat, nat)
    requires m > 0
  {
    var lhs: int := val / m;
    (if lhs < 0 then 0 else lhs, val % m)
  }

  lemma ShiftRoundTrip(val: nat, m: nat, req: nat)
    requires val < m
    ensures ShiftOut(ShiftIn(val, m, req), m) == (req, val)
  {
    var x := req * m + val;
    SmallMod(val, m);
    assert (req + 1) * m == req * m + m;
    DivUnique(x, m, req);
    assert x == x / m * m + x % m;
  }

  lemma SmallMod(val: nat, m: nat)
    requires val < m
    ensures val % m == val
  {
  }

  predicate FieldsFit(r: Request) {
    r.read < 2 && r.inval < 2 && r.reply < 2 && r.tag < TAG && r.index < INDEX && r.data < DATA
  }

  /** _out, up to the conversion to bytes. */
  function Pack(r: Request): nat {
    var req := ShiftIn(r.read, 2, r.ttl);
    var req := ShiftIn(r.inval, 2, req);
    var req := ShiftIn(r.reply, 2, req);
    var req := ShiftIn(r.tag, TAG, req);
    var req := ShiftIn(r.index, INDEX, req);
    ShiftIn(r.data, DATA, req)
  }

  /** Wide tags and indices are cut to their fields. */
  lemma PackCuts(r: Request)
    ensures Pack(r) == Pack(r.(tag := r.tag % TAG, index := r.index % INDEX))
  {
    var req := ShiftIn(r.reply, 2, ShiftIn(r.inval, 2, ShiftIn(r.read, 2, r.ttl)));
    CutTwice(r.tag, TAG, req);
    CutTwice(r.index, INDEX, ShiftIn(r.tag, TAG, req));
  }

  lemma CutTwice(val: nat, m: nat, req: nat)
    requires m > 0
    ensures ShiftIn(val % m, m, req) == ShiftIn(val, m, req)
  {
    SmallMod(val % m, m);
  }

  /** The decoding in recv. */
  function Unpack(req: nat): Request {
    var (req, data) := ShiftOut(req, DATA);
    var (req, index) := ShiftOut(req, INDEX);
    var (req, tag) := ShiftOut(req, TAG);
    var (req, reply) := ShiftOut(req, 2);
    var (req, inval) := ShiftOut(req, 2);
    var (ttl, read) := ShiftOut(req, 2);
    Request(ttl, read, inval, reply, tag, index, data)
  }

  lemma UnpackPack(r: Request)
    requires FieldsFit(r)
    ensures Unpack(Pack(r)) == r
  {
    var r1 := ShiftIn(r.read, 2, r.ttl);
    var r2 := ShiftIn(r.inval, 2, r1);
    var r3 := ShiftIn(r.reply, 2, r2);
    var r4 := ShiftIn(r.tag, TAG, r3);
    var r5 := ShiftIn(r.index, INDEX, r4);
    ShiftRoundTrip(r.read, 2, r.ttl);
    ShiftRoundTrip(r.inval, 2, r1);
    ShiftRoundTrip(r.reply, 2, r2);
    ShiftRoundTrip(r.tag, TAG, r3);
    ShiftRoundTrip(r.index, INDEX, r4);
    ShiftRoundTrip(r.data, DATA, r5);
  }

  /** int.to_bytes(n, 'big') and int.from_bytes(b, 'big'). */
  function ToBytes(v: nat, n: nat): (b: seq<Byte>)
    ensures |b| == n
  {
    if n == 0 then [] else ToBytes(v / 256, n - 1) + [v % 256]
  }

  function FromBytes(b: seq<Byte>): nat {
    if b == [] then 0 else FromBytes(b[..|b| - 1]) * 256 + b[|b| - 1]
  }

  function Pow256(n: nat): nat {
    if n == 0 then 1 else 256 * Pow256(n - 1)
  }

  lemma {:induction false} BytesRoundTrip(v: nat, n: nat)
    requires v < Pow256(n)
    ensures FromBytes(ToBytes(v, n)) == v
  {
    if n > 0 {
      BytesRoundTrip(v / 256, n - 1);
      assert ToBytes(v, n)[..n - 1] == ToBytes(v / 256, n - 1);
    }
  }

  /** A request with a four-bit ttl fits its 20 bytes. */
  lemma PackFits(r: Request)
    requires FieldsFit(r) && r.ttl < 16
    ensures Pack(r) < 0x10 * 2 * 2 * 2 * TAG * INDEX * DATA
  {
  }

  lemma LineSize()
    ensures Pow256(LINE_BYTES) == 0x10 * 2 * 2 * 2 * TAG * INDEX * DATA
  {
    assert Pow256(4) == 0x1_0000_0000;
    assert Pow256(8) == 0x1_0000_0000_0000_0000;
    assert Pow256(12) == 0x1_0000_0000_0000_0000_0000_0000;
    assert Pow256(16) == 0x1_0000_0000_0000_0000_0000_0000_0000_0000;
  }

  type Line = b: seq<Byte> | |b| == LINE_BYTES witness seq(LINE_BYTES, i => 0)

  function Encode(r: Request): Line { ToBytes(Pack(r), LINE_BYTES) }
  function Decode(b: Line): Request { Unpack(FromBytes(b)) }

  /** No field is lost between segments. */
  lemma DecodeEncode(r: Request)
    requires FieldsFit(r) && r.ttl < 16
    ensures Decode(Encode(r)) == r
  {
    PackFits(r);
    LineSize();
    BytesRoundTrip(Pack(r), LINE_BYTES);
    UnpackPack(r);
  }

  /** Where the fields are in the big-endian number on the wire: 128 bits of data at the bottom, 12 of index, 13 of tag,
      then the reply, inval and read bits, and the ttl above. */
  lemma WireLayout(r: Request)
    requires FieldsFit(r) && r.ttl < 16
    ensures FromBytes(Encode(r))
            == r.data + 0x1_0000_0000_0000_0000_0000_0000_0000_0000
               * (r.index + 0x1000 * (r.tag + 0x2000 * (r.reply + 2 * (r.inval + 2 * (r.read + 2 * r.ttl)))))
  {
    PackFits(r);
    LineSize();
    BytesRoundTrip(Pack(r), LINE_BYTES);
    PackLayout(r);
  }

  lemma PackLayout(r: Request)
    requires FieldsFit(r)
    ensures Pack(r) == r.data + 0x1_0000_0000_0000_0000_0000_0000_0000_0000
                       * (r.index + 0x1000 * (r.tag + 0x2000 * (r.reply + 2 * (r.inval + 2 * (r.read + 2 * r.ttl)))))
  {
    var r1 := ShiftIn(r.read, 2, r.ttl);
    var r2 := ShiftIn(r.inval, 2, r1);
    var r3 := ShiftIn(r.reply, 2, r2);
    SmallMod(r.read, 2);
    SmallMod(r.inval, 2);
    SmallMod(r.reply, 2);
    SmallMod(r.tag, 0x2000);
    SmallMod(r.index, 0x1000);
    SmallMod(r.data, 0x1_0000_0000_0000_0000_0000_0000_0000_0000);
    assert ShiftIn(r.tag, 0x2000, r3) == r.tag + 0x2000 * r3;
  }

  /** What recv does to the queue. */
  function Received(queue: seq<Line>, line: Line): seq<Line> {
    var r := Decode(line);
    if r.ttl > 0 then [Encode(r.(ttl := r.ttl - 1))] + queue else queue
  }

  lemma ReceivedEncoded(queue: seq<Line>, r: Request, line: Line)
    requires FieldsFit(r) && r.ttl < 16 && line == Encode(r)
    ensures Received(queue, line) == if r.ttl > 0 then [Encode(r.(ttl := r.ttl - 1))] + queue else queue
  {
    DecodeEncode(r);
  }

  /** The request that send makes: the type chooses the flags, wide arguments are cut, the data is dropped. */
  function Fresh(ty: string, tag: nat, index: nat): Request {
    Request(3, if ty == "read" || ty == "read-inval" then 1 else 0,
            if ty == "inval" || ty == "read-inval" then 1 else 0, 0, tag % TAG, index % INDEX, 0)
  }

  /** The types by their names, and the cuts by their widths. */
  lemma FreshTypes(tag: nat, index: nat)
    ensures Fresh("read", tag, index) == Request(3, 1, 0, 0, tag % 0x2000, index % 0x1000, 0)
    ensures Fresh("inval", tag, index) == Request(3, 0, 1, 0, tag % 0x2000, index % 0x1000, 0)
    ensures Fresh("read-inval", tag, index) == Request(3, 1, 1, 0, tag % 0x2000, index % 0x1000, 0)
    ensures forall ty :: ty !in {"read", "inval", "read-inval"} ==>
              Fresh(ty, tag, index) == Request(3, 0, 0, 0, tag % 0x2000, index % 0x1000, 0)
  {
  }

  class RingSegment {
    var queue: seq<Line>

    constructor ()
      ensures queue == []
    {
      queue := [];
    }

    /** Requests from the ring take priority over the segment's own. */
    method Recv(line: Line)
      modifies this
      ensures queue == Received(old(queue), line)
    {
      var req := FromBytes(line);
      var r := Unpack(req);
      if r.ttl > 0 {
        queue := [ToBytes(Pack(r.(ttl := r.ttl - 1)), LINE_BYTES)] + queue;
      }
    }

    method Send(ty: string, tag: nat, index: nat, data: nat)
      modifies this
      ensures queue == old(queue) + [Encode(Fresh(ty, tag, index))]
    {
      var read, inval := 0, 0;
      if ty == "read" {
        read := 1;
      } else if ty == "inval" {
        inval := 1;
      } else if ty == "read-inval" {
        read, inval := 1, 1;
      }
      var req := Pack(Request(3, read, inval, 0, tag, index, 0));
      PackCuts(Request(3, read, inval, 0, tag, index, 0));
      queue := queue + [ToBytes(req, LINE_BYTES)];
    }
  }
}

/** Four segments in a ring (tb/top/test_ring.py). The testbench checks that what a segment puts on the wire is
    the head of its model's queue, and hands it to the model of the next segment: one step of the system. Queues
    hold requests here; SegmentsFollow ties every step to what the segments do with lines. */
module RingSystem {
  import opened RingSegments

  const NODES := 4

  /** A queued request, with the number of the message it carries. */
  datatype Entry = Entry(request: Request, id: nat)

  datatype Receipt = Receipt(node: nat, request: Request)

  datatype Message = Message(origin: nat, request: Request)

  /** The queues, and the history: the messages in sending order, and for each the receipts so far. */
  datatype State = State(queues: seq<seq<Entry>>, sent: seq<Message>, receipts: seq<seq<Receipt>>)

  predicate Sized(s: State) {
    |s.queues| == NODES && |s.receipts| == |s.sent|
  }

  predicate Init(s: State) {
    s == State([[], [], [], []], [], [])
  }

  function Succ(node: nat): nat { (node + 1) % NODES }

  /** A core sends: its request goes to the end of the queue. */
  function SendStep(s: State, node: nat, ty: string, tag: nat, index: nat): State
    requires Sized(s) && node < NODES
  {
    var r := Fresh(ty, tag, index);
    State(s.queues[node := s.queues[node] + [Entry(r, |s.sent|)]], s.sent + [Message(node, r)], s.receipts + [[]])
  }

  /** What recv does, the message number carried along. */
  function Forward(queue: seq<Entry>, e: Entry): seq<Entry> {
    if e.request.ttl > 0 then [Entry(e.request.(ttl := e.request.ttl - 1), e.id)] + queue else queue
  }

  predicate CanEmit(s: State, node: nat) {
    Sized(s) && node < NODES && s.queues[node] != [] && s.queues[node][0].id < |s.sent|
  }

  /** A segment emits the head of its queue, and the next one receives it. */
  function EmitStep(s: State, node: nat): State
    requires CanEmit(s, node)
  {
    var e := s.queues[node][0];
    var next := Succ(node);
    var popped := s.queues[node := s.queues[node][1..]];
    State(popped[next := Forward(popped[next], e)], s.sent,
          s.receipts[e.id := s.receipts[e.id] + [Receipt(next, e.request)]])
  }

  ghost predicate Next(s: State, s': State) {
    || (exists node: nat :: CanEmit(s, node) && s' == EmitStep(s, node))
    || (exists node: nat, ty: string, tag: nat, index: nat ::
          Sized(s) && node < NODES && s' == SendStep(s, node, ty, tag, index))
  }

  ghost predicate IsRun(run: seq<State>) {
    && run != [] && Init(run[0])
    && forall i :: 0 <= i < |run| - 1 ==> Next(run[i], run[i + 1])
  }

  /** A message after n hops. */
  function After(m: Message, n: int): Request
    requires n <= 3
  {
    m.request.(ttl := 3 - n)
  }

  /** The node n hops away from the origin. */
  function Hop(m: Message, n: nat): nat { (m.origin + n) % NODES }

  /** The first n receipts of a message: the nodes after its origin in ring order, the fields as sent, the
      ttl counting down. */
  predicate InRingOrder(m: Message, receipts: seq<Receipt>) {
    && |receipts| <= NODES
    && forall j :: 0 <= j < |receipts| ==> receipts[j] == Receipt(Hop(m, j + 1), After(m, j))
  }

  predicate MessageOk(m: Message) {
    m.origin < NODES && FieldsFit(m.request) && m.request.ttl == 3
  }

  /** A queued request is its message after as many hops as it has receipts, at the node that many hops away. */
  predicate Placed(m: Message, hops: nat, node: nat, request: Request) {
    hops < NODES && node == Hop(m, hops) && request == After(m, hops)
  }

  predicate Distinct(queue: seq<Entry>) {
    forall i, j :: 0 <= i < j < |queue| ==> queue[i].id != queue[j].id
  }

  predicate HasId(queue: seq<Entry>, id: nat) {
    exists i :: 0 <= i < |queue| && queue[i].id == id
  }

  lemma HasIdAppend(queue: seq<Entry>, e: Entry, id: nat)
    ensures HasId(queue + [e], id) <==> HasId(queue, id) || e.id == id
    ensures Distinct(queue + [e]) <==> Distinct(queue) && !HasId(queue, e.id)
  {
    var q := queue + [e];
    assert forall i :: 0 <= i < |queue| ==> q[i] == queue[i];
    assert q[|queue|] == e;
    if HasId(queue, id) {
      var i :| 0 <= i < |queue| && queue[i].id == id;
      assert q[i].id == id;
    }
    if HasId(queue, e.id) {
      var i :| 0 <= i < |queue| && queue[i].id == e.id;
      assert q[i].id == q[|queue|].id;
    }
  }

  lemma HasIdPrepend(e: Entry, queue: seq<Entry>, id: nat)
    ensures HasId([e] + queue, id) <==> HasId(queue, id) || e.id == id
    ensures Distinct([e] + queue) <==> Distinct(queue) && !HasId(queue, e.id)
  {
    var q := [e] + queue;
    assert q[0] == e;
    assert forall i :: 0 < i < |q| ==> q[i] == queue[i - 1];
    assert forall i :: 0 <= i < |queue| ==> q[i + 1] == queue[i];
    if HasId(queue, id) {
      var i :| 0 <= i < |queue| && queue[i].id == id;
      assert q[i + 1].id == id;
    }
    if HasId(queue, e.id) {
      var i :| 0 <= i < |queue| && queue[i].id == e.id;
      assert q[0].id == q[i + 1].id;
    }
  }

  predicate QueueOk(sent: seq<Message>, receipts: seq<seq<Receipt>>, queue: seq<Entry>, node: nat)
    requires |sent| == |receipts|
  {
    && (forall i :: 0 <= i < |queue| ==>
          && queue[i].id < |sent|
          && Placed(sent[queue[i].id], |receipts[queue[i].id]|, node, queue[i].request))
    && Distinct(queue)
  }

  /** A message that has not come back is queued where its hops have taken it. */
  predicate Queued(queues: seq<seq<Entry>>, m: Message, hops: nat, id: nat)
    requires |queues| == NODES
  {
    hops < NODES ==> HasId(queues[Hop(m, hops)], id)
  }

  ghost predicate Inv(s: State) {
    && Sized(s)
    && (forall id :: 0 <= id < |s.sent| ==>
          MessageOk(s.sent[id]) && InRingOrder(s.sent[id], s.receipts[id])
          && Queued(s.queues, s.sent[id], |s.receipts[id]|, id))
    && (forall node :: 0 <= node < NODES ==> QueueOk(s.sent, s.receipts, s.queues[node], node))
  }

  lemma SendKeepsInv(s: State, node: nat, ty: string, tag: nat, index: nat)
    requires Inv(s) && node < NODES
    ensures Inv(SendStep(s, node, ty, tag, index))
  {
    var r := Fresh(ty, tag, index);
    assert FieldsFit(r) && r.ttl == 3;
    var m := Message(node, r);
    assert Placed(m, 0, node, r);
    SendKeepsAll(s, SendStep(s, node, ty, tag, index), m, Entry(r, |s.sent|));
  }

  lemma SendKeepsAll(s: State, s': State, m: Message, e: Entry)
    requires Inv(s) && Sized(s') && MessageOk(m) && e.id == |s.sent| && Placed(m, 0, m.origin, e.request)
    requires s'.sent == s.sent + [m] && s'.receipts == s.receipts + [[]]
    requires s'.queues == s.queues[m.origin := s.queues[m.origin] + [e]]
    ensures Inv(s')
  {
    forall node | 0 <= node < NODES
      ensures QueueOk(s'.sent, s'.receipts, s'.queues[node], node)
    {
      assert QueueOk(s.sent, s.receipts, s.queues[node], node);
      HasIdAppend(s.queues[node], e, 0);
    }
    forall id | 0 <= id < |s'.sent|
      ensures MessageOk(s'.sent[id]) && InRingOrder(s'.sent[id], s'.receipts[id])
              && Queued(s'.queues, s'.sent[id], |s'.receipts[id]|, id)
    {
      HasIdAppend(s.queues[m.origin], e, id);
      if id < |s.sent| {
        assert MessageOk(s.sent[id]) && Queued(s.queues, s.sent[id], |s.receipts[id]|, id);
      }
    }
  }

  /** The message at the head of a queue, and where it goes. */
  lemma EmittedMessage(s: State, node: nat)
    requires Inv(s) && CanEmit(s, node)
    ensures var e := s.queues[node][0];
            var (m, n) := (s.sent[e.id], |s.receipts[e.id]|);
            && Placed(m, n, node, e.request) && MessageOk(m)
            && Succ(node) == Hop(m, n + 1)
            && InRingOrder(m, s.receipts[e.id] + [Receipt(Succ(node), e.request)])
  {
    var e := s.queues[node][0];
    assert QueueOk(s.sent, s.receipts, s.queues[node], node);
    assert MessageOk(s.sent[e.id]) && InRingOrder(s.sent[e.id], s.receipts[e.id]);
  }

  /** No queue but the emitter's has the message. */
  lemma OnlyThere(s: State, node: nat, m: nat)
    requires Inv(s) && CanEmit(s, node) && m < NODES
    ensures m != node ==> !HasId(s.queues[m], s.queues[node][0].id)
    ensures !HasId(s.queues[node][1..], s.queues[node][0].id) && Distinct(s.queues[node][1..])
  {
    var e := s.queues[node][0];
    assert QueueOk(s.sent, s.receipts, s.queues[node], node) && QueueOk(s.sent, s.receipts, s.queues[m], m);
    assert s.queues[node] == [e] + s.queues[node][1..];
    HasIdPrepend(e, s.queues[node][1..], e.id);
  }

  /** A queue without the emitted message stays right when that message gains a receipt. */
  lemma OtherEntriesStay(sent: seq<Message>, receipts: seq<seq<Receipt>>, receipts': seq<seq<Receipt>>,
                         queue: seq<Entry>, rest: seq<Entry>, node: nat, id: nat, k: nat)
    requires |sent| == |receipts| == |receipts'| && id < |sent|
    requires forall x :: 0 <= x < |sent| && x != id ==> receipts'[x] == receipts[x]
    requires QueueOk(sent, receipts, queue, node) && k <= |queue| && rest == queue[k..] && !HasId(rest, id)
    ensures QueueOk(sent, receipts', rest, node)
  {
    forall i | 0 <= i < |rest|
      ensures rest[i].id < |sent|
      ensures Placed(sent[rest[i].id], |receipts'[rest[i].id]|, node, rest[i].request)
    {
      assert rest[i] == queue[k + i];
      assert rest[i].id != id;
    }
    forall i, j | 0 <= i < j < |rest|
      ensures rest[i].id != rest[j].id
    {
      assert rest[i] == queue[k + i] && rest[j] == queue[k + j];
    }
  }

  /** The forwarded request keeps the receiving queue right. */
  lemma ForwardKeepsQueue(sent: seq<Message>, receipts: seq<seq<Receipt>>, queue: seq<Entry>, node: nat, e: Entry)
    requires |sent| == |receipts| && e.id < |sent| && QueueOk(sent, receipts, queue, node) && !HasId(queue, e.id)
    requires |receipts[e.id]| > 0 && Hop(sent[e.id], |receipts[e.id]|) == node
    requires |receipts[e.id]| <= NODES && e.request == After(sent[e.id], |receipts[e.id]| - 1)
    ensures QueueOk(sent, receipts, Forward(queue, e), node)
    ensures HasId(Forward(queue, e), e.id) <==> |receipts[e.id]| < NODES
  {
    if e.request.ttl > 0 {
      var x := Entry(e.request.(ttl := e.request.ttl - 1), e.id);
      HasIdPrepend(x, queue, e.id);
      assert Placed(sent[e.id], |receipts[e.id]|, node, x.request);
    }
  }

  lemma EmitKeepsQueue(s: State, node: nat, m: nat)
    requires Inv(s) && CanEmit(s, node) && m < NODES
    ensures QueueOk(EmitStep(s, node).sent, EmitStep(s, node).receipts, EmitStep(s, node).queues[m], m)
    ensures m == Succ(node) ==>
              (HasId(EmitStep(s, node).queues[m], s.queues[node][0].id)
               <==> |s.receipts[s.queues[node][0].id]| + 1 < NODES)
  {
    EmittedMessage(s, node);
    OnlyThere(s, node, m);
    var e, next, s' := s.queues[node][0], Succ(node), EmitStep(s, node);
    assert QueueOk(s.sent, s.receipts, s.queues[m], m);
    if m == node {
      OtherEntriesStay(s.sent, s.receipts, s'.receipts, s.queues[m], s.queues[m][1..], m, e.id, 1);
    } else {
      OtherEntriesStay(s.sent, s.receipts, s'.receipts, s.queues[m], s.queues[m], m, e.id, 0);
    }
    if m == next {
      ForwardKeepsQueue(s.sent, s'.receipts, s.queues[m], m, e);
    }
  }

  lemma ForwardKeepsId(queue: seq<Entry>, e: Entry, id: nat)
    requires HasId(queue, id)
    ensures HasId(Forward(queue, e), id)
  {
    if e.request.ttl > 0 {
      HasIdPrepend(Entry(e.request.(ttl := e.request.ttl - 1), e.id), queue, id);
    }
  }

  lemma EmitKeepsQueued(s: State, node: nat, id: nat)
    requires Inv(s) && CanEmit(s, node) && id < |s.sent|
    ensures Queued(EmitStep(s, node).queues, s.sent[id], |EmitStep(s, node).receipts[id]|, id)
  {
    EmittedMessage(s, node);
    var e, next, s' := s.queues[node][0], Succ(node), EmitStep(s, node);
    if id == e.id {
      EmitKeepsQueue(s, node, next);
    } else if |s.receipts[id]| < NODES {
      assert Queued(s.queues, s.sent[id], |s.receipts[id]|, id);
      var at := Hop(s.sent[id], |s.receipts[id]|);
      if at == node {
        assert s.queues[node] == [e] + s.queues[node][1..];
        HasIdPrepend(e, s.queues[node][1..], id);
      } else if at == next {
        ForwardKeepsId(s.queues[at], e, id);
      }
    }
  }

  lemma EmitKeepsInv(s: State, node: nat)
    requires Inv(s) && CanEmit(s, node)
    ensures Inv(EmitStep(s, node))
  {
    var s' := EmitStep(s, node);
    EmittedMessage(s, node);
    forall m | 0 <= m < NODES
      ensures QueueOk(s'.sent, s'.receipts, s'.queues[m], m)
    {
      EmitKeepsQueue(s, node, m);
    }
    forall id | 0 <= id < |s'.sent|
      ensures MessageOk(s'.sent[id]) && InRingOrder(s'.sent[id], s'.receipts[id])
              && Queued(s'.queues, s'.sent[id], |s'.receipts[id]|, id)
    {
      EmitKeepsQueued(s, node, id);
      assert MessageOk(s.sent[id]) && InRingOrder(s.sent[id], s.receipts[id]);
    }
  }

  lemma {:induction false} RunKeepsInv(run: seq<State>, i: nat)
    requires IsRun(run) && i < |run|
    ensures Inv(run[i])
  {
    if i > 0 {
      RunKeepsInv(run, i - 1);
      var s, s' := run[i - 1], run[i];
      assert Next(run[i - 1], run[i - 1 + 1]);
      if node: nat :| CanEmit(s, node) && s' == EmitStep(s, node) {
        EmitKeepsInv(s, node);
      } else {
        var node: nat, ty: string, tag: nat, index: nat :|
          node < NODES && s' == SendStep(s, node, ty, tag, index);
        SendKeepsInv(s, node, ty, tag, index);
      }
    }
  }

  /** The lines of a queue. */
  function Lines(queue: seq<Entry>, encode: Request -> Line): seq<Line> {
    seq<Line>(|queue|, i requires 0 <= i < |queue| => encode(queue[i].request))
  }

  /** What is true of any encoding of requests is true of Encode. */
  lemma LinesSteps(queue: seq<Entry>, e: Entry, encode: Request -> Line)
    ensures Lines(queue + [e], encode) == Lines(queue, encode) + [encode(e.request)]
    ensures Lines([e] + queue, encode) == [encode(e.request)] + Lines(queue, encode)
    ensures queue != [] ==> Lines(queue, encode)[0] == encode(queue[0].request)
    ensures queue != [] ==> Lines(queue[1..], encode) == Lines(queue, encode)[1..]
  {
  }

  /** In every run the segments, working on lines, follow these steps: a send appends the line that
      RingSegment.Send does; an emission takes the line at the head of one queue, and changes the next one as
      RingSegment.Recv does. */
  lemma SegmentsFollow(run: seq<State>, i: nat, node: nat, ty: string, tag: nat, index: nat)
    requires IsRun(run) && i < |run| && node < NODES
    ensures var s := run[i];
            && Sized(s)
            && Lines(SendStep(s, node, ty, tag, index).queues[node], Encode)
               == Lines(s.queues[node], Encode) + [Encode(Fresh(ty, tag, index))]
    ensures var s := run[i];
            s.queues[node] != [] ==>
              && CanEmit(s, node)
              && Lines(EmitStep(s, node).queues[node], Encode) == Lines(s.queues[node], Encode)[1..]
              && Lines(EmitStep(s, node).queues[Succ(node)], Encode)
                 == Received(Lines(s.queues[Succ(node)], Encode), Lines(s.queues[node], Encode)[0])
  {
    RunKeepsInv(run, i);
    var s := run[i];
    LinesSteps(s.queues[node], Entry(Fresh(ty, tag, index), |s.sent|), Encode);
    if s.queues[node] != [] {
      EmitLines(s, node);
    }
  }

  lemma EmitLines(s: State, node: nat)
    requires Inv(s) && node < NODES && s.queues[node] != []
    ensures CanEmit(s, node)
    ensures Lines(EmitStep(s, node).queues[node], Encode) == Lines(s.queues[node], Encode)[1..]
    ensures Lines(EmitStep(s, node).queues[Succ(node)], Encode)
            == Received(Lines(s.queues[Succ(node)], Encode), Lines(s.queues[node], Encode)[0])
  {
    var e := s.queues[node][0];
    assert QueueOk(s.sent, s.receipts, s.queues[node], node);
    assert CanEmit(s, node);
    EmittedMessage(s, node);
    LinesSteps(s.queues[node], e, Encode);
    ForwardLines(s.queues[Succ(node)], e);
  }

  lemma ForwardLines(queue: seq<Entry>, e: Entry)
    requires FieldsFit(e.request) && e.request.ttl < 16
    ensures Lines(Forward(queue, e), Encode) == Received(Lines(queue, Encode), Encode(e.request))
  {
    ReceivedEncoded(Lines(queue, Encode), e.request, Encode(e.request));
    if e.request.ttl > 0 {
      LinesSteps(queue, Entry(e.request.(ttl := e.request.ttl - 1), e.id), Encode);
    }
  }

  /** In every run, whatever the order of sends and hops, each message has been received by the nodes after
      its origin in ring order, once each, with its fields unchanged, and last by the origin with ttl 0. */
  lemma ReceivedInRingOrder(run: seq<State>, i: nat, id: nat, j: nat)
    requires IsRun(run) && i < |run|
    requires id < |run[i].sent| && id < |run[i].receipts| && j < |run[i].receipts[id]|
    ensures var (m, receipt) := (run[i].sent[id], run[i].receipts[id][j]);
            && |run[i].receipts[id]| <= NODES
            && receipt.node == (m.origin + j + 1) % NODES
            && receipt.request == m.request.(ttl := 3 - j)
  {
    RunKeepsInv(run, i);
    var m := run[i].sent[id];
    assert MessageOk(m) && InRingOrder(m, run[i].receipts[id]);
  }

  /** The hops that the messages sent so far still have before them. */
  function HopsLeft(receipts: seq<seq<Receipt>>): int {
    if receipts == [] then 0
    else HopsLeft(receipts[..|receipts| - 1]) + NODES - |receipts[|receipts| - 1]|
  }

  lemma {:induction false} HopCounts(receipts: seq<seq<Receipt>>, id: nat, r: Receipt)
    requires id < |receipts|
    ensures HopsLeft(receipts[id := receipts[id] + [r]]) == HopsLeft(receipts) - 1
  {
    var n := |receipts| - 1;
    if id < n {
      HopCounts(receipts[..n], id, r);
      assert receipts[id := receipts[id] + [r]][..n] == receipts[..n][id := receipts[..n][id] + [r]];
    } else {
      assert receipts[id := receipts[id] + [r]][..n] == receipts[..n];
    }
  }

  lemma {:induction false} NoHopsLeft(receipts: seq<seq<Receipt>>)
    requires forall id :: 0 <= id < |receipts| ==> |receipts[id]| <= NODES
    ensures HopsLeft(receipts) >= 0
    ensures HopsLeft(receipts) == 0 <==> forall id :: 0 <= id < |receipts| ==> |receipts[id]| == NODES
  {
    if receipts != [] {
      NoHopsLeft(receipts[..|receipts| - 1]);
    }
  }

  lemma HeadHasHops(sent: seq<Message>, receipts: seq<seq<Receipt>>, queue: seq<Entry>, node: nat)
    requires |sent| == |receipts| && QueueOk(sent, receipts, queue, node) && queue != []
    ensures queue[0].id < |receipts| && |receipts[queue[0].id]| < NODES
  {
  }

  /** Once sends stop the queues drain: every emission takes one off the hops left, some node can emit as
      long as there are any, and at zero all queues are empty and every message came back to its origin. */
  lemma Drains(run: seq<State>, i: nat) returns (node: nat)
    requires IsRun(run) && i < |run|
    ensures var s := run[i];
            && HopsLeft(s.receipts) >= 0
            && (HopsLeft(s.receipts) > 0 ==> CanEmit(s, node))
            && (forall m: nat :: CanEmit(s, m) ==>
                  HopsLeft(EmitStep(s, m).receipts) == HopsLeft(s.receipts) - 1)
            && (HopsLeft(s.receipts) == 0 ==>
                  && s.queues == [[], [], [], []]
                  && |s.receipts| == |s.sent|
                  && forall id :: 0 <= id < |s.sent| ==> |s.receipts[id]| == NODES)
  {
    RunKeepsInv(run, i);
    var s := run[i];
    forall id | 0 <= id < |s.receipts|
      ensures |s.receipts[id]| <= NODES
    {
      assert InRingOrder(s.sent[id], s.receipts[id]);
    }
    NoHopsLeft(s.receipts);
    forall m: nat | CanEmit(s, m)
      ensures HopsLeft(EmitStep(s, m).receipts) == HopsLeft(s.receipts) - 1
    {
      var e := s.queues[m][0];
      HopCounts(s.receipts, e.id, Receipt(Succ(m), e.request));
    }
    node := 0;
    if HopsLeft(s.receipts) > 0 {
      var id :| 0 <= id < |s.receipts| && |s.receipts[id]| != NODES;
      assert Queued(s.queues, s.sent[id], |s.receipts[id]|, id);
      node := Hop(s.sent[id], |s.receipts[id]|);
      assert QueueOk(s.sent, s.receipts, s.queues[node], node);
    } else {
      forall m | 0 <= m < NODES
        ensures s.queues[m] == []
      {
        assert QueueOk(s.sent, s.receipts, s.queues[m], m);
        if s.queues[m] != [] {
          HeadHasHops(s.sent, s.receipts, s.queues[m], m);
        }
      }
    }
  }
}
