/** The receive queue of common/cec.c: a ring of length-prefixed messages, filled by the CEC
    task and emptied under a mutex by whoever answers the AP. */
module CecRing {
  import opened Memory

  const MAX_CEC_MSG_LEN := 16

  type Message = seq<byte>

  predicate ValidMessage(m: Message) {
    1 <= |m| <= MAX_CEC_MSG_LEN
  }

  predicate ValidMessages(ms: seq<Message>) {
    forall i :: 0 <= i < |ms| ==> ValidMessage(ms[i])
  }

  /** The bytes of the queued messages, each behind its length. */
  function Frames(ms: seq<Message>): seq<byte>
    requires ValidMessages(ms)
  {
    if ms == [] then [] else [|ms[0]|] + ms[0] + Frames(ms[1..])
  }

  lemma {:induction false} FramesAppend(ms: seq<Message>, m: Message)
    requires ValidMessages(ms) && ValidMessage(m)
    ensures Frames(ms + [m]) == Frames(ms) + ([|m|] + m)
  {
    if ms == [] {
      assert [m][1..] == [];
      assert ms + [m] == [m];
    } else {
      assert (ms + [m])[1..] == ms[1..] + [m];
      FramesAppend(ms[1..], m);
    }
  }

  /** The `i`-th position from `start` in a ring of `n`. */
  function Slot(start: nat, i: nat, n: nat): (s: nat)
    requires start < n && i <= n
    ensures s < n
  {
    if start + i < n then start + i else start + i - n
  }

  function Used(r: nat, w: nat, n: nat): (u: nat)
    requires r < n && w < n
    ensures u < n && Slot(r, u, n) == w
  {
    if r <= w then w - r else w + n - r
  }

  /** The position behind. */
  function Next(offset: nat, n: nat): (s: nat)
    requires offset < n
    ensures s < n
  {
    if offset + 1 < n then offset + 1 else 0
  }

  lemma NextIsModulo(offset: nat, n: nat)
    requires offset < n
    ensures (offset + 1) % n == Next(offset, n) == Slot(offset, 1, n)
  {
  }

  /** The `k` bytes of the ring from `start` on. */
  function Ring(buf: seq<byte>, start: nat, k: nat): (bytes: seq<byte>)
    requires start < |buf| && k <= |buf|
    ensures |bytes| == k
  {
    seq(k, i requires 0 <= i < k => buf[Slot(start, i, |buf|)])
  }

  lemma RingFront(buf: seq<byte>, r: nat, k: nat)
    requires r < |buf| && 0 < k <= |buf|
    ensures Ring(buf, r, k)[0] == buf[r] && Ring(buf, Next(r, |buf|), k - 1) == Ring(buf, r, k)[1..]
  {
  }

  lemma RingConcat(buf: seq<byte>, r: nat, k: nat, l: nat)
    requires r < |buf| && k + l <= |buf|
    ensures k < |buf| ==> Ring(buf, r, k + l) == Ring(buf, r, k) + Ring(buf, Slot(r, k, |buf|), l)
  {
  }

  /** A store outside a stretch of the ring leaves that stretch alone. */
  lemma RingFrame(buf: seq<byte>, r: nat, k: nat, i: nat, b: byte)
    requires r < |buf| && k <= i < |buf|
    ensures Ring(buf[Slot(r, i, |buf|) := b], r, k) == Ring(buf, r, k)
  {
  }

  lemma RingExtend(buf: seq<byte>, r: nat, k: nat, b: byte)
    requires r < |buf| && k < |buf|
    ensures Ring(buf[Slot(r, k, |buf|) := b], r, k + 1) == Ring(buf, r, k) + [b]
  {
  }
}

/** One pusher and one popper working on the queue at the same time, one memory access a step. */
module CecInterleaving {
  import opened Memory
  import opened CecRing
  import opened Options

  datatype Error = Inval | Overflow

  /** Where `cec_rx_queue_push` is. */
  datatype Pusher =
    | Idle
    | Compare(msg: Message, i: nat, offset: nat)      // about to compare with the read offset
    | StoreByte(msg: Message, i: nat, offset: nat)    // about to store byte i
    | StoreLength(msg: Message, offset: nat)          // about to store the length
    | Publish(msg: Message, offset: nat)              // about to move the write offset

  /** Where `cec_rx_queue_pop` is; between Ready and its end it holds the mutex. */
  datatype Popper =
    | Out
    | Locked                                          // about to compare the offsets
    | LoadLength                                      // about to load the length byte
    | PassLength(len: nat)                            // about to move past the length byte
    | LoadByte(len: nat, got: Message)                // about to load the next byte or return
    | PassByte(len: nat, got: Message)                // about to move past the byte just loaded

  datatype State = State(buf: seq<byte>, w: nat, r: nat, push: Pusher, pop: Popper)

  /** What a step lets the callers see. */
  datatype Event =
    | Quiet
    | Accepted(msg: Message)
    | Refused(error: Error)
    | Took
    | Delivered(got: Message)
    | Empty
    | Corrupt

  predicate InBounds(s: State) {
    && s.w < |s.buf| && s.r < |s.buf|
    && (s.push.Idle? || (ValidMessage(s.push.msg) && s.push.offset < |s.buf|))
    && (s.push.Compare? ==> s.push.i <= |s.push.msg|)
    && (s.push.StoreByte? ==> s.push.i < |s.push.msg|)
  }

  /** One step of the pusher; an idle one is called with `m`. */
  function PushStep(s: State, m: Message): (t: (State, Event))
    requires InBounds(s)
    ensures InBounds(t.0) && |t.0.buf| == |s.buf| && t.0.r == s.r && t.0.pop == s.pop
  {
    var n := |s.buf|;
    match s.push
    case Idle =>
      if !ValidMessage(m) then (s, Refused(Inval))
      else (s.(buf := s.buf[s.w := 0], push := Compare(m, 0, Next(s.w, n))), Quiet)
    case Compare(msg, i, offset) =>
      if offset == s.r then (s.(push := Idle), Refused(Overflow))
      else if i < |msg| then (s.(push := StoreByte(msg, i, offset)), Quiet)
      else (s.(push := StoreLength(msg, offset)), Quiet)
    case StoreByte(msg, i, offset) =>
      (s.(buf := s.buf[offset := msg[i]], push := Compare(msg, i + 1, Next(offset, n))), Quiet)
    case StoreLength(msg, offset) =>
      (s.(buf := s.buf[s.w := |msg|], push := Publish(msg, offset)), Quiet)
    case Publish(msg, offset) =>
      (s.(w := offset, push := Idle), Accepted(msg))
  }

  /** One step of the popper. */
  function PopStep(s: State): (t: (State, Event))
    requires InBounds(s)
    ensures InBounds(t.0) && t.0.buf == s.buf && t.0.w == s.w && t.0.push == s.push
  {
    var n := |s.buf|;
    match s.pop
    case Out => (s.(pop := Locked), Quiet)
    case Locked =>
      if s.r == s.w then (s.(pop := Out), Empty) else (s.(pop := LoadLength), Quiet)
    case LoadLength =>
      var len := s.buf[s.r];
      if len == 0 || len > MAX_CEC_MSG_LEN then (s.(pop := Out), Corrupt)
      else (s.(pop := PassLength(len)), Took)
    case PassLength(len) => (s.(r := Next(s.r, n), pop := LoadByte(len, [])), Quiet)
    case LoadByte(len, got) =>
      if |got| >= len then (s.(pop := Out), Delivered(got))
      else (s.(pop := PassByte(len, got + [s.buf[s.r]])), Quiet)
    case PassByte(len, got) => (s.(r := Next(s.r, n), pop := LoadByte(len, got)), Quiet)
  }

  datatype Action = Push(m: Message) | Pop

  function Step(s: State, a: Action): (t: (State, Event))
    requires InBounds(s)
    ensures InBounds(t.0)
  {
    match a
    case Push(m) => PushStep(s, m)
    case Pop => PopStep(s)
  }

  // -------- the queue as its users see it

  /** The messages waiting, and the one a popper has taken but not yet returned. */
  datatype Fifo = Fifo(queued: seq<Message>, taken: Option<Message>)

  /** What each event means for a first-in-first-out queue; None where it would be wrong. */
  function FifoStep(f: Fifo, e: Event): Option<Fifo> {
    match e
    case Quiet => Some(f)
    case Refused(_) => Some(f)
    case Accepted(m) => Some(f.(queued := f.queued + [m]))
    case Took =>
      if f.queued != [] && f.taken == None then Some(Fifo(f.queued[1..], Some(f.queued[0]))) else None
    case Delivered(m) => if f.taken == Some(m) then Some(f.(taken := None)) else None
    case Empty => if f.queued == [] && f.taken == None then Some(f) else None
    case Corrupt => None
  }

  // -------- the relation between the two

  predicate PopperAt(pop: Popper, f: Fifo) {
    match pop
    case Out => f.taken == None
    case Locked => f.taken == None
    case LoadLength => f.taken == None && f.queued != []
    case PassLength(len) => f.taken.Some? && len == |f.taken.value| <= 255
    case LoadByte(len, got) =>
      f.taken.Some? && len == |f.taken.value| && |got| <= len && got == f.taken.value[..|got|]
    case PassByte(len, got) =>
      f.taken.Some? && len == |f.taken.value| && 1 <= |got| <= len && got == f.taken.value[..|got|]
  }

  /** How much of the taken message still lies in the ring in front of the queued ones. */
  function Rest(pop: Popper, f: Fifo): seq<byte>
    requires PopperAt(pop, f)
  {
    match pop
    case PassLength(len) => [len] + f.taken.value
    case LoadByte(len, got) => f.taken.value[|got|..]
    case PassByte(len, got) => f.taken.value[|got| - 1..]
    case _ => []
  }

  /** What the pusher has prepared behind the `u` bytes in use. */
  predicate PusherAt(buf: seq<byte>, w: nat, push: Pusher, u: nat)
    requires w < |buf| && u < |buf|
  {
    var n := |buf|;
    match push
    case Idle => true
    case Compare(msg, i, offset) =>
      i <= |msg| && u + 1 + i <= n && offset == Slot(w, 1 + i, n) && Ring(buf, w, 1 + i)[1..] == msg[..i]
    case StoreByte(msg, i, offset) =>
      i < |msg| && u + 1 + i < n && offset == Slot(w, 1 + i, n) && Ring(buf, w, 1 + i)[1..] == msg[..i]
    case StoreLength(msg, offset) =>
      u + 1 + |msg| < n && offset == Slot(w, 1 + |msg|, n) && Ring(buf, w, 1 + |msg|)[1..] == msg
    case Publish(msg, offset) =>
      && u + 1 + |msg| < n && offset == Slot(w, 1 + |msg|, n)
      && Ring(buf, w, 1 + |msg|)[1..] == msg && buf[w] == |msg|
  }

  ghost predicate Represents(s: State, f: Fifo) {
    && InBounds(s) && ValidMessages(f.queued) && PopperAt(s.pop, f)
    && var u := Used(s.r, s.w, |s.buf|);
       && PusherAt(s.buf, s.w, s.push, u)
       && Ring(s.buf, s.r, u) == Rest(s.pop, f) + Frames(f.queued)
  }

  lemma SlotSum(r: nat, u: nat, i: nat, n: nat)
    requires r < n && u < n && u + i <= n
    ensures Slot(Slot(r, u, n), i, n) == Slot(r, u + i, n)
  {
  }

  lemma UsedAfterPass(r: nat, w: nat, n: nat)
    requires r < n && w < n && r != w
    ensures Used(Next(r, n), w, n) == Used(r, w, n) - 1
  {
  }

  lemma UsedAfterPublish(r: nat, w: nat, k: nat, n: nat)
    requires r < n && w < n && Used(r, w, n) + k < n
    ensures Used(r, Slot(w, k, n), n) == Used(r, w, n) + k
  {
  }

  ghost predicate Refines(s: State, f: Fifo, t: (State, Event)) {
    FifoStep(f, t.1).Some? && Represents(t.0, FifoStep(f, t.1).value)
  }

  /** The pusher is where `PusherAt` says, whatever the bytes in use are. */
  predicate Ready(s: State) {
    InBounds(s) && PusherAt(s.buf, s.w, s.push, Used(s.r, s.w, |s.buf|))
  }

  /** A step of the pusher that moves no offset and leaves the bytes in use alone. */
  predicate PusherKeeps(s: State, t: State)
    requires InBounds(s)
  {
    && |t.buf| == |s.buf| && t == s.(buf := t.buf, push := t.push) && Ready(t)
    && Ring(t.buf, s.r, Used(s.r, s.w, |s.buf|)) == Ring(s.buf, s.r, Used(s.r, s.w, |s.buf|))
  }

  lemma StartKeeps(s: State, m: Message)
    requires Ready(s) && s.push.Idle?
    ensures PusherKeeps(s, PushStep(s, m).0)
  {
    var u := Used(s.r, s.w, |s.buf|);
    RingFrame(s.buf, s.r, u, u, 0);
  }

  lemma CompareKeeps(s: State, m: Message)
    requires Ready(s) && s.push.Compare?
    ensures PusherKeeps(s, PushStep(s, m).0)
    ensures var u := Used(s.r, s.w, |s.buf|); s.push.offset == s.r <==> u + 1 + s.push.i == |s.buf|
  {
    SlotSum(s.r, Used(s.r, s.w, |s.buf|), 1 + s.push.i, |s.buf|);
  }

  lemma StoreByteKeeps(s: State, m: Message)
    requires Ready(s) && s.push.StoreByte?
    ensures PusherKeeps(s, PushStep(s, m).0)
  {
    var n, u := |s.buf|, Used(s.r, s.w, |s.buf|);
    var StoreByte(msg, i, offset) := s.push;
    SlotSum(s.r, u, 1 + i, n);
    RingFrame(s.buf, s.r, u, u + 1 + i, msg[i]);
    RingExtend(s.buf, s.w, 1 + i, msg[i]);
    SlotSum(s.w, 1 + i, 1, n);
    assert msg[..i + 1] == msg[..i] + [msg[i]];
  }

  lemma StoreLengthKeeps(s: State, m: Message)
    requires Ready(s) && s.push.StoreLength?
    ensures PusherKeeps(s, PushStep(s, m).0)
  {
    var u, len := Used(s.r, s.w, |s.buf|), |s.push.msg|;
    RingFrame(s.buf, s.r, u, u, len);
    assert Ring(s.buf[s.w := len], s.w, 1 + len)[1..] == Ring(s.buf, s.w, 1 + len)[1..];
  }

  lemma PushStepKeeps(s: State, m: Message)
    requires Ready(s) && !s.push.Publish?
    ensures PusherKeeps(s, PushStep(s, m).0)
  {
    match s.push
    case Idle => StartKeeps(s, m);
    case Compare(_, _, _) => CompareKeeps(s, m);
    case StoreByte(_, _, _) => StoreByteKeeps(s, m);
    case StoreLength(_, _) => StoreLengthKeeps(s, m);
  }

  lemma PublishedBytes(buf: seq<byte>, r: nat, w: nat, msg: Message)
    requires r < |buf| && w < |buf| && ValidMessage(msg) && Used(r, w, |buf|) + 1 + |msg| < |buf|
    requires Ring(buf, w, 1 + |msg|)[1..] == msg && buf[w] == |msg|
    ensures Ring(buf, r, Used(r, w, |buf|) + 1 + |msg|) == Ring(buf, r, Used(r, w, |buf|)) + ([|msg|] + msg)
  {
    RingFront(buf, w, 1 + |msg|);
    assert Ring(buf, w, 1 + |msg|) == [|msg|] + msg;
    RingConcat(buf, r, Used(r, w, |buf|), 1 + |msg|);
  }

  /** A message that is queued behind the others does not concern the popper. */
  lemma QueuedBehind(pop: Popper, f: Fifo, msg: Message)
    requires PopperAt(pop, f)
    ensures PopperAt(pop, f.(queued := f.queued + [msg]))
    ensures Rest(pop, f.(queued := f.queued + [msg])) == Rest(pop, f)
  {
  }

  lemma FrameBehind(ring: seq<byte>, rest: seq<byte>, queued: seq<Message>, msg: Message)
    requires ValidMessages(queued) && ValidMessage(msg) && ring == rest + Frames(queued)
    ensures ValidMessages(queued + [msg]) && ring + ([|msg|] + msg) == rest + Frames(queued + [msg])
  {
    FramesAppend(queued, msg);
    var frames, frame := Frames(queued), [|msg|] + msg;
    assert (rest + frames) + frame == rest + (frames + frame);
  }

  lemma PublishRefines(s: State, m: Message, f: Fifo)
    requires Represents(s, f) && s.push.Publish?
    ensures Refines(s, f, PushStep(s, m))
  {
    var u, msg := Used(s.r, s.w, |s.buf|), s.push.msg;
    PublishedBytes(s.buf, s.r, s.w, msg);
    UsedAfterPublish(s.r, s.w, 1 + |msg|, |s.buf|);
    QueuedBehind(s.pop, f, msg);
    FrameBehind(Ring(s.buf, s.r, u), Rest(s.pop, f), f.queued, msg);
  }

  /** Every step of the pusher is a step of the first-in-first-out queue. */
  lemma PushRefines(s: State, m: Message, f: Fifo)
    requires Represents(s, f)
    ensures Refines(s, f, PushStep(s, m))
  {
    if s.push.Publish? {
      PublishRefines(s, m, f);
    } else {
      PushStepKeeps(s, m);
    }
  }

  lemma LockedRefines(s: State, f: Fifo)
    requires Represents(s, f) && (s.pop.Out? || s.pop.Locked?)
    ensures Refines(s, f, PopStep(s))
  {
  }

  lemma LoadLengthRefines(s: State, f: Fifo)
    requires Represents(s, f) && s.pop.LoadLength?
    ensures Refines(s, f, PopStep(s))
  {
    var u := Used(s.r, s.w, |s.buf|);
    assert Frames(f.queued) == [|f.queued[0]|] + f.queued[0] + Frames(f.queued[1..]);
    assert Ring(s.buf, s.r, u)[0] == |f.queued[0]|;
    RingFront(s.buf, s.r, u);
  }

  lemma FrontPassed(s: State, rest: seq<byte>, frames: seq<byte>)
    requires InBounds(s) && rest != []
    requires Ring(s.buf, s.r, Used(s.r, s.w, |s.buf|)) == rest + frames
    ensures var r := Next(s.r, |s.buf|);
            && Used(r, s.w, |s.buf|) == Used(s.r, s.w, |s.buf|) - 1
            && Ring(s.buf, r, Used(r, s.w, |s.buf|)) == rest[1..] + frames
  {
    var u := Used(s.r, s.w, |s.buf|);
    assert u > 0 && Ring(s.buf, s.r, u)[1..] == rest[1..] + frames;
    RingFront(s.buf, s.r, u);
    UsedAfterPass(s.r, s.w, |s.buf|);
  }

  lemma LessInUse(buf: seq<byte>, w: nat, push: Pusher, u: nat)
    requires w < |buf| && 0 < u < |buf| && PusherAt(buf, w, push, u)
    ensures PusherAt(buf, w, push, u - 1)
  {
  }

  lemma PassLengthRefines(s: State, f: Fifo)
    requires Represents(s, f) && s.pop.PassLength?
    ensures Refines(s, f, PopStep(s))
  {
    var m := f.taken.value;
    FrontPassed(s, [s.pop.len] + m, Frames(f.queued));
    assert ([s.pop.len] + m)[1..] == m == m[0..] && m[..0] == [];
    LessInUse(s.buf, s.w, s.push, Used(s.r, s.w, |s.buf|));
  }

  lemma PassByteRefines(s: State, f: Fifo)
    requires Represents(s, f) && s.pop.PassByte?
    ensures Refines(s, f, PopStep(s))
  {
    var m, k := f.taken.value, |s.pop.got|;
    FrontPassed(s, m[k - 1..], Frames(f.queued));
    assert m[k - 1..][1..] == m[k..];
    LessInUse(s.buf, s.w, s.push, Used(s.r, s.w, |s.buf|));
  }

  lemma LoadByteRefines(s: State, f: Fifo)
    requires Represents(s, f) && s.pop.LoadByte?
    ensures Refines(s, f, PopStep(s))
  {
    var u, got, m := Used(s.r, s.w, |s.buf|), s.pop.got, f.taken.value;
    if |got| < s.pop.len {
      assert Ring(s.buf, s.r, u)[0] == m[|got|..][0];
      RingFront(s.buf, s.r, u);
      assert m[..|got| + 1] == m[..|got|] + [m[|got|]];
    } else {
      assert m[..|m|] == m && m[|got|..] == [];
    }
  }

  /** Every step of the popper is a step of the first-in-first-out queue. */
  lemma PopRefines(s: State, f: Fifo)
    requires Represents(s, f)
    ensures Refines(s, f, PopStep(s))
  {
    match s.pop
    case Out => LockedRefines(s, f);
    case Locked => LockedRefines(s, f);
    case LoadLength => LoadLengthRefines(s, f);
    case PassLength(_) => PassLengthRefines(s, f);
    case LoadByte(_, _) => LoadByteRefines(s, f);
    case PassByte(_, _) => PassByteRefines(s, f);
  }

  // -------- all interleavings

  /** A run is any sequence of actions of the two sides. */
  function Run(s: State, actions: seq<Action>): (t: (State, seq<Event>))
    requires InBounds(s)
    ensures InBounds(t.0)
  {
    if actions == [] then (s, [])
    else
      var (u, events) := Run(s, actions[..|actions| - 1]);
      var (v, e) := Step(u, actions[|actions| - 1]);
      (v, events + [e])
  }

  function FifoRun(f: Fifo, events: seq<Event>): Option<Fifo> {
    if events == [] then Some(f)
    else match FifoRun(f, events[..|events| - 1])
         case None => None
         case Some(g) => FifoStep(g, events[|events| - 1])
  }

  /** Under every interleaving of byte-level steps the queue behaves as a first-in-first-out
      queue of whole messages; in particular no step finds a corrupt length. */
  lemma {:induction false} RunRefines(s: State, actions: seq<Action>, f: Fifo) returns (g: Fifo)
    requires Represents(s, f)
    ensures var (t, events) := Run(s, actions);
            FifoRun(f, events) == Some(g) && Represents(t, g)
  {
    if actions == [] {
      g := f;
    } else {
      var init, a := actions[..|actions| - 1], actions[|actions| - 1];
      var (u, events) := Run(s, init);
      var h := RunRefines(s, init, f);
      if a.Push? {
        PushRefines(u, a.m, h);
      } else {
        PopRefines(u, h);
      }
      var e := Step(u, a).1;
      assert (events + [e])[..|events|] == events;
      g := FifoStep(h, e).value;
    }
  }

  /** The messages pushed successfully, in order. */
  function AcceptedIn(events: seq<Event>): seq<Message> {
    if events == [] then []
    else
      var init, e := events[..|events| - 1], events[|events| - 1];
      AcceptedIn(init) + if e.Accepted? then [e.msg] else []
  }

  /** The messages popped, in order. */
  function DeliveredIn(events: seq<Event>): seq<Message> {
    if events == [] then []
    else
      var init, e := events[..|events| - 1], events[|events| - 1];
      DeliveredIn(init) + if e.Delivered? then [e.got] else []
  }

  function TakenOf(f: Fifo): seq<Message> {
    if f.taken.Some? then [f.taken.value] else []
  }

  lemma {:induction false} FifoConserves(events: seq<Event>, g: Fifo)
    requires FifoRun(Fifo([], None), events) == Some(g)
    ensures AcceptedIn(events) == DeliveredIn(events) + TakenOf(g) + g.queued
  {
    if events != [] {
      var init, e := events[..|events| - 1], events[|events| - 1];
      var h := FifoRun(Fifo([], None), init).value;
      FifoConserves(init, h);
      if e.Took? {
        assert h.queued == [h.queued[0]] + h.queued[1..];
      }
    }
  }

  /** An empty queue, wherever its offsets point. */
  predicate Initial(s: State) {
    s.w == s.r < |s.buf| && s.push == Idle && s.pop == Out
  }

  /** Messages come out whole, in the order they went in, none lost and none made up, and a
      popper is told "empty" only when everything accepted has been delivered. */
  lemma NothingLost(s: State, actions: seq<Action>) returns (g: Fifo)
    requires Initial(s)
    ensures var (t, events) := Run(s, actions);
            && Represents(t, g)
            && AcceptedIn(events) == DeliveredIn(events) + TakenOf(g) + g.queued
            && (forall k :: 0 <= k < |events| ==> !events[k].Corrupt?)
            && (forall k :: 0 <= k < |events| && events[k].Empty? ==>
                  AcceptedIn(events[..k]) == DeliveredIn(events[..k]))
  {
    g := RunRefines(s, actions, Fifo([], None));
    var events := Run(s, actions).1;
    FifoConserves(events, g);
    forall k | 0 <= k < |events|
      ensures !events[k].Corrupt?
      ensures events[k].Empty? ==> AcceptedIn(events[..k]) == DeliveredIn(events[..k])
    {
      EventIsRight(events, k);
    }
  }

  lemma EventIsRight(events: seq<Event>, k: nat)
    requires FifoRun(Fifo([], None), events).Some? && k < |events|
    ensures !events[k].Corrupt?
    ensures events[k].Empty? ==> AcceptedIn(events[..k]) == DeliveredIn(events[..k])
  {
    LegalPrefix(events, k);
    FifoConserves(events[..k], FifoRun(Fifo([], None), events[..k]).value);
  }

  lemma {:induction false} LegalPrefix(events: seq<Event>, k: nat)
    requires FifoRun(Fifo([], None), events).Some? && k < |events|
    ensures FifoRun(Fifo([], None), events[..k]).Some?
    ensures FifoStep(FifoRun(Fifo([], None), events[..k]).value, events[k]).Some?
  {
    var init := events[..|events| - 1];
    if k < |init| {
      LegalPrefix(init, k);
      assert init[..k] == events[..k];
    }
  }

  // -------- one side running alone

  function StepsLeft(push: Pusher): int {
    match push
    case Idle => 2 * MAX_CEC_MSG_LEN + 4
    case Compare(msg, i, _) => 2 * (|msg| - i) + 3
    case StoreByte(msg, i, _) => 2 * (|msg| - i) + 2
    case StoreLength(_, _) => 2
    case Publish(_, _) => 1
  }

  /** The pusher running until it returns. */
  function PushAlone(s: State, m: Message): (t: (State, Event))
    requires InBounds(s)
    ensures InBounds(t.0)
    decreases StepsLeft(s.push)
  {
    var (t, e) := PushStep(s, m);
    if e.Quiet? then PushAlone(t, m) else (t, e)
  }

  /** Whatever the bytes in use are, a push alone succeeds exactly when the message and its length byte fit with one
      byte to spare; then they lie behind the bytes in use, which stay as they are. */
  lemma {:induction false} PushesExactly(s: State, m: Message)
    requires Ready(s) && ValidMessage(m) && (s.push.Idle? || s.push.msg == m)
    ensures var (t, e) := PushAlone(s, m);
            var n, u := |s.buf|, Used(s.r, s.w, |s.buf|);
            && e == (if u + 1 + |m| < n then Accepted(m) else Refused(Overflow))
            && |t.buf| == n && t == s.(buf := t.buf, w := if e.Accepted? then Slot(s.w, 1 + |m|, n) else s.w, push := Idle)
            && Ring(t.buf, s.r, u) == Ring(s.buf, s.r, u)
            && (e.Accepted? ==> Ring(t.buf, s.r, u + 1 + |m|) == Ring(s.buf, s.r, u) + ([|m|] + m))
    decreases StepsLeft(s.push)
  {
    var (t, e) := PushStep(s, m);
    if s.push.Publish? {
      PublishedBytes(s.buf, s.r, s.w, m);
    } else {
      PushStepKeeps(s, m);
      if s.push.Compare? {
        CompareKeeps(s, m);
      }
      if e.Quiet? {
        assert PushAlone(s, m) == PushAlone(t, m);
        PushesExactly(t, m);
      }
    }
  }

  /** An uncontended push succeeds exactly when the message and its length byte fit with one
      byte to spare. */
  lemma {:induction false} PushAloneExactly(s: State, m: Message, f: Fifo)
    requires Represents(s, f) && ValidMessage(m) && (s.push.Idle? || s.push.msg == m)
    ensures var (t, e) := PushAlone(s, m);
            && (e == if Used(s.r, s.w, |s.buf|) + 1 + |m| < |s.buf| then Accepted(m) else Refused(Overflow))
            && t.push == Idle && t.r == s.r && t.pop == s.pop && |t.buf| == |s.buf|
            && t.w == (if e.Accepted? then Slot(s.w, 1 + |m|, |s.buf|) else s.w)
            && FifoStep(f, e).Some? && Represents(t, FifoStep(f, e).value)
    decreases StepsLeft(s.push)
  {
    PushesExactly(s, m);
    PushRefines(s, m, f);
    var (t, e) := PushStep(s, m);
    if e.Quiet? {
      assert PushAlone(s, m) == PushAlone(t, m);
      PushAloneExactly(t, m, f);
    }
  }

  function PhaseOf(pop: Popper): nat {
    match pop
    case Out => 4
    case Locked => 3
    case LoadLength => 2
    case PassLength(_) => 1
    case _ => 0
  }

  function BytesLeft(pop: Popper): nat {
    match pop
    case LoadByte(len, got) => if |got| < len then 2 * (len - |got|) + 1 else 1
    case PassByte(len, got) => if |got| < len then 2 * (len - |got|) + 2 else 2
    case _ => 0
  }

  lemma PopGetsOn(s: State)
    requires InBounds(s)
    ensures var t := PopStep(s).0;
            !t.pop.Out? ==> PhaseOf(t.pop) < PhaseOf(s.pop)
                            || (PhaseOf(t.pop) == PhaseOf(s.pop) && BytesLeft(t.pop) < BytesLeft(s.pop))
  {
  }

  /** The popper running until it returns. */
  function PopAlone(s: State): (t: (State, Event))
    requires InBounds(s)
    ensures InBounds(t.0)
    decreases PhaseOf(s.pop), BytesLeft(s.pop)
  {
    var (t, e) := PopStep(s);
    if t.pop.Out? then (t, e) else PopAlone(t)
  }

  /** A popper that came to a message that is being pushed would find the length 0 and report a corrupt queue. */
  lemma BeginsWithoutLength(s: State, m: Message)
    requires InBounds(s) && s.push.Idle? && 1 <= |m| <= 16
    ensures var t := PushStep(s, m).0;
            t.buf == s.buf[s.w := 0] && (t.r == t.w && t.pop.LoadLength? ==> PopStep(t).1 == Corrupt)
  {
    assert ValidMessage(m);
  }

  /** What a pop of the queue yields and leaves. */
  function PopOutcome(f: Fifo): (Fifo, Event) {
    if f.taken.Some? then (f.(taken := None), Delivered(f.taken.value))
    else if f.queued == [] then (f, Empty)
    else (Fifo(f.queued[1..], None), Delivered(f.queued[0]))
  }

  lemma PopStepOutcome(s: State, f: Fifo)
    requires Represents(s, f)
    ensures var (t, e) := PopStep(s);
            && FifoStep(f, e).Some? && Represents(t, FifoStep(f, e).value)
            && (if t.pop.Out? then PopOutcome(f) == (FifoStep(f, e).value, e)
                else PopOutcome(f) == PopOutcome(FifoStep(f, e).value))
  {
    PopRefines(s, f);
    if s.pop.LoadByte? && |s.pop.got| >= s.pop.len {
      assert f.taken.value[..|f.taken.value|] == f.taken.value;
    }
  }

  /** An uncontended pop returns the oldest message whole, or says that there is none. */
  lemma {:induction false} PopAloneExactly(s: State, f: Fifo)
    requires Represents(s, f)
    ensures var (t, e) := PopAlone(s);
            && t.pop == Out && t.w == s.w && t.buf == s.buf && t.push == s.push
            && e == PopOutcome(f).1 && Represents(t, PopOutcome(f).0)
    decreases PhaseOf(s.pop), BytesLeft(s.pop)
  {
    PopStepOutcome(s, f);
    PopGetsOn(s);
    var (t, e) := PopStep(s);
    if !t.pop.Out? {
      assert PopAlone(s) == PopAlone(t);
      PopAloneExactly(t, FifoStep(f, e).value);
    }
  }
}

/** `cec_rx_queue_flush` by the pusher while a popper may be at work: the read offset is reset under
    the mutex, the write offset behind it, and the popper can come between the two. */
module CecFlush {
  import opened Memory
  import opened CecRing
  import opened Options
  import opened CecInterleaving

  /** The first half holds the mutex, so the popper is out. */
  function FlushRead(s: State): State
    requires s.pop.Out?
  {
    s.(r := 0)
  }

  function FlushWrite(s: State): State {
    s.(w := 0)
  }

  /** The state after `k` steps of the popper. */
  function Pops(s: State, k: nat): (t: State)
    requires InBounds(s)
    ensures InBounds(t) && t.buf == s.buf && t.w == s.w && t.push == s.push
  {
    if k == 0 then s else PopStep(Pops(s, k - 1)).0
  }

  /** Which popper the second half may meet for the queue to be empty then: one that has not moved the
      read offset and has not compared the offsets yet. */
  lemma CleanExactly(s: State)
    requires InBounds(s) && s.push.Idle?
    ensures Represents(FlushWrite(s), Fifo([], None)) <==> s.r == 0 && (s.pop.Out? || s.pop.Locked?)
  {
    assert Frames([]) == [];
  }

  lemma {:induction false} PopsOfEmpty(s: State, k: nat)
    requires InBounds(s) && s.r == s.w && s.pop.Out?
    ensures var t := Pops(s, k); t.r == s.r && (t.pop.Out? || t.pop.Locked?)
  {
    if k > 0 {
      PopsOfEmpty(s, k - 1);
    }
  }

  /** The queue is empty after a flush however far a popper gets between the halves exactly if the write
      offset was at the start of the buffer already. Otherwise a popper that has found the queue
      not empty is enough to spoil it. */
  lemma FlushIsCleanExactly(s: State)
    requires InBounds(s) && s.push.Idle? && s.pop.Out?
    ensures (forall k: nat :: Represents(FlushWrite(Pops(FlushRead(s), k)), Fifo([], None))) <==> s.w == 0
    ensures forall k: nat :: k <= 1 ==> Represents(FlushWrite(Pops(FlushRead(s), k)), Fifo([], None))
  {
    var t := FlushRead(s);
    assert Pops(t, 0) == t && Pops(t, 1) == t.(pop := Locked);
    forall k: nat | k <= 1
      ensures Represents(FlushWrite(Pops(t, k)), Fifo([], None))
    {
      CleanExactly(Pops(t, k));
    }
    if s.w == 0 {
      forall k: nat
        ensures Represents(FlushWrite(Pops(t, k)), Fifo([], None))
      {
        PopsOfEmpty(t, k);
        CleanExactly(Pops(t, k));
      }
    } else {
      assert Pops(t, 2) == t.(pop := LoadLength);
      CleanExactly(Pops(t, 2));
    }
  }

  // -------- what pops and pushes do with offsets that stand for no messages

  lemma PopGoesOn(s: State, t: State)
    requires InBounds(s) && PopStep(s).0 == t && !t.pop.Out?
    ensures PopAlone(s) == PopAlone(t)
  {
  }

  lemma TakesByte(s: State)
    requires InBounds(s) && s.pop.LoadByte? && |s.pop.got| < s.pop.len
    ensures PopAlone(s) == PopAlone(s.(r := Next(s.r, |s.buf|), pop := LoadByte(s.pop.len, s.pop.got + [s.buf[s.r]])))
  {
    var got := s.pop.got + [s.buf[s.r]];
    var u := s.(pop := PassByte(s.pop.len, got));
    var v := s.(r := Next(s.r, |s.buf|), pop := LoadByte(s.pop.len, got));
    PopGoesOn(s, u);
    PopGoesOn(u, v);
  }

  lemma OneByteMore(got: Message, buf: seq<byte>, r: nat, left: nat)
    requires r < |buf| && 0 < left <= |buf|
    ensures got + [buf[r]] + Ring(buf, Next(r, |buf|), left - 1) == got + Ring(buf, r, left)
    ensures Slot(Next(r, |buf|), left - 1, |buf|) == Slot(r, left, |buf|)
  {
    RingFront(buf, r, left);
    assert [buf[r]] + Ring(buf, r, left)[1..] == Ring(buf, r, left);
  }

  lemma {:induction false} TakesBytes(s: State)
    requires InBounds(s) && s.pop.LoadByte? && |s.pop.got| <= s.pop.len && s.pop.len - |s.pop.got| <= |s.buf|
    ensures var left := s.pop.len - |s.pop.got|;
            PopAlone(s) == (s.(r := Slot(s.r, left, |s.buf|), pop := Out), Delivered(s.pop.got + Ring(s.buf, s.r, left)))
    decreases s.pop.len - |s.pop.got|
  {
    var left := s.pop.len - |s.pop.got|;
    if left > 0 {
      TakesByte(s);
      TakesBytes(s.(r := Next(s.r, |s.buf|), pop := LoadByte(s.pop.len, s.pop.got + [s.buf[s.r]])));
      OneByteMore(s.pop.got, s.buf, s.r, left);
    } else {
      assert s.pop.got + Ring(s.buf, s.r, left) == s.pop.got;
    }
  }

  predicate LawfulLength(len: nat) {
    1 <= len <= MAX_CEC_MSG_LEN
  }

  lemma TakesLength(s: State)
    requires InBounds(s) && s.pop.LoadLength? && LawfulLength(s.buf[s.r])
    ensures PopAlone(s) == PopAlone(s.(r := Next(s.r, |s.buf|), pop := LoadByte(s.buf[s.r], [])))
  {
    var t := s.(pop := PassLength(s.buf[s.r]));
    var u := s.(r := Next(s.r, |s.buf|), pop := LoadByte(s.buf[s.r], []));
    PopGoesOn(s, t);
    PopGoesOn(t, u);
  }

  lemma TakesWhole(s: State)
    requires InBounds(s) && s.pop.LoadByte? && s.pop.got == [] && s.pop.len <= |s.buf|
    ensures PopAlone(s) == (s.(r := Slot(s.r, s.pop.len, |s.buf|), pop := Out), Delivered(Ring(s.buf, s.r, s.pop.len)))
  {
    TakesBytes(s);
    assert [] + Ring(s.buf, s.r, s.pop.len) == Ring(s.buf, s.r, s.pop.len);
  }

  lemma TakesLawful(s: State)
    requires InBounds(s) && s.pop.LoadLength? && |s.buf| > MAX_CEC_MSG_LEN && LawfulLength(s.buf[s.r])
    ensures var len, first := s.buf[s.r], Next(s.r, |s.buf|);
            PopAlone(s) == (s.(r := Slot(first, len, |s.buf|), pop := Out), Delivered(Ring(s.buf, first, len)))
  {
    TakesLength(s);
    TakesWhole(s.(r := Next(s.r, |s.buf|), pop := LoadByte(s.buf[s.r], [])));
  }

  lemma FindsNothing(s: State)
    requires InBounds(s) && s.pop.Out? && s.r == s.w
    ensures PopAlone(s) == (s, Empty)
  {
    var t := s.(pop := Locked);
    assert PopStep(t) == (s, Empty);
    PopGoesOn(s, t);
  }

  lemma FindsSomething(s: State)
    requires InBounds(s) && s.pop.Out? && s.r != s.w
    ensures PopAlone(s) == PopAlone(s.(pop := LoadLength))
  {
    var t := s.(pop := Locked);
    PopGoesOn(s, t);
    PopGoesOn(t, s.(pop := LoadLength));
  }

  lemma FindsNoLength(s: State)
    requires InBounds(s) && s.pop.LoadLength? && !LawfulLength(s.buf[s.r])
    ensures PopAlone(s) == (s.(pop := Out), Corrupt)
  {
  }

  /** A pop says that there is nothing if the offsets are equal, stays where it is for a byte that is no length, and
      otherwise takes as many bytes as the byte under the read offset says. */
  function PopOf(s: State): (State, Event)
    requires InBounds(s) && |s.buf| > MAX_CEC_MSG_LEN
  {
    var n, len, first := |s.buf|, s.buf[s.r], Next(s.r, |s.buf|);
    if s.r == s.w then (s, Empty)
    else if !LawfulLength(len) then (s, Corrupt)
    else (s.(r := Slot(first, len, n)), Delivered(Ring(s.buf, first, len)))
  }

  lemma PopOfSome(s: State)
    requires InBounds(s) && s.pop.Out? && |s.buf| > MAX_CEC_MSG_LEN && s.r != s.w
    ensures PopAlone(s.(pop := LoadLength)) == PopOf(s)
  {
    if LawfulLength(s.buf[s.r]) {
      TakesLawful(s.(pop := LoadLength));
    } else {
      FindsNoLength(s.(pop := LoadLength));
    }
  }

  /** In every state, whether its offsets stand for messages or not. */
  lemma PopsExactly(s: State)
    requires InBounds(s) && s.pop.Out? && |s.buf| > MAX_CEC_MSG_LEN
    ensures PopAlone(s) == PopOf(s)
  {
    if s.r == s.w {
      FindsNothing(s);
    } else {
      FindsSomething(s);
      PopOfSome(s);
    }
  }

  /** What the popper makes of a flush if it pops between the halves: a byte at the start of the buffer that is no length
      does no harm, and otherwise it takes that many bytes for a message and leaves all others in use. */
  lemma PopBetween(s: State)
    requires InBounds(s) && s.push.Idle? && s.pop.Out? && s.w != 0 && |s.buf| > MAX_CEC_MSG_LEN
    ensures var (t, e) := PopAlone(FlushRead(s));
            var n, len := |s.buf|, s.buf[0];
            if LawfulLength(len) then
              && e == Delivered(Ring(s.buf, 1, len)) && t == s.(r := Slot(0, 1 + len, n))
              && Used(t.r, FlushWrite(t).w, n) == if 1 + len < n then n - (1 + len) else 0
            else e == Corrupt && Represents(FlushWrite(t), Fifo([], None))
  {
    PopsExactly(FlushRead(s));
    if !LawfulLength(s.buf[0]) {
      CleanExactly(FlushRead(s));
    }
  }

  lemma RingToEnd(a: seq<byte>, b: seq<byte>, r: nat)
    requires r < |a| == |b| && Ring(a, r, |a| - r) == Ring(b, r, |a| - r)
    ensures a[r..] == b[r..]
  {
    forall i | r <= i < |a|
      ensures a[i] == b[i]
    {
      assert Ring(a, r, |a| - r)[i - r] == a[i] && Ring(b, r, |a| - r)[i - r] == b[i];
    }
  }

  /** The second push of the handler behind such a flush, which has left the write offset at the start and the read offset
      behind the bytes that were popped: it succeeds exactly for a message shorter than these, and does not touch the
      bytes in use. */
  lemma PushInFront(s: State, m: Message, t: State, e: Event)
    requires InBounds(s) && s.push.Idle? && s.w == 0 < s.r && ValidMessage(m)
    requires (t, e) == PushAlone(s, m)
    ensures e == if 1 + |m| < s.r then Accepted(m) else Refused(Overflow)
    ensures t == s.(buf := t.buf, w := if e.Accepted? then 1 + |m| else 0)
    ensures |t.buf| == |s.buf| && t.buf[s.r..] == s.buf[s.r..]
  {
    PushesExactly(s, m);
    RingToEnd(t.buf, s.buf, s.r);
  }

  /** The next pop takes the byte there, from before the flush, for a length; if it is none, no pop changes anything
      any more. */
  lemma PopBehindPush(s: State, m: Message, t: State, e: Event)
    requires InBounds(s) && s.push.Idle? && s.pop.Out? && s.w == 0 < s.r && ValidMessage(m) && |s.buf| > MAX_CEC_MSG_LEN
    requires (t, e) == PushAlone(s, m)
    ensures var (u, next) := PopAlone(t);
            if LawfulLength(s.buf[s.r]) then next.Delivered? && |next.got| == s.buf[s.r] else next == Corrupt && u == t
  {
    PushInFront(s, m, t, e);
    assert t.buf[s.r] == t.buf[s.r..][0] == s.buf[s.r..][0];
    PopsExactly(t);
  }

  /** The handler with a popper between the halves of its flush: the two pushes, the two halves and the pop in turn. */
  lemma HandlerBesidePop(s: State, m: Message, t: State, e: Event)
    requires InBounds(s) && s.push.Idle? && s.pop.Out? && s.w != 0 && ValidMessage(m) && |s.buf| > MAX_CEC_MSG_LEN
    requires LawfulLength(s.buf[0]) && 1 + s.buf[0] < |s.buf|
    requires (t, e) == PushAlone(FlushWrite(PopAlone(FlushRead(s)).0), m)
    ensures e == if |m| < s.buf[0] then Accepted(m) else Refused(Overflow)
    ensures |t.buf| == |s.buf| && t.r == 1 + s.buf[0] && t.w == (if e.Accepted? then 1 + |m| else 0)
    ensures t.buf[t.r] == s.buf[t.r]
  {
    PopBetween(s);
    var spoiled := s.(r := 1 + s.buf[0], w := 0);
    PushInFront(spoiled, m, t, e);
    assert t.buf[spoiled.r] == t.buf[spoiled.r..][0] == s.buf[spoiled.r..][0];
  }
}

/** The queue object itself, used by one caller at a time. */
module CecQueue {
  import opened Memory
  import opened CecRing
  import opened Options
  import opened CecInterleaving

  class RxQueue {
    const buf: array<byte>
    var writeOffset: nat
    var readOffset: nat
    ghost var messages: seq<Message>

    ghost function Snapshot(): State
      reads this, buf
    {
      State(buf[..], writeOffset, readOffset, Idle, Out)
    }

    ghost predicate Valid()
      reads this, buf
    {
      Represents(Snapshot(), Fifo(messages, None))
    }

    /** Bytes in use. */
    function InUse(): nat
      reads this, buf
      requires writeOffset < buf.Length && readOffset < buf.Length
    {
      Used(readOffset, writeOffset, buf.Length)
    }

    constructor (size: nat)
      requires 0 < size
      ensures Valid() && messages == [] && buf.Length == size && fresh(buf)
    {
      buf := new byte[size](_ => 0);
      writeOffset, readOffset, messages := 0, 0, [];
    }

    // The code of `cec_rx_queue_push`, step for step the pusher of the interleaved queue.
    method PushSteps(msg: Message) returns (rv: Option<Error>)
      requires InBounds(Snapshot())
      modifies this, buf
      ensures messages == old(messages)
      ensures PushAlone(old(Snapshot()), msg)
           == (Snapshot(), match rv case None => Accepted(msg) case Some(error) => Refused(error))
    {
      if |msg| > MAX_CEC_MSG_LEN || |msg| == 0 {
        return Some(Inval);
      }
      ghost var start := Snapshot();
      var offset: nat := writeOffset;
      buf[offset] := 0;
      NextIsModulo(offset, buf.Length);
      offset := (offset + 1) % buf.Length;
      var i: nat := 0;
      ghost var s := PushStep(start, msg).0;
      while i < |msg|
        invariant 0 <= i <= |msg| && offset < buf.Length && messages == old(messages)
        invariant writeOffset == old(writeOffset) && readOffset == old(readOffset)
        invariant s == State(buf[..], writeOffset, readOffset, Compare(msg, i, offset), Out)
        invariant PushAlone(s, msg) == PushAlone(start, msg)
      {
        if offset == readOffset {
          return Some(Overflow);
        }
        s := PushStep(s, msg).0;
        buf[offset] := msg[i];
        NextIsModulo(offset, buf.Length);
        offset := (offset + 1) % buf.Length;
        s := PushStep(s, msg).0;
        i := i + 1;
      }
      if offset == readOffset {
        return Some(Overflow);
      }
      s := PushStep(s, msg).0;
      assert PushAlone(s, msg) == PushAlone(start, msg);
      buf[writeOffset] := |msg|;
      s := PushStep(s, msg).0;
      assert PushAlone(s, msg) == PushAlone(start, msg);
      writeOffset := offset;
      rv := None;
    }

    method Push(msg: Message) returns (rv: Option<Error>)
      requires Valid()
      modifies this, buf
      ensures Valid() && readOffset == old(readOffset)
      ensures var end := old(writeOffset) + 1 + |msg|;
              writeOffset == if rv.Some? then old(writeOffset) else if end < buf.Length then end else end - buf.Length
      ensures rv == if !ValidMessage(msg) then Some(Inval)
                    else if old(InUse()) + 1 + |msg| < buf.Length then None
                    else Some(Overflow)
      ensures messages == if rv == None then old(messages) + [msg] else old(messages)
      ensures InUse() == old(InUse()) + if rv == None then 1 + |msg| else 0
      ensures rv == Some(Inval) <==> |msg| == 0 || |msg| > 16
    {
      ghost var start, f := Snapshot(), Fifo(messages, None);
      rv := PushSteps(msg);
      if ValidMessage(msg) {
        PushAloneExactly(start, msg, f);
        if rv == None {
          UsedAfterPublish(start.r, start.w, 1 + |msg|, |start.buf|);
          messages := messages + [msg];
        }
      }
    }

    // The code of `cec_rx_queue_pop`, step for step the popper of the interleaved queue.
    method PopSteps() returns (msg: Message, len: nat, ok: bool)
      requires InBounds(Snapshot())
      modifies this
      ensures messages == old(messages) && len == |msg| && (!ok ==> len == 0)
      ensures var (t, e) := PopAlone(old(Snapshot()));
              t == Snapshot() && (ok <==> e.Delivered?) && (ok ==> e == Delivered(msg))
    {
      ghost var data, write := buf[..], writeOffset;
      ghost var start := Snapshot();
      ghost var s := PopStep(start).0;
      assert PopAlone(start) == PopAlone(s);
      msg := [];
      if readOffset == writeOffset {
        return [], 0, false;
      }
      s := PopStep(s).0;
      assert PopAlone(start) == PopAlone(s);
      len := buf[readOffset];
      if len == 0 || len > MAX_CEC_MSG_LEN {
        return [], 0, false;
      }
      s := PopStep(s).0;
      assert PopAlone(start) == PopAlone(s);
      NextIsModulo(readOffset, buf.Length);
      readOffset := (readOffset + 1) % buf.Length;
      s := PopStep(s).0;
      assert PopAlone(start) == PopAlone(s);
      var i := 0;
      while i < len
        invariant 0 <= i <= len && |msg| == i && readOffset < buf.Length && messages == old(messages)
        invariant buf[..] == data && writeOffset == write
        invariant s == State(data, write, readOffset, Idle, LoadByte(len, msg))
        invariant PopAlone(s) == PopAlone(start)
      {
        msg := msg + [buf[readOffset]];
        s := PopStep(s).0;
        NextIsModulo(readOffset, buf.Length);
        readOffset := (readOffset + 1) % buf.Length;
        s := PopStep(s).0;
        i := i + 1;
      }
      ok := true;
    }

    method Pop() returns (msg: Message, len: nat, ok: bool)
      requires Valid()
      modifies this
      ensures Valid() && writeOffset == old(writeOffset)
      ensures ok <==> old(messages) != []
      ensures ok ==> msg == old(messages)[0] && len == |msg| && messages == old(messages)[1..]
      ensures !ok ==> len == 0 && messages == []
    {
      ghost var start, f := Snapshot(), Fifo(messages, None);
      msg, len, ok := PopSteps();
      PopAloneExactly(start, f);
      if ok {
        messages := messages[1..];
      }
    }

    /** `cec_rx_queue_flush`, with nobody else at work on the queue. */
    method Flush()
      requires Valid()
      modifies this
      ensures Valid() && messages == [] && InUse() == 0 && readOffset == writeOffset == 0
    {
      readOffset := 0;
      writeOffset := 0;
      messages := [];
    }

    /** The queueing part of `handle_received_message`: when the queue is full, the most recent
        message is preferred to all the others. */
    method HandleReceived(msg: Message) returns (queued: bool)
      requires Valid()
      modifies this, buf
      ensures Valid()
      ensures queued <==> 1 <= |msg| <= 16 && 1 + |msg| < buf.Length
      ensures messages ==
                if !ValidMessage(msg) then old(messages)
                else if old(InUse()) + 1 + |msg| < buf.Length then old(messages) + [msg]
                else if 1 + |msg| < buf.Length then [msg]
                else []
      ensures 1 <= |msg| <= 16 && old(InUse()) + 1 + |msg| >= buf.Length ==>
                readOffset == 0 && writeOffset == if queued then 1 + |msg| else 0
    {
      var rv := Push(msg);
      if rv == Some(Overflow) {
        Flush();
        rv := Push(msg);
      }
      queued := rv == None;
    }
  }

  /** The compile-time check asks for a buffer of at least MAX_CEC_MSG_LEN + 1 bytes. */
  predicate SizeAccepted(size: nat) {
    size >= MAX_CEC_MSG_LEN + 1
  }

  /** It does not promise that a received message can be queued: every valid message can,
      even after a flush, exactly if there is one byte more. */
  lemma EveryMessageFitsExactly(size: nat)
    ensures (forall m: Message :: 1 <= |m| <= 16 ==> 1 + |m| < size) <==> size >= 18
  {
    var longest: Message := seq(MAX_CEC_MSG_LEN, _ => 0);
    assert |longest| == 16;
  }

  lemma SizeCheckIsOneShort()
    ensures SizeAccepted(17) && !(forall m: Message :: 1 <= |m| <= 16 ==> 1 + |m| < 17)
  {
    EveryMessageFitsExactly(17);
  }
}
