/**
 The ring between the thread that queues bytes for a socket and the thread that
 sends them. A turn is one atomic step of one of the threads, so that any sequence
 of turns is an interleaving; an index that a thread has read may be out of date by
 the time it is used.
 */
module SocketRing {
  import opened Bytes
  import opened RingIndex

  const SIZE: nat := 10240

  /** Where the queueing thread is in its loop. */
  datatype Producer = Ready | SawGet(get: nat) | Copying(put: nat, amount: nat, done: nat)

  /** Where the sending thread is in its loop. */
  datatype Sender = Waiting | SawOwn(get: nat) | Sending(get: nat, amount: nat, done: nat)

  /** How many bytes may be written from `put` on, without catching up with `get` and without wrapping. */
  function Room(get: nat, put: nat): nat
    requires get < SIZE && put < SIZE
  {
    if put < get then get - put - 1 else if get == 0 then SIZE - put - 1 else SIZE - put
  }

  /** How many bytes may be read from `get` on, without wrapping. */
  function Stretch(get: nat, put: nat): nat
    requires get < SIZE && put < SIZE
  {
    if get > put then SIZE - get else put - get
  }

  /** The room computed from indices leaves the bytes alone that are not sent yet. */
  lemma {:induction false} RoomIsSafe(g: nat, p: nat)
    requires g <= p < g + SIZE
    ensures
      var room := Room(Slot(g, SIZE), Slot(p, SIZE));
      p + room < g + SIZE && Slot(p, SIZE) + room <= SIZE
  {
    SlotDistance(g, p, SIZE);
  }

  /** It is all there is: up to the byte in front of the first unsent one, or to the end of the buffer. */
  lemma {:induction false} RoomExactly(g: nat, p: nat)
    requires g <= p < g + SIZE
    ensures
      var room, free, ahead := Room(Slot(g, SIZE), Slot(p, SIZE)), g + SIZE - 1 - p, SIZE - Slot(p, SIZE);
      room == (if free < ahead then free else ahead) && (room == 0 <==> p == g + SIZE - 1)
  {
    SlotDistance(g, p, SIZE);
  }

  /** And so is the stretch: all queued bytes, or those up to the end of the buffer. */
  lemma {:induction false} StretchExactly(g: nat, p: nat)
    requires g <= p < g + SIZE
    ensures
      var stretch, ahead := Stretch(Slot(g, SIZE), Slot(p, SIZE)), SIZE - Slot(g, SIZE);
      stretch == if p - g < ahead then p - g else ahead
  {
    SlotDistance(g, p, SIZE);
  }

  lemma {:induction false} StretchIsQueued(g: nat, p: nat)
    requires g <= p < g + SIZE
    ensures
      var stretch := Stretch(Slot(g, SIZE), Slot(p, SIZE));
      g + stretch <= p && Slot(g, SIZE) + stretch <= SIZE
    ensures Stretch(Slot(g, SIZE), Slot(p, SIZE)) == 0 <==> g == p
  {
    SlotDistance(g, p, SIZE);
  }

  // -------------------------------------------------------------------- turns

  /** The ring, what each thread is about, and the bytes handed to the socket so far. */
  datatype State = State(
    buffer: seq<byte>, sendPut: nat, sendGet: nat, message: seq<byte>, producer: Producer, sender: Sender,
    wire: seq<byte>)

  /** A step of the queueing thread, which takes the offer when it has nothing to do; or one of the sending thread. */
  datatype Turn = Queue(offer: seq<byte>) | Send

  /** All positions lie in the ring. */
  predicate Bounded(s: State) {
    && |s.buffer| == SIZE && s.sendPut < SIZE && s.sendGet < SIZE
    && (match s.producer
        case Ready => true
        case SawGet(get) => get < SIZE
        case Copying(put, amount, done) => put + amount <= SIZE && done <= amount <= done + |s.message|)
    && (match s.sender
        case Waiting => true
        case SawOwn(get) => get < SIZE
        case Sending(get, amount, done) => get + amount <= SIZE && done <= amount)
  }

  function Queued(s: State, offer: seq<byte>): (r: State)
    requires Bounded(s)
    ensures Bounded(r)
  {
    match s.producer
    case Ready => if s.message == [] then s.(message := offer) else s.(producer := SawGet(s.sendGet))
    case SawGet(get) =>
      var room := Room(get, s.sendPut);
      var amount := if |s.message| < room then |s.message| else room;
      s.(producer := if amount == 0 then Ready else Copying(s.sendPut, amount, 0))
    case Copying(put, amount, done) =>
      if done < amount then
        s.(buffer := s.buffer[put + done := s.message[0]], message := s.message[1..],
          producer := Copying(put, amount, done + 1))
      else s.(sendPut := Slot(put + amount, SIZE), producer := Ready)
  }

  function Sent(s: State): (r: State)
    requires Bounded(s)
    ensures Bounded(r)
  {
    match s.sender
    case Waiting => s.(sender := SawOwn(s.sendGet))
    case SawOwn(get) =>
      var amount := Stretch(get, s.sendPut);
      s.(sender := if amount == 0 then Waiting else Sending(get, amount, 0))
    case Sending(get, amount, done) =>
      if done < amount then s.(wire := s.wire + [s.buffer[get + done]], sender := Sending(get, amount, done + 1))
      else s.(sendGet := Slot(get + amount, SIZE), sender := Waiting)
  }

  function Next(s: State, t: Turn): (r: State)
    requires Bounded(s)
    ensures Bounded(r)
  {
    match t
    case Queue(offer) => Queued(s, offer)
    case Send => Sent(s)
  }

  function Run(s: State, ts: seq<Turn>): (r: State)
    requires Bounded(s)
    ensures Bounded(r)
    decreases |ts|
  {
    if ts == [] then s else Run(Next(s, ts[0]), ts[1..])
  }

  predicate Takes(s: State, t: Turn) {
    t.Queue? && s.producer.Ready? && s.message == []
  }

  /** The offers that a run takes, one behind the other. */
  function Offers(s: State, ts: seq<Turn>): seq<byte>
    requires Bounded(s)
    decreases |ts|
  {
    if ts == [] then [] else (if Takes(s, ts[0]) then ts[0].offer else []) + Offers(Next(s, ts[0]), ts[1..])
  }

  /** An empty ring, whatever is in its buffer. */
  predicate Initial(s: State) {
    && |s.buffer| == SIZE && s.sendPut == 0 && s.sendGet == 0 && s.message == []
    && s.producer == Ready && s.sender == Waiting && s.wire == []
  }

  // -------------------------------------------------------------------- invariant

  /**
   The bytes taken so far and those of them written into the ring, the indices
   counted without wrapping, and the read index that the queueing thread has seen.
   */
  datatype History = History(accepted: seq<byte>, queued: seq<byte>, published: nat, freed: nat, seen: nat)

  ghost predicate Indices(s: State, h: History) {
    && h.freed <= h.published <= |h.queued| && h.published < h.freed + SIZE
    && s.sendPut == Slot(h.published, SIZE) && s.sendGet == Slot(h.freed, SIZE)
    && h.accepted == h.queued + s.message
  }

  ghost predicate ProducerOk(s: State, h: History) {
    match s.producer
    case Ready => |h.queued| == h.published
    case SawGet(get) =>
      && |h.queued| == h.published && h.seen <= h.freed && get == Slot(h.seen, SIZE) && h.published < h.seen + SIZE
      && s.message != []
    case Copying(put, amount, done) =>
      && put == Slot(h.published, SIZE) && put + amount <= SIZE && done <= amount <= done + |s.message|
      && |h.queued| == h.published + done && h.published + amount < h.freed + SIZE && amount > 0
  }

  ghost predicate SenderOk(s: State, h: History)
    requires h.freed <= h.published <= |h.queued|
  {
    match s.sender
    case Waiting => s.wire == h.queued[..h.freed]
    case SawOwn(get) => get == s.sendGet && s.wire == h.queued[..h.freed]
    case Sending(get, amount, done) =>
      && get == Slot(h.freed, SIZE) && get + amount <= SIZE && done <= amount && h.freed + amount <= h.published
      && amount > 0 && s.wire == h.queued[..h.freed + done]
  }

  /** Every byte that is written and not yet given up is in its place: none is overwritten. */
  ghost predicate InPlace(s: State, h: History) {
    |s.buffer| == SIZE && forall j :: h.freed <= j < |h.queued| ==> s.buffer[Slot(j, SIZE)] == h.queued[j]
  }

  ghost predicate Inv(s: State, h: History) {
    Bounded(s) && Indices(s, h) && ProducerOk(s, h) && SenderOk(s, h) && InPlace(s, h)
  }

  /** The history after a turn. */
  ghost function Record(h: History, s: State, t: Turn): History
    requires Bounded(s)
  {
    if t.Queue? then
      match s.producer
      case Ready => if s.message == [] then h.(accepted := h.accepted + t.offer) else h.(seen := h.freed)
      case SawGet(_) => h
      case Copying(_, amount, done) =>
        if done < amount then h.(queued := h.queued + [s.message[0]]) else h.(published := h.published + amount)
    else if s.sender.Sending? && s.sender.done == s.sender.amount then h.(freed := h.freed + s.sender.amount)
    else h
  }

  /** Writing the next byte hits no place that is still in use. */
  lemma {:induction false} CopyInPlace(buffer: seq<byte>, queued: seq<byte>, freed: nat, at: nat, b: byte)
    requires |buffer| == SIZE && freed <= |queued| < freed + SIZE && at == Slot(|queued|, SIZE)
    requires forall j :: freed <= j < |queued| ==> buffer[Slot(j, SIZE)] == queued[j]
    ensures
      var buffer', queued' := buffer[at := b], queued + [b];
      forall j :: freed <= j < |queued'| ==> buffer'[Slot(j, SIZE)] == queued'[j]
  {
    forall j | freed <= j < |queued| ensures Slot(j, SIZE) != at { SlotDistance(j, |queued|, SIZE); }
  }

  lemma {:induction false} CopyKeeps(s: State, h: History, offer: seq<byte>)
    requires Inv(s, h) && s.producer.Copying? && s.producer.done < s.producer.amount
    ensures Inv(Queued(s, offer), Record(h, s, Queue(offer)))
  {
    SlotStep(h.published, s.producer.done, SIZE);
    CopyInPlace(s.buffer, h.queued, h.freed, s.producer.put + s.producer.done, s.message[0]);
    HeadTail(s.message);
    Assoc(h.queued, [s.message[0]], s.message[1..]);
  }

  lemma {:induction false} QueueKeeps(s: State, h: History, offer: seq<byte>)
    requires Inv(s, h)
    ensures Inv(Queued(s, offer), Record(h, s, Queue(offer)))
  {
    match s.producer
    case Ready =>
    case SawGet(_) => RoomKeeps(s, h, offer);
    case Copying(_, amount, done) =>
      if done < amount { CopyKeeps(s, h, offer); } else { PublishKeeps(s, h, offer); }
  }

  lemma {:induction false} RoomKeeps(s: State, h: History, offer: seq<byte>)
    requires Inv(s, h) && s.producer.SawGet?
    ensures Inv(Queued(s, offer), Record(h, s, Queue(offer)))
  {
    RoomIsSafe(h.seen, h.published);
  }

  lemma {:induction false} PublishKeeps(s: State, h: History, offer: seq<byte>)
    requires Inv(s, h) && s.producer.Copying? && s.producer.done == s.producer.amount
    ensures Inv(Queued(s, offer), Record(h, s, Queue(offer)))
  {
    SlotAdd(h.published, s.producer.amount, SIZE);
  }

  lemma {:induction false} SendKeeps(s: State, h: History)
    requires Inv(s, h)
    ensures Inv(Sent(s), Record(h, s, Send))
  {
    match s.sender
    case Waiting =>
    case SawOwn(_) => StretchIsQueued(h.freed, h.published);
    case Sending(_, amount, done) =>
      if done < amount { SendByteKeeps(s, h); } else { SlotAdd(h.freed, amount, SIZE); }
  }

  lemma {:induction false} SendByteKeeps(s: State, h: History)
    requires Inv(s, h) && s.sender.Sending? && s.sender.done < s.sender.amount
    ensures Inv(Sent(s), Record(h, s, Send))
  {
    var j := h.freed + s.sender.done;
    SlotStep(h.freed, s.sender.done, SIZE);
    assert s.buffer[Slot(j, SIZE)] == h.queued[j];
    assert h.queued[..j + 1] == h.queued[..j] + [h.queued[j]];
  }

  ghost function Taken(s: State, t: Turn): seq<byte> {
    if Takes(s, t) then t.offer else []
  }

  lemma {:induction false} NextKeeps(s: State, h: History, t: Turn)
    requires Inv(s, h)
    ensures Inv(Next(s, t), Record(h, s, t)) && Record(h, s, t).accepted == h.accepted + Taken(s, t)
  {
    if t.Queue? { QueueKeeps(s, h, t.offer); } else { SendKeeps(s, h); }
  }

  /** What every interleaving keeps. */
  lemma {:induction false} RunKeeps(s: State, h: History, ts: seq<Turn>) returns (h': History)
    requires Inv(s, h)
    ensures Inv(Run(s, ts), h') && h'.accepted == h.accepted + Offers(s, ts)
    decreases |ts|
  {
    if ts == [] {
      h' := h;
    } else {
      NextKeeps(s, h, ts[0]);
      h' := RunKeeps(Next(s, ts[0]), Record(h, s, ts[0]), ts[1..]);
      Assoc(h.accepted, Taken(s, ts[0]), Offers(Next(s, ts[0]), ts[1..]));
    }
  }

  lemma {:induction false} RunFromStart(s: State, ts: seq<Turn>) returns (h: History)
    requires Initial(s)
    ensures Inv(Run(s, ts), h) && h.accepted == Offers(s, ts)
  {
    h := RunKeeps(s, History([], [], 0, 0, 0), ts);
  }

  /** Nothing is left to do: no message, no planned step, and the indices have met. */
  predicate Quiet(s: State) {
    s.producer.Ready? && s.message == [] && s.sender.Waiting? && s.sendGet == s.sendPut
  }

  lemma {:induction false} WireIsPrefix(s: State, h: History)
    requires Inv(s, h)
    ensures s.wire <= h.accepted && (Quiet(s) ==> s.wire == h.accepted)
  {
    assert s.wire <= h.queued;
    if Quiet(s) {
      SlotDistance(h.freed, h.published, SIZE);
      assert h.queued[..|h.queued|] == h.queued && h.queued + [] == h.queued;
    }
  }

  /** In every interleaving the bytes sent are the first of the bytes taken, in their order. */
  lemma {:induction false} SentIsPrefix(s: State, ts: seq<Turn>)
    requires Initial(s)
    ensures Run(s, ts).wire <= Offers(s, ts)
  {
    var h := RunFromStart(s, ts);
    WireIsPrefix(Run(s, ts), h);
  }

  /** When all is quiet, all bytes taken have been sent. */
  lemma {:induction false} QuietIsDelivered(s: State, ts: seq<Turn>)
    requires Initial(s) && Quiet(Run(s, ts))
    ensures Run(s, ts).wire == Offers(s, ts)
  {
    var h := RunFromStart(s, ts);
    WireIsPrefix(Run(s, ts), h);
  }

  // -------------------------------------------------------------------- delivery

  /** How far the sending thread is from having nothing to do. */
  ghost function SenderLeft(s: State, h: History): nat
    requires Inv(s, h)
  {
    match s.sender
    case Waiting => if h.freed == h.published then 0 else SIZE + 3
    case SawOwn(_) => SIZE + 2
    case Sending(_, amount, done) => amount - done + 1
  }

  /** How far the queueing thread is from copying; a read index out of date is of no use. */
  ghost function ProducerLeft(s: State, h: History): nat {
    match s.producer
    case Ready => 2
    case SawGet(_) => if h.seen == h.freed then 1 else 3
    case Copying(_, _, _) => 0
  }

  /** Fewer bytes to copy, or else to publish, or else to send, or else fewer steps up to one of these. */
  ghost predicate Closer(s: State, h: History, s': State, h': History)
    requires Inv(s, h) && Inv(s', h')
  {
    var a, b, c := |s.message|, |h.queued| - h.published, h.published - h.freed;
    var a', b', c' := |s'.message|, |h'.queued| - h'.published, h'.published - h'.freed;
    || a' < a
    || (a' == a && b' < b)
    || (a' == a && b' == b && c' < c)
    || (a' == a && b' == b && c' == c && SenderLeft(s', h') < SenderLeft(s, h))
    || (a' == a && b' == b && c' == c && SenderLeft(s', h') == SenderLeft(s, h)
        && ProducerLeft(s', h') < ProducerLeft(s, h))
  }

  lemma {:induction false} SendIsCloser(s: State, h: History)
    requires Inv(s, h) && !(s.sender.Waiting? && h.freed == h.published)
    ensures Inv(Sent(s), Record(h, s, Send)) && Closer(s, h, Sent(s), Record(h, s, Send))
  {
    SendKeeps(s, h);
    StretchIsQueued(h.freed, h.published);
  }

  lemma {:induction false} QueueIsCloser(s: State, h: History)
    requires Inv(s, h) && s.sender.Waiting? && h.freed == h.published && !(s.producer.Ready? && s.message == [])
    ensures Inv(Queued(s, []), Record(h, s, Queue([]))) && Closer(s, h, Queued(s, []), Record(h, s, Queue([])))
  {
    QueueKeeps(s, h, []);
    if s.producer.SawGet? { RoomExactly(h.seen, h.published); }
  }

  lemma {:induction false} RunConcat(s: State, ts: seq<Turn>, more: seq<Turn>)
    requires Bounded(s)
    ensures Run(s, ts + more) == Run(Run(s, ts), more)
    decreases |ts|
  {
    if ts == [] {
      assert ts + more == more;
    } else {
      assert (ts + more)[0] == ts[0] && (ts + more)[1..] == ts[1..] + more;
      RunConcat(Next(s, ts[0]), ts[1..], more);
    }
  }

  /** Turns that bring nothing new. */
  predicate NoOffers(ts: seq<Turn>) {
    forall i :: 0 <= i < |ts| ==> ts[i] == Send || ts[i] == Queue([])
  }

  /** From every state there is a way to an end. */
  lemma {:induction false} Settles(s: State, h: History) returns (more: seq<Turn>)
    requires Inv(s, h)
    ensures NoOffers(more) && Quiet(Run(s, more)) && Run(s, more).wire == h.accepted
    decreases |s.message|, |h.queued| - h.published, h.published - h.freed, SenderLeft(s, h), ProducerLeft(s, h)
  {
    if Quiet(s) {
      WireIsPrefix(s, h);
      more := [];
    } else {
      var t, h' := Progress(s, h);
      var rest := Settles(Next(s, t), h');
      more := [t] + rest;
      RunFirst(s, t, rest);
    }
  }

  lemma {:induction false} RunFirst(s: State, t: Turn, rest: seq<Turn>)
    requires Bounded(s)
    ensures Run(s, [t] + rest) == Run(Next(s, t), rest)
  {
    assert ([t] + rest)[1..] == rest;
  }

  /** While there is something left to do, one of the threads gets closer to its end. */
  lemma {:induction false} Progress(s: State, h: History) returns (t: Turn, h': History)
    requires Inv(s, h) && !Quiet(s)
    ensures (t == Send || t == Queue([])) && Inv(Next(s, t), h') && Closer(s, h, Next(s, t), h')
    ensures h'.accepted == h.accepted
  {
    SlotDistance(h.freed, h.published, SIZE);
    t := if s.sender.Waiting? && h.freed == h.published then Queue([]) else Send;
    h' := Record(h, s, t);
    if t.Send? { SendIsCloser(s, h); } else { QueueIsCloser(s, h); }
    NextKeeps(s, h, t);
    assert h.accepted + [] == h.accepted;
  }

  /** Whatever was taken in any interleaving, some further turns, without a new offer, bring all of it onto the wire. */
  lemma {:induction false} Delivers(s: State, ts: seq<Turn>) returns (more: seq<Turn>)
    requires Initial(s)
    ensures NoOffers(more) && Quiet(Run(s, ts + more)) && Run(s, ts + more).wire == Offers(s, ts)
  {
    var h := RunFromStart(s, ts);
    more := Settles(Run(s, ts), h);
    RunConcat(s, ts, more);
  }

  /** On an empty ring a message is planned up to 10239 bytes of it. */
  lemma {:induction false} FirstPlan(s: State, offer: seq<byte>)
    requires Initial(s) && offer != []
    ensures
      var amount := if |offer| < 10239 then |offer| else 10239;
      Queued(Queued(Queued(s, offer), []), []) == s.(message := offer, producer := Copying(0, amount, 0))
  {
  }

  // ---------------------------------------------------------------------- the ring

  class Ring {
    const buffer: array<byte>
    var sendPut: nat
    var sendGet: nat
    var message: seq<byte>
    var producer: Producer
    var sender: Sender
    var wire: seq<byte>

    ghost function View(): State
      reads this, buffer
    {
      State(buffer[..], sendPut, sendGet, message, producer, sender, wire)
    }

    ghost predicate Valid()
      reads this, buffer
    {
      Bounded(View())
    }

    constructor ()
      ensures Valid() && fresh(buffer) && Initial(View())
    {
      buffer := new byte[SIZE];
      sendPut, sendGet, message, producer, sender, wire := 0, 0, [], Ready, Waiting, [];
    }

    // ------------------------------------------------------- the queueing thread

    method LoadGet()
      requires Valid() && producer.Ready? && message != []
      modifies this`producer
      ensures View() == Queued(old(View()), [])
    {
      producer := SawGet(sendGet);
    }

    method LoadPut()
      requires Valid() && producer.SawGet?
      modifies this`producer
      ensures View() == Queued(old(View()), [])
    {
      var room := Room(producer.get, sendPut);
      var amount := if |message| < room then |message| else room;
      producer := if amount == 0 then Ready else Copying(sendPut, amount, 0);
    }

    method CopyByte()
      requires Valid() && producer.Copying? && producer.done < producer.amount
      modifies this`message, this`producer, buffer
      ensures View() == Queued(old(View()), [])
    {
      buffer[producer.put + producer.done] := message[0];
      message := message[1..];
      producer := producer.(done := producer.done + 1);
    }

    method StorePut()
      requires Valid() && producer.Copying? && producer.done == producer.amount
      modifies this`sendPut, this`producer
      ensures View() == Queued(old(View()), [])
    {
      sendPut := Position(producer.put + producer.amount, SIZE);
      producer := Ready;
    }

    /** The next step of the queueing thread. */
    method QueueStep(offer: seq<byte>)
      requires Valid()
      modifies this, buffer
      ensures Valid() && View() == Queued(old(View()), offer)
    {
      match producer
      case Ready =>
        if message == [] {
          message := offer;
        } else {
          LoadGet();
        }
      case SawGet(_) => LoadPut();
      case Copying(_, amount, done) =>
        if done < amount {
          CopyByte();
        } else {
          StorePut();
        }
    }

    // -------------------------------------------------------- the sending thread

    /** The next step of the sending thread. */
    method SendStep()
      requires Valid()
      modifies this`sender, this`wire, this`sendGet
      ensures Valid() && View() == Sent(old(View()))
    {
      match sender
      case Waiting => sender := SawOwn(sendGet);
      case SawOwn(get) =>
        var amount := Stretch(get, sendPut);
        sender := if amount == 0 then Waiting else Sending(get, amount, 0);
      case Sending(get, amount, done) =>
        if done < amount {
          wire := wire + [buffer[get + done]];
          sender := Sending(get, amount, done + 1);
        } else {
          sendGet := Position(get + amount, SIZE);
          sender := Waiting;
        }
    }
  }

  /**
   Plays an interleaving: the ring ends as the turns make it, and what is on the
   wire is the first of the offers taken, all of them once everything is quiet.
   */
  method Interleave(ts: seq<Turn>) returns (ring: Ring, ghost start: State)
    ensures Initial(start) && ring.Valid() && ring.View() == Run(start, ts)
    ensures ring.wire <= Offers(start, ts) && (Quiet(ring.View()) ==> ring.wire == Offers(start, ts))
  {
    ring := new Ring();
    start := ring.View();
    assert ts[0..] == ts;
    for i := 0 to |ts|
      invariant ring.Valid() && fresh(ring) && fresh(ring.buffer) && Run(ring.View(), ts[i..]) == Run(start, ts)
    {
      assert ts[i..][0] == ts[i] && ts[i..][1..] == ts[i + 1..];
      match ts[i]
      case Queue(offer) => ring.QueueStep(offer);
      case Send => ring.SendStep();
    }
    assert ts[|ts|..] == [];
    SentIsPrefix(start, ts);
    if Quiet(Run(start, ts)) { QuietIsDelivered(start, ts); }
  }
}
