/** The multi-producer, single-consumer byte ring as a step protocol.

    Shared memory is what the C++ object holds: the byte buffer, the receiver's position and the
    two sender positions. A sender position packs a pointer and a version number into one word;
    here it is a pair of an offset and an unbounded lap number.

    A step is one atomic action of one thread. Any number of senders may be in flight; `senders`
    gives the program point of each one that is inside SendMsg_. */
module PipeProtocol {
  import opened Options
  import opened PipeBytes

  /** size_pipe_, kMsgOffset and max_size_content_. */
  datatype Config = Config(size: nat, offset: nat, maxContent: nat) {
    /** Init accepts the sizes; a header holds at least its own 32-bit size word; and no content
        size can be confused with the blank word once the not-writing bit is set. */
    predicate Ok() {
      4 <= offset && maxContent + offset < size && maxContent < MASK_NOT_WRITING - 1
    }
  }

  /** sender_pace_from_ or sender_pace_to_: a pointer with the lap (version) it belongs to. */
  datatype Pace = Pace(lap: nat, ptr: nat)

  predicate Le(a: Pace, b: Pace) { a.lap < b.lap || (a.lap == b.lap && a.ptr <= b.ptr) }

  predicate Lt(a: Pace, b: Pace) { a.lap < b.lap || (a.lap == b.lap && a.ptr < b.ptr) }

  datatype Message = Message(header: seq<Byte>, content: seq<Byte>)

  predicate Legal(cfg: Config, msg: Message) {
    4 <= cfg.offset && |msg.header| == cfg.offset - 4 && |msg.content| <= cfg.maxContent
  }

  datatype Shared = Shared(buf: seq<Byte>, receiver: nat, from: Pace, to: Pace)

  type SenderId = nat

  /** Where a sender is inside SendMsg_, with the local variables it still needs. */
  datatype Point =
    | Looked(msg: Message, to: Pace, receiver: nat)            // has read `to` and the receiver, not yet done the CAS
    | Reserved(msg: Message, start: nat, before: Option<nat>)  // owns the bytes from `start`, nothing written
    | Written(start: nat, before: Option<nat>)                 // header, size and content written
    | Spinning(before: Option<nat>, lap: nat)                  // waits for `from` to reach the rewind point
    | Publishing(seen: Pace, next: nat)                        // is about to CAS `from` from seen to next
    | CatchingUp(at: Pace)                                     // is about to test the message behind its own

  // ---------------------------------------------------------------- reading headers

  /** The size word of a header at p. A tail too short for a header counts as blank: the receiver
      tests for it, and the catch-up loop is taken to do the same. */
  function SizeWord(cfg: Config, buf: seq<Byte>, p: nat): (w: nat)
    requires 4 <= cfg.offset
  {
    if p + cfg.offset <= |buf| then Decode32(buf[p + cfg.offset - 4..p + cfg.offset]) else BLANK_WORD
  }

  predicate IsBlank(w: nat) { w == BLANK_WORD }

  predicate IsReady(w: nat) { !IsBlank(w) && MASK_NOT_WRITING <= w }

  /** Header plus content length, for a word that is not blank. */
  function MsgSize(cfg: Config, w: nat): (n: nat) { cfg.offset + w % MASK_NOT_WRITING }

  // ---------------------------------------------------------------- sender decisions

  datatype Place = Place(start: nat, next: Pace, before: Option<nat>)

  /** What ReserveSpaceForSend_ tries to claim, from the values of `to` and the receiver it read. */
  function Decide(cfg: Config, to: Pace, receiver: nat, sizeContent: nat): (r: Option<Place>) {
    var need := cfg.offset + sizeContent;
    if to.ptr >= receiver then
      if to.ptr + need <= cfg.size then
        Some(Place(to.ptr, Pace(to.lap, to.ptr + need), None))
      else if need < receiver then
        Some(Place(0, Pace(to.lap + 1, need), Some(to.ptr)))
      else
        None
    else if to.ptr + need < receiver then
      Some(Place(to.ptr, Pace(to.lap, to.ptr + need), None))
    else
      None
  }

  function Image(msg: Message, ready: bool): (s: seq<Byte>)
    requires |msg.content| < MASK_NOT_WRITING
    ensures |s| == |msg.header| + 4 + |msg.content|
  {
    msg.header + Encode32(|msg.content| + if ready then MASK_NOT_WRITING else 0) + msg.content
  }

  /** msg->size |= kMaskNotWriting */
  function SetReady(cfg: Config, buf: seq<Byte>, start: nat): (r: seq<Byte>)
    requires 4 <= cfg.offset && start + cfg.offset <= |buf|
    ensures |r| == |buf|
  {
    var w := SizeWord(cfg, buf, start);
    Splice(buf, start + cfg.offset - 4, Encode32(w % MASK_NOT_WRITING + MASK_NOT_WRITING))
  }

  /** What a sender does after its first look at `from`; None means it is done. */
  function AfterReady(cfg: Config, mem: Shared, start: nat, before: Option<nat>): (r: Option<Point>)
    requires 4 <= cfg.offset
  {
    if mem.from.ptr == start then TryPublish(cfg, mem, mem.from)
    else if start == 0 then Some(Spinning(before, mem.from.lap))
    else None
  }

  /** Computes the CAS that publishes the message at `at`. */
  function TryPublish(cfg: Config, mem: Shared, at: Pace): (r: Option<Point>)
    requires 4 <= cfg.offset
  {
    var w := SizeWord(cfg, mem.buf, at.ptr);
    if IsBlank(w) then None else Some(Publishing(at, at.ptr + MsgSize(cfg, w)))
  }

  function AfterCheck(cfg: Config, mem: Shared, at: Pace): (r: Option<Point>)
    requires 4 <= cfg.offset
  {
    if at.ptr != mem.to.ptr && IsReady(SizeWord(cfg, mem.buf, at.ptr)) then TryPublish(cfg, mem, at) else None
  }

  // ---------------------------------------------------------------- the receiver

  /** HasTodoMPSCFixedPipeMsg_: the answer and the receiver's new position. */
  function HasTodo(cfg: Config, mem: Shared): (r: (bool, nat))
    requires 4 <= cfg.offset
  {
    if mem.receiver < mem.from.ptr then (true, mem.receiver)
    else if mem.from.ptr == mem.receiver then (false, mem.receiver)
    else if IsBlank(SizeWord(cfg, mem.buf, mem.receiver)) then (mem.from.ptr != 0, 0)
    else (true, mem.receiver)
  }

  /** The message the receiver is handed a pointer to. */
  function Delivered(cfg: Config, buf: seq<Byte>, p: nat): (msg: Message)
    requires 4 <= cfg.offset && p + MsgSize(cfg, SizeWord(cfg, buf, p)) <= |buf|
  {
    Message(buf[p..p + cfg.offset - 4], buf[p + cfg.offset..p + MsgSize(cfg, SizeWord(cfg, buf, p))])
  }

  // ---------------------------------------------------------------- states with history

  datatype Stage = Empty | Filled | Ready

  /** One successful reservation: which message, where, and how far its sender has got. */
  datatype Reservation = Reservation(sender: SenderId, msg: Message, start: nat, lap: nat, stage: Stage)

  /** Observations of a run. No step reads them: they record what happened.
      `log` lists reservations in the order of their CAS; `got` lists what the receiver was handed. */
  datatype History = History(
    log: seq<Reservation>,
    got: seq<Message>,
    published: nat,
    receiverLap: nat,
    own: map<SenderId, nat>,
    seenLap: map<SenderId, nat>,
    responsible: SenderId)

  datatype State = State(mem: Shared, senders: map<SenderId, Point>, holding: bool, hist: History)

  function Initial(cfg: Config): (st: State) {
    State(Shared(Blanks(cfg.size), 0, Pace(0, 0), Pace(0, 0)), map[], false,
          History([], [], 0, 0, map[], map[], 0))
  }

  datatype Event =
    | Look(s: SenderId, msg: Message)
    | Reserve(s: SenderId)
    | Write(s: SenderId)
    | MarkReady(s: SenderId)
    | Rewind(s: SenderId)
    | Cas(s: SenderId)
    | Check(s: SenderId)
    | Receive
    | Consume

  function Put(st: State, s: SenderId, p: Option<Point>): (r: State) {
    st.(senders := if p.Some? then st.senders[s := p.value] else st.senders - {s})
  }

  function At(st: State, s: SenderId): (p: Option<Point>) {
    if s in st.senders then Some(st.senders[s]) else None
  }

  /** Whether the event can happen in the state: its thread is at that program point. */
  predicate Enabled(cfg: Config, st: State, e: Event) {
    match e
    case Look(s, msg) => s !in st.senders && Legal(cfg, msg)
    case Reserve(s) => s in st.senders && st.senders[s].Looked?
    case Write(s) => s in st.senders && st.senders[s].Reserved?
    case MarkReady(s) => s in st.senders && st.senders[s].Written?
    case Rewind(s) => s in st.senders && st.senders[s].Spinning? && st.senders[s].before == Some(st.mem.from.ptr)
    case Cas(s) => s in st.senders && st.senders[s].Publishing?
    case Check(s) => s in st.senders && st.senders[s].CatchingUp?
    case Receive => true
    case Consume => st.holding
  }

  /** The memory accesses of the code stay inside the buffer. */
  predicate InBounds(cfg: Config, st: State, e: Event)
    requires Enabled(cfg, st, e)
  {
    4 <= cfg.offset &&
    match e
    case Write(s) =>
      var p := st.senders[s];
      |p.msg.content| < MASK_NOT_WRITING && p.start + |p.msg.header| + 4 + |p.msg.content| <= |st.mem.buf|
    case MarkReady(s) => st.senders[s].start + cfg.offset <= |st.mem.buf|
    case Consume => st.mem.receiver + MsgSize(cfg, SizeWord(cfg, st.mem.buf, st.mem.receiver)) <= |st.mem.buf|
    case _ => true
  }

  function Step(cfg: Config, st: State, e: Event): (r: State)
    requires Enabled(cfg, st, e) && InBounds(cfg, st, e)
  {
    match e
    case Look(s, msg) => StepLook(st, s, msg)
    case Reserve(s) => StepReserve(cfg, st, s)
    case Write(s) => StepWrite(cfg, st, s)
    case MarkReady(s) => StepReady(cfg, st, s)
    case Rewind(s) => StepRewind(cfg, st, s)
    case Cas(s) => StepCas(st, s)
    case Check(s) => StepCheck(cfg, st, s)
    case Receive => StepReceive(cfg, st)
    case Consume => StepConsume(cfg, st)
  }

  function StepLook(st: State, s: SenderId, msg: Message): (r: State) {
    Put(st, s, Some(Looked(msg, st.mem.to, st.mem.receiver)))
      .(hist := st.hist.(seenLap := st.hist.seenLap[s := st.hist.receiverLap]))
  }

  function StepReserve(cfg: Config, st: State, s: SenderId): (r: State)
    requires s in st.senders && st.senders[s].Looked?
  {
    var p := st.senders[s];
    var d := Decide(cfg, p.to, p.receiver, |p.msg.content|);
    if d.None? || p.to != st.mem.to then Put(st, s, None)
    else
      Put(st, s, Some(Reserved(p.msg, d.value.start, d.value.before)))
        .(mem := st.mem.(to := d.value.next),
          hist := st.hist.(
            log := st.hist.log + [Reservation(s, p.msg, d.value.start, d.value.next.lap, Empty)],
            own := st.hist.own[s := |st.hist.log|]))
  }

  function Mark(h: History, s: SenderId, stage: Stage): (r: History) {
    if s in h.own && h.own[s] < |h.log| then
      h.(log := h.log[h.own[s] := h.log[h.own[s]].(stage := stage)])
    else h
  }

  function StepWrite(cfg: Config, st: State, s: SenderId): (r: State)
    requires Enabled(cfg, st, Write(s)) && InBounds(cfg, st, Write(s))
  {
    var p := st.senders[s];
    Put(st, s, Some(Written(p.start, p.before)))
      .(mem := st.mem.(buf := Splice(st.mem.buf, p.start, Image(p.msg, false))),
        hist := Mark(st.hist, s, Filled))
  }

  function StepReady(cfg: Config, st: State, s: SenderId): (r: State)
    requires Enabled(cfg, st, MarkReady(s)) && InBounds(cfg, st, MarkReady(s))
  {
    var p := st.senders[s];
    var mem := st.mem.(buf := SetReady(cfg, st.mem.buf, p.start));
    var next := AfterReady(cfg, mem, p.start, p.before);
    var h := Mark(st.hist, s, Ready);
    Put(st, s, next).(mem := mem,
                      hist := if next.Some? && next.value.Publishing? then h.(responsible := s) else h)
  }

  function StepRewind(cfg: Config, st: State, s: SenderId): (r: State)
    requires 4 <= cfg.offset && s in st.senders && st.senders[s].Spinning?
  {
    var mem := st.mem.(from := Pace(st.senders[s].lap + 1, 0));
    Put(st, s, TryPublish(cfg, mem, mem.from)).(mem := mem, hist := st.hist.(responsible := s))
  }

  function StepCas(st: State, s: SenderId): (r: State)
    requires s in st.senders && st.senders[s].Publishing?
  {
    var p := st.senders[s];
    if st.mem.from != p.seen then Put(st, s, None)
    else
      var from := Pace(p.seen.lap, p.next);
      Put(st, s, Some(CatchingUp(from)))
        .(mem := st.mem.(from := from),
          hist := st.hist.(published := st.hist.published + 1, responsible := s))
  }

  function StepCheck(cfg: Config, st: State, s: SenderId): (r: State)
    requires 4 <= cfg.offset && s in st.senders && st.senders[s].CatchingUp?
  {
    Put(st, s, AfterCheck(cfg, st.mem, st.senders[s].at))
  }

  function StepReceive(cfg: Config, st: State): (r: State)
    requires 4 <= cfg.offset
  {
    var (todo, receiver) := HasTodo(cfg, st.mem);
    st.(mem := st.mem.(receiver := receiver),
        holding := todo,
        hist := if receiver < st.mem.receiver
                then st.hist.(receiverLap := st.hist.receiverLap + 1) else st.hist)
  }

  function StepConsume(cfg: Config, st: State): (r: State)
    requires Enabled(cfg, st, Consume) && InBounds(cfg, st, Consume)
  {
    var n := MsgSize(cfg, SizeWord(cfg, st.mem.buf, st.mem.receiver));
    st.(mem := st.mem.(buf := Splice(st.mem.buf, st.mem.receiver, Blanks(n)), receiver := st.mem.receiver + n),
        holding := false,
        hist := st.hist.(got := st.hist.got + [Delivered(cfg, st.mem.buf, st.mem.receiver)]))
  }

  // ---------------------------------------------------------------- runs

  /** The state after the events of `run`, or None when one of them cannot happen where it stands. */
  function Exec(cfg: Config, run: seq<Event>): (r: Option<State>) {
    if run == [] then Some(Initial(cfg))
    else
      var e := run[|run| - 1];
      match Exec(cfg, run[..|run| - 1])
      case None => None
      case Some(prev) => if Enabled(cfg, prev, e) && InBounds(cfg, prev, e) then Some(Step(cfg, prev, e)) else None
  }
}
