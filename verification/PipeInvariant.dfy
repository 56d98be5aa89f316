/** What every reachable state of the pipe satisfies: the geometry of the reservations in the ring,
    the bytes they hold, and who is responsible for publishing each of them. */
module PipeInvariant {
  import opened Options
  import opened PipeBytes
  import opened PipeProtocol

  // ---------------------------------------------------------------- positions

  function Length(cfg: Config, r: Reservation): (n: nat) { cfg.offset + |r.msg.content| }

  function End(cfg: Config, r: Reservation): (n: nat) { r.start + Length(cfg, r) }

  function StartPos(log: seq<Reservation>, i: nat): (p: Pace)
    requires i < |log|
  {
    Pace(log[i].lap, log[i].start)
  }

  /** Where `to` stands after the first i reservations. */
  function EndPos(cfg: Config, log: seq<Reservation>, i: nat): (p: Pace)
    requires i <= |log|
  {
    if i == 0 then Pace(0, 0) else Pace(log[i - 1].lap, End(cfg, log[i - 1]))
  }

  /** Reservation i starts a new lap. */
  predicate Rewinder(log: seq<Reservation>, i: nat)
    requires i < |log|
  {
    0 < i && log[i].lap == log[i - 1].lap + 1
  }

  ghost predicate Chained(cfg: Config, log: seq<Reservation>) {
    forall i :: 0 <= i < |log| ==> Link(cfg, log, i)
  }

  predicate Link(cfg: Config, log: seq<Reservation>, i: nat)
    requires i < |log|
  {
    Legal(cfg, log[i].msg) && End(cfg, log[i]) <= cfg.size &&
    (StartPos(log, i) == EndPos(cfg, log, i) || (Rewinder(log, i) && log[i].start == 0))
  }

  // ---------------------------------------------------------------- parts of the invariant

  function ReceiverPos(st: State): (p: Pace) { Pace(st.hist.receiverLap, st.mem.receiver) }

  function Consumed(st: State): (n: nat) { |st.hist.got| }

  /** A position is the boundary before reservation i: behind its predecessor or, past the unused
      tail of a lap, at its own start. */
  predicate AtBoundary(cfg: Config, log: seq<Reservation>, p: Pace, i: nat)
    requires i <= |log|
  {
    p == EndPos(cfg, log, i) || (i < |log| && p == StartPos(log, i))
  }

  /** `to` is at most one lap ahead of the receiver and then strictly below it. */
  predicate Window(to: Pace, receiver: Pace) {
    (to.lap == receiver.lap && receiver.ptr <= to.ptr) || (to.lap == receiver.lap + 1 && to.ptr < receiver.ptr)
  }

  ghost predicate Geometry(cfg: Config, st: State) {
    var log := st.hist.log;
    cfg.Ok() && Chained(cfg, log) &&
    Consumed(st) <= st.hist.published <= |log| &&
    st.mem.to == EndPos(cfg, log, |log|) &&
    AtBoundary(cfg, log, st.mem.from, st.hist.published) &&
    AtBoundary(cfg, log, ReceiverPos(st), Consumed(st)) &&
    Le(ReceiverPos(st), st.mem.from) &&
    Window(st.mem.to, ReceiverPos(st)) &&
    (st.holding ==> Consumed(st) < st.hist.published && ReceiverPos(st) == StartPos(log, Consumed(st)))
  }

  function StageBytes(cfg: Config, r: Reservation): (s: seq<Byte>)
    requires |r.msg.content| < MASK_NOT_WRITING
  {
    match r.stage
    case Empty => Blanks(Length(cfg, r))
    case Filled => Image(r.msg, false)
    case Ready => Image(r.msg, true)
  }

  predicate Covers(cfg: Config, r: Reservation, b: int) { r.start <= b < End(cfg, r) }

  ghost predicate Holds(cfg: Config, buf: seq<Byte>, r: Reservation) {
    |r.msg.content| < MASK_NOT_WRITING && End(cfg, r) <= |buf| && buf[r.start..End(cfg, r)] == StageBytes(cfg, r)
  }

  ghost predicate Uncovered(cfg: Config, log: seq<Reservation>, done: nat, b: int) {
    forall i :: done <= i < |log| ==> !Covers(cfg, log[i], b)
  }

  /** Unconsumed reservations hold the bytes their stage says; every other byte is blank. */
  ghost predicate Contents(cfg: Config, buf: seq<Byte>, log: seq<Reservation>, done: nat) {
    |buf| == cfg.size &&
    (forall i :: done <= i < |log| ==> Holds(cfg, buf, log[i])) &&
    (forall b :: 0 <= b < |buf| && Uncovered(cfg, log, done, b) ==> buf[b] == BLANK_BYTE)
  }

  /** The log position owned by sender s, which is at a point where it owns one. */
  ghost predicate Owns(st: State, s: SenderId, i: nat) {
    s in st.hist.own && st.hist.own[s] == i && i < |st.hist.log| && st.hist.log[i].sender == s &&
    st.hist.published <= i
  }

  function RewindPoint(cfg: Config, log: seq<Reservation>, i: nat): (b: Option<nat>)
    requires i < |log|
  {
    if Rewinder(log, i) then Some(EndPos(cfg, log, i).ptr) else None
  }

  ghost predicate SenderOk(cfg: Config, st: State, s: SenderId)
    requires s in st.senders && Geometry(cfg, st)
  {
    var log := st.hist.log;
    match st.senders[s]
    case Looked(msg, to, receiver) =>
      Legal(cfg, msg) && Le(to, st.mem.to) && s in st.hist.seenLap && receiver <= cfg.size &&
      (to == st.mem.to ==>
         Le(Pace(st.hist.seenLap[s], receiver), ReceiverPos(st)) && Window(to, Pace(st.hist.seenLap[s], receiver)))
    case Reserved(msg, start, before) =>
      s in st.hist.own && Owns(st, s, st.hist.own[s]) &&
      var r := log[st.hist.own[s]];
      r.stage == Empty && r.msg == msg && r.start == start && before == RewindPoint(cfg, log, st.hist.own[s])
    case Written(start, before) =>
      s in st.hist.own && Owns(st, s, st.hist.own[s]) &&
      var r := log[st.hist.own[s]];
      r.stage == Filled && r.start == start && before == RewindPoint(cfg, log, st.hist.own[s])
    case Spinning(before, lap) =>
      s in st.hist.own && Owns(st, s, st.hist.own[s]) &&
      var r := log[st.hist.own[s]];
      r.stage == Ready && Rewinder(log, st.hist.own[s]) && before == RewindPoint(cfg, log, st.hist.own[s]) &&
      lap + 1 == r.lap && st.mem.from.lap == lap
    case Publishing(seen, next) =>
      Le(seen, st.mem.from) &&
      (seen == st.mem.from ==>
         st.hist.published < |log| && log[st.hist.published].stage == Ready &&
         StartPos(log, st.hist.published) == seen && next == End(cfg, log[st.hist.published]))
    case CatchingUp(at) => Le(at, st.mem.from)
  }

  /** Every reservation that is not ready, and every ready rewinder that `from` has not been moved to,
      still has its sender at work; published ones are ready. */
  ghost predicate Attended(cfg: Config, st: State, i: nat)
    requires i < |st.hist.log|
  {
    var r := st.hist.log[i];
    (i < st.hist.published ==> r.stage == Ready) &&
    (r.stage == Empty ==> r.sender in st.senders && st.senders[r.sender].Reserved? && Owns(st, r.sender, i)) &&
    (r.stage == Filled ==> r.sender in st.senders && st.senders[r.sender].Written? && Owns(st, r.sender, i)) &&
    (r.stage == Ready && Rewinder(st.hist.log, i) && Lt(st.mem.from, StartPos(st.hist.log, i)) ==>
       r.sender in st.senders && st.senders[r.sender].Spinning? && Owns(st, r.sender, i))
  }

  /** When the next message to publish is ready and `from` points at it, some sender is about to
      publish it or about to look at it. */
  ghost predicate Tended(cfg: Config, st: State)
    requires Geometry(cfg, st)
  {
    var h := st.hist;
    h.published < |h.log| && h.log[h.published].stage == Ready && st.mem.from == StartPos(h.log, h.published) ==>
      h.responsible in st.senders &&
      (st.senders[h.responsible] == Publishing(st.mem.from, End(cfg, h.log[h.published])) ||
       st.senders[h.responsible] == CatchingUp(st.mem.from))
  }

  ghost predicate SendersOk(cfg: Config, st: State)
    requires Geometry(cfg, st)
  {
    forall s :: s in st.senders ==> SenderOk(cfg, st, s)
  }

  ghost predicate AllAttended(cfg: Config, st: State) {
    forall i :: 0 <= i < |st.hist.log| ==> Attended(cfg, st, i)
  }

  /** What has been handed to the receiver is what was reserved, in that order. */
  ghost predicate InOrder(st: State) {
    Consumed(st) <= |st.hist.log| && forall i :: 0 <= i < Consumed(st) ==> st.hist.got[i] == st.hist.log[i].msg
  }

  ghost predicate Inv(cfg: Config, st: State) {
    Geometry(cfg, st) && Contents(cfg, st.mem.buf, st.hist.log, Consumed(st)) &&
    SendersOk(cfg, st) && AllAttended(cfg, st) && Tended(cfg, st) && InOrder(st)
  }

  // ---------------------------------------------------------------- order of positions

  lemma {:induction false} EndPosMonotone(cfg: Config, log: seq<Reservation>, i: nat, j: nat)
    requires Chained(cfg, log) && i <= j <= |log|
    ensures Le(EndPos(cfg, log, i), EndPos(cfg, log, j))
    ensures i < |log| ==> Le(EndPos(cfg, log, i), StartPos(log, i))
    decreases j - i
  {
    if i < |log| {
      assert Link(cfg, log, i);
      if i < j {
        EndPosMonotone(cfg, log, i + 1, j);
      }
    }
  }

  lemma StartsOrdered(cfg: Config, log: seq<Reservation>, i: nat, j: nat)
    requires Chained(cfg, log) && cfg.Ok() && i < j < |log|
    ensures Le(EndPos(cfg, log, i + 1), StartPos(log, j)) && Lt(StartPos(log, i), StartPos(log, j))
  {
    EndPosMonotone(cfg, log, i + 1, j);
    EndPosMonotone(cfg, log, j, j);
  }

  /** Where an unconsumed reservation lies: on the receiver's lap at or after it, or on the next lap
      and before it. */
  lemma Located(cfg: Config, st: State, i: nat)
    requires Geometry(cfg, st) && Consumed(st) <= i < |st.hist.log|
    ensures var r := st.hist.log[i];
            (r.lap == st.hist.receiverLap && st.mem.receiver <= r.start) ||
            (r.lap == st.hist.receiverLap + 1 && End(cfg, r) < st.mem.receiver && st.mem.to.lap == r.lap)
    ensures Le(ReceiverPos(st), StartPos(st.hist.log, i))
    ensures Le(EndPos(cfg, st.hist.log, i + 1), st.mem.to)
  {
    var log := st.hist.log;
    EndPosMonotone(cfg, log, Consumed(st), i);
    EndPosMonotone(cfg, log, i, i);
    EndPosMonotone(cfg, log, i + 1, |log|);
    if Consumed(st) < i {
      StartsOrdered(cfg, log, Consumed(st), i);
    }
  }

  /** Unconsumed reservations never overlap. */
  lemma Disjoint(cfg: Config, st: State, i: nat, j: nat)
    requires Geometry(cfg, st) && Consumed(st) <= i < j < |st.hist.log|
    ensures End(cfg, st.hist.log[i]) <= st.hist.log[j].start || End(cfg, st.hist.log[j]) <= st.hist.log[i].start
  {
    Located(cfg, st, i);
    Located(cfg, st, j);
    StartsOrdered(cfg, st.hist.log, i, j);
  }

  /** Against the reservations not yet published: `from` is before each of them, and points at one only
      when that is the next to publish and `from` is on its lap. */
  lemma FromAhead(cfg: Config, st: State, i: nat)
    requires Geometry(cfg, st) && st.hist.published <= i < |st.hist.log|
    ensures Le(st.mem.from, StartPos(st.hist.log, i))
    ensures st.mem.from.ptr == st.hist.log[i].start ==>
            i == st.hist.published && st.mem.from == StartPos(st.hist.log, i)
    ensures Le(EndPos(cfg, st.hist.log, i + 1), st.mem.to)
    ensures st.hist.log[i].lap <= st.mem.from.lap + 1
  {
    var log := st.hist.log;
    var p := st.hist.published;
    Located(cfg, st, i);
    EndPosMonotone(cfg, log, p, p);
    if p < i {
      StartsOrdered(cfg, log, p, i);
    }
    assert Link(cfg, log, i);
    if 0 < p {
      assert Link(cfg, log, p - 1);
    }
  }

  /** `from` never points where `to` points while a message is still to be published. */
  lemma FromBelowTo(cfg: Config, st: State)
    requires Geometry(cfg, st)
    ensures Le(st.mem.from, st.mem.to)
    ensures st.hist.published < |st.hist.log| ==> st.mem.from.ptr != st.mem.to.ptr
    ensures st.hist.published == |st.hist.log| ==> st.mem.from == st.mem.to
  {
    if st.hist.published < |st.hist.log| {
      FromAhead(cfg, st, st.hist.published);
    }
  }
}
