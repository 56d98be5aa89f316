/** What the pipe promises, over every run with any number of senders. */
module PipeTheorems {
  import opened Options
  import opened PipeBytes
  import opened PipeProtocol
  import opened PipeInvariant
  import opened PipeSteps

  lemma StepInv(cfg: Config, st: State, e: Event)
    requires Inv(cfg, st) && Enabled(cfg, st, e)
    ensures InBounds(cfg, st, e) && Inv(cfg, Step(cfg, st, e))
  {
    match e
    case Look(s, msg) => LookInv(cfg, st, s, msg);
    case Reserve(s) => ReserveInv(cfg, st, s);
    case Write(s) => WriteInv(cfg, st, s);
    case MarkReady(s) => ReadyInv(cfg, st, s);
    case Rewind(s) => RewindInv(cfg, st, s);
    case Cas(s) => CasInv(cfg, st, s);
    case Check(s) => CheckInv(cfg, st, s);
    case Receive => ReceiveInv(cfg, st);
    case Consume => ConsumeInv(cfg, st);
  }

  predicate Run(cfg: Config, run: seq<Event>) { cfg.Ok() && Exec(cfg, run).Some? }

  function After(cfg: Config, run: seq<Event>): (st: State)
    requires Run(cfg, run)
  {
    Exec(cfg, run).value
  }

  lemma {:induction false} RunInv(cfg: Config, run: seq<Event>)
    requires Run(cfg, run)
    ensures Inv(cfg, After(cfg, run))
  {
    if run == [] {
      InitialInv(cfg);
    } else {
      RunInv(cfg, run[..|run| - 1]);
      StepInv(cfg, After(cfg, run[..|run| - 1]), run[|run| - 1]);
    }
  }

  /** No run is cut short: an event whose thread stands at it can always happen, with every byte it touches
      inside the pipe. */
  lemma RunExtends(cfg: Config, run: seq<Event>, e: Event)
    requires Run(cfg, run) && Enabled(cfg, After(cfg, run), e)
    ensures InBounds(cfg, After(cfg, run), e)
    ensures Run(cfg, run + [e]) && After(cfg, run + [e]) == Step(cfg, After(cfg, run), e)
  {
    RunInv(cfg, run);
    StepInv(cfg, After(cfg, run), e);
    assert (run + [e])[..|run|] == run;
  }

  // ---------------------------------------------------------------- first in, first out

  /** The messages sent, in the order in which `to` was moved over them. */
  function Sent(cfg: Config, run: seq<Event>): (s: seq<Message>)
    requires Run(cfg, run)
  {
    if run == [] then []
    else
      var front, e := run[..|run| - 1], run[|run| - 1];
      var before := After(cfg, front);
      Sent(cfg, front) +
      if e.Reserve? && before.mem.to != After(cfg, run).mem.to then [before.senders[e.s].msg] else []
  }

  /** What the receiver read through the pointer it was given, message by message. */
  function Taken(cfg: Config, run: seq<Event>): (s: seq<Message>)
    requires Run(cfg, run)
  {
    if run == [] then []
    else
      var front, e := run[..|run| - 1], run[|run| - 1];
      var mem := After(cfg, front).mem;
      Taken(cfg, front) + if e.Consume? then [Delivered(cfg, mem.buf, mem.receiver)] else []
  }

  lemma StepGot(cfg: Config, st: State, e: Event)
    requires Enabled(cfg, st, e) && InBounds(cfg, st, e)
    ensures Step(cfg, st, e).hist.got ==
            st.hist.got + if e.Consume? then [Delivered(cfg, st.mem.buf, st.mem.receiver)] else []
  {
  }

  lemma {:induction false} TakenIsGot(cfg: Config, run: seq<Event>)
    requires Run(cfg, run)
    ensures Taken(cfg, run) == After(cfg, run).hist.got
  {
    if run != [] {
      TakenIsGot(cfg, run[..|run| - 1]);
      StepGot(cfg, After(cfg, run[..|run| - 1]), run[|run| - 1]);
    }
  }

  lemma {:induction false} SentIsLog(cfg: Config, run: seq<Event>)
    requires Run(cfg, run)
    ensures |Sent(cfg, run)| == |After(cfg, run).hist.log|
    ensures forall i :: 0 <= i < |Sent(cfg, run)| ==> Sent(cfg, run)[i] == After(cfg, run).hist.log[i].msg
  {
    if run != [] {
      var front, e := run[..|run| - 1], run[|run| - 1];
      SentIsLog(cfg, front);
      if e.Reserve? {
        ReserveInRun(cfg, front, e.s);
      } else {
        OtherLog(cfg, After(cfg, front), e);
      }
    }
  }

  lemma MarkKeeps(h: History, s: SenderId, stage: Stage)
    ensures |Mark(h, s, stage).log| == |h.log|
    ensures forall i :: 0 <= i < |h.log| ==> Mark(h, s, stage).log[i].msg == h.log[i].msg
  {
  }

  lemma OtherLog(cfg: Config, st: State, e: Event)
    requires Enabled(cfg, st, e) && InBounds(cfg, st, e) && !e.Reserve?
    ensures var log, log' := st.hist.log, Step(cfg, st, e).hist.log;
            |log'| == |log| && forall i :: 0 <= i < |log| ==> log'[i].msg == log[i].msg
  {
    if e.Write? { MarkKeeps(st.hist, e.s, Filled); }
    if e.MarkReady? { MarkKeeps(st.hist, e.s, Ready); }
  }

  lemma ReserveInRun(cfg: Config, run: seq<Event>, s: SenderId)
    requires Run(cfg, run) && Enabled(cfg, After(cfg, run), Reserve(s))
    ensures LogFollows(After(cfg, run), StepReserve(cfg, After(cfg, run), s), s)
  {
    RunInv(cfg, run);
    assert SenderOk(cfg, After(cfg, run), s);
    ReserveLog(cfg, After(cfg, run), s);
  }

  /** The log has one message more exactly when `to` has moved. */
  ghost predicate LogFollows(st: State, st': State, s: SenderId)
    requires s in st.senders && st.senders[s].Looked?
  {
    if st.mem.to != st'.mem.to
    then |st'.hist.log| == |st.hist.log| + 1 && st'.hist.log[..|st.hist.log|] == st.hist.log &&
         st'.hist.log[|st.hist.log|].msg == st.senders[s].msg
    else st'.hist.log == st.hist.log
  }

  /** The CAS on `to` that succeeds is the one step that appends to the log. */
  lemma ReserveLog(cfg: Config, st: State, s: SenderId)
    requires Geometry(cfg, st) && s in st.senders && st.senders[s].Looked? && SenderOk(cfg, st, s)
    ensures LogFollows(st, StepReserve(cfg, st, s), s)
  {
    if Claims(cfg, st, s) {
      var p := st.senders[s];
      ClaimSafe(cfg, st.mem.to, Pace(st.hist.seenLap[s], p.receiver), ReceiverPos(st), |p.msg.content|);
    }
  }

  /** First in, first out, exactly once and intact: what the receiver has taken is a prefix of what was sent. */
  lemma Fifo(cfg: Config, run: seq<Event>)
    requires Run(cfg, run)
    ensures Taken(cfg, run) <= Sent(cfg, run)
  {
    RunInv(cfg, run);
    TakenIsGot(cfg, run);
    SentIsLog(cfg, run);
  }

  // ---------------------------------------------------------------- geometry

  /** Unconsumed reservations lie inside the pipe and apart from each other; every byte outside them is blank;
      `to` stands at the receiver only when the pipe is empty. */
  lemma RingGeometry(cfg: Config, run: seq<Event>)
    requires Run(cfg, run)
    ensures var st := After(cfg, run);
            var log, c := st.hist.log, Consumed(st);
            c <= |log| && |st.mem.buf| == cfg.size &&
            (forall i :: c <= i < |log| ==> End(cfg, log[i]) <= cfg.size) &&
            (forall i, j :: c <= i < j < |log| ==>
               End(cfg, log[i]) <= log[j].start || End(cfg, log[j]) <= log[i].start) &&
            (forall b :: 0 <= b < cfg.size && Uncovered(cfg, log, c, b) ==> st.mem.buf[b] == BLANK_BYTE) &&
            (st.mem.to.ptr == st.mem.receiver <==> c == |log|)
  {
    RunInv(cfg, run);
    var st := After(cfg, run);
    var log, c := st.hist.log, Consumed(st);
    forall i | c <= i < |log| ensures End(cfg, log[i]) <= cfg.size {
      assert Link(cfg, log, i);
    }
    forall i, j | c <= i < j < |log| ensures End(cfg, log[i]) <= log[j].start || End(cfg, log[j]) <= log[i].start {
      Disjoint(cfg, st, i, j);
    }
    if c < |log| { Located(cfg, st, c); }
  }

  /** When `from` is on the next lap, the receiver's blank-or-short-tail test holds exactly at the unused tail,
      where no message starts. */
  lemma BlankExactlyAtTail(cfg: Config, run: seq<Event>)
    requires Run(cfg, run) && After(cfg, run).mem.from.ptr < After(cfg, run).mem.receiver
    ensures var st := After(cfg, run);
            Consumed(st) < |st.hist.log| &&
            (IsBlank(SizeWord(cfg, st.mem.buf, st.mem.receiver)) <==>
             st.mem.receiver != st.hist.log[Consumed(st)].start)
  {
    RunInv(cfg, run);
    var st := After(cfg, run);
    var log, c := st.hist.log, Consumed(st);
    ReceiverSees(cfg, st);
    assert Link(cfg, log, c) && Holds(cfg, st.mem.buf, log[c]) && Attended(cfg, st, c);
    Located(cfg, st, c);
    if st.mem.receiver == log[c].start {
      WordOf(cfg, st.mem.buf, log[c]);
      WordClass(cfg, |log[c].msg.content|);
    } else {
      TailBlank(cfg, st, c);
    }
  }

  // ---------------------------------------------------------------- publication

  /** No sender is between its reservation and the end of its publishing. */
  predicate Quiet(st: State) { forall s :: s in st.senders ==> st.senders[s].Looked? }

  /** `from` stands behind ready messages only, however the senders finish. */
  lemma PublishedAreReady(cfg: Config, run: seq<Event>)
    requires Run(cfg, run)
    ensures var st := After(cfg, run);
            st.hist.published <= |st.hist.log| && AtBoundary(cfg, st.hist.log, st.mem.from, st.hist.published) &&
            forall i :: 0 <= i < st.hist.published ==> st.hist.log[i].stage == Ready
  {
    RunInv(cfg, run);
    var st := After(cfg, run);
    forall i | 0 <= i < st.hist.published ensures st.hist.log[i].stage == Ready {
      assert Attended(cfg, st, i);
    }
  }

  lemma QuietPublished(cfg: Config, st: State)
    requires Inv(cfg, st) && Quiet(st)
    ensures st.hist.published == |st.hist.log| && st.mem.from == st.mem.to
  {
    FromBelowTo(cfg, st);
    var p := st.hist.published;
    if p < |st.hist.log| {
      assert Attended(cfg, st, p) && Link(cfg, st.hist.log, p);
      EndPosMonotone(cfg, st.hist.log, p, p);
      assert false;
    }
  }

  /** No publication is lost: when no sender is at work, everything reserved has been published and `from`
      equals `to` in pointer and lap. */
  lemma NoLostPublication(cfg: Config, run: seq<Event>)
    requires Run(cfg, run) && Quiet(After(cfg, run))
    ensures After(cfg, run).mem.from == After(cfg, run).mem.to
    ensures After(cfg, run).hist.published == |Sent(cfg, run)|
  {
    RunInv(cfg, run);
    SentIsLog(cfg, run);
    QuietPublished(cfg, After(cfg, run));
  }

  /** The receiver is told of a message exactly when a published one is left. */
  lemma ReceiverTold(cfg: Config, run: seq<Event>)
    requires Run(cfg, run)
    ensures Run(cfg, run + [Receive])
    ensures After(cfg, run + [Receive]).holding <==> |Taken(cfg, run)| < After(cfg, run).hist.published
  {
    RunInv(cfg, run);
    RunExtends(cfg, run, Receive);
    TakenIsGot(cfg, run);
    ReceiveExact(cfg, After(cfg, run));
  }

  lemma DrainOne(cfg: Config, run: seq<Event>)
    requires Run(cfg, run) && Quiet(After(cfg, run)) && |Taken(cfg, run)| < |Sent(cfg, run)|
    ensures Run(cfg, run + [Receive] + [Consume]) && Quiet(After(cfg, run + [Receive] + [Consume]))
    ensures Sent(cfg, run + [Receive] + [Consume]) == Sent(cfg, run)
    ensures |Taken(cfg, run + [Receive] + [Consume])| == |Taken(cfg, run)| + 1
  {
    NoLostPublication(cfg, run);
    ReceiverTold(cfg, run);
    RunExtends(cfg, run, Receive);
    var a := run + [Receive];
    RunExtends(cfg, a, Consume);
    assert a[..|a| - 1] == run && (a + [Consume])[..|a|] == a;
  }

  /** Once the senders are quiet, the receiver alone can take everything ever sent: one receive and one consume
      for each message left. */
  lemma {:induction false} Drained(cfg: Config, run: seq<Event>, n: nat) returns (whole: seq<Event>)
    requires Run(cfg, run) && Quiet(After(cfg, run)) && |Sent(cfg, run)| == |Taken(cfg, run)| + n
    ensures |whole| == |run| + 2 * n && run <= whole
    ensures forall i :: |run| <= i < |whole| ==> whole[i].Receive? || whole[i].Consume?
    ensures Run(cfg, whole) && |Taken(cfg, whole)| == |Sent(cfg, run)| && Taken(cfg, whole) == Sent(cfg, run)
    decreases n
  {
    if n == 0 {
      Fifo(cfg, run);
      whole := run;
    } else {
      DrainOne(cfg, run);
      whole := Drained(cfg, run + [Receive] + [Consume], n - 1);
    }
  }

  // ---------------------------------------------------------------- room

  /** The bytes from `to` up to the end of the pipe are free, as many as needed. */
  predicate FitsBehind(cfg: Config, to: Pace, receiver: Pace, need: nat) {
    to.lap == receiver.lap && to.ptr + need <= cfg.size
  }

  /** They are not, and the bytes before the receiver are. */
  predicate FitsInFront(cfg: Config, to: Pace, receiver: Pace, need: nat) {
    to.lap == receiver.lap && cfg.size < to.ptr + need && need < receiver.ptr
  }

  /** `to` is a lap ahead, and the bytes between it and the receiver are free. */
  predicate FitsBetween(to: Pace, receiver: Pace, need: nat) {
    to.lap == receiver.lap + 1 && to.ptr + need < receiver.ptr
  }

  predicate Room(cfg: Config, to: Pace, receiver: Pace, need: nat) {
    FitsBehind(cfg, to, receiver, need) || FitsInFront(cfg, to, receiver, need) || FitsBetween(to, receiver, need)
  }

  /** The CAS on `to` wins, with the place of the message at `to`, or at the start of the next lap when only the bytes
      in front are free. */
  ghost predicate Placed(cfg: Config, st: State, st': State, s: SenderId, msg: Message, receiver: Pace) {
    var to, need := st.mem.to, cfg.offset + |msg.content|;
    var rewound := FitsInFront(cfg, to, receiver, need);
    var lap, start := if rewound then to.lap + 1 else to.lap, if rewound then 0 else to.ptr;
    st'.hist.log == st.hist.log + [Reservation(s, msg, start, lap, Empty)] && st'.mem.to == Pace(lap, start + need) &&
    At(st', s) == Some(Reserved(msg, start, if rewound then Some(to.ptr) else None))
  }

  /** The sender comes away with nothing, and nothing has changed for anyone else. */
  ghost predicate Refused(st: State, st': State, s: SenderId) {
    st'.hist.log == st.hist.log && st'.mem == st.mem && st'.senders == st.senders - {s}
  }

  /** In every run the CAS on `to` wins exactly when `to` is still what the sender read and there was room for the
      message behind the receiver as the sender read it. */
  lemma ReservedExactly(cfg: Config, run: seq<Event>, s: SenderId)
    requires Run(cfg, run) && Enabled(cfg, After(cfg, run), Reserve(s))
    ensures var st, p := After(cfg, run), After(cfg, run).senders[s];
            Run(cfg, run + [Reserve(s)]) && s in st.hist.seenLap &&
            var st', seen := After(cfg, run + [Reserve(s)]), Pace(st.hist.seenLap[s], p.receiver);
            if p.to == st.mem.to && Room(cfg, p.to, seen, cfg.offset + |p.msg.content|)
            then Placed(cfg, st, st', s, p.msg, seen) else Refused(st, st', s)
  {
    RunExtends(cfg, run, Reserve(s));
    SeenInRun(cfg, run, s);
    ReservedAt(cfg, After(cfg, run), s);
  }

  lemma SeenInRun(cfg: Config, run: seq<Event>, s: SenderId)
    requires Run(cfg, run) && Enabled(cfg, After(cfg, run), Reserve(s))
    ensures Seen(After(cfg, run), s)
  {
    RunInv(cfg, run);
    SeenAt(cfg, After(cfg, run), s);
  }

  /** What a sender has read stands within a lap, if `to` has not moved since. */
  ghost predicate Seen(st: State, s: SenderId)
    requires s in st.senders && st.senders[s].Looked?
  {
    s in st.hist.seenLap &&
    (st.senders[s].to == st.mem.to ==> Window(st.mem.to, Pace(st.hist.seenLap[s], st.senders[s].receiver)))
  }

  lemma SeenAt(cfg: Config, st: State, s: SenderId)
    requires Inv(cfg, st) && Enabled(cfg, st, Reserve(s))
    ensures Seen(st, s)
  {
    assert SenderOk(cfg, st, s);
  }

  lemma ReservedAt(cfg: Config, st: State, s: SenderId)
    requires Enabled(cfg, st, Reserve(s)) && Seen(st, s)
    ensures var p, seen := st.senders[s], Pace(st.hist.seenLap[s], st.senders[s].receiver);
            var st' := StepReserve(cfg, st, s);
            if p.to == st.mem.to && Room(cfg, p.to, seen, cfg.offset + |p.msg.content|)
            then Placed(cfg, st, st', s, p.msg, seen) else Refused(st, st', s)
  {
    var p, seen := st.senders[s], Pace(st.hist.seenLap[s], st.senders[s].receiver);
    if p.to == st.mem.to { RoomFound(cfg, p.to, seen, |p.msg.content|); }
    ReserveIs(cfg, st, s, p.msg, p.to, seen);
  }

  /** With `to` at most a lap ahead of the receiver, ReserveSpaceForSend_ finds a place exactly when there is room. */
  lemma RoomFound(cfg: Config, to: Pace, receiver: Pace, n: nat)
    requires Window(to, receiver)
    ensures var need := cfg.offset + n; var rewound := FitsInFront(cfg, to, receiver, need);
            Decide(cfg, to, receiver.ptr, n) ==
            if !Room(cfg, to, receiver, need) then None
            else if rewound then Some(Place(0, Pace(to.lap + 1, need), Some(to.ptr)))
            else Some(Place(to.ptr, Pace(to.lap, to.ptr + need), None))
  {
  }

  lemma ReserveIs(cfg: Config, st: State, s: SenderId, msg: Message, to: Pace, seen: Pace)
    requires At(st, s) == Some(Looked(msg, to, seen.ptr))
    requires to == st.mem.to ==>
      var need := cfg.offset + |msg.content|; var rewound := FitsInFront(cfg, to, seen, need);
      Decide(cfg, to, seen.ptr, |msg.content|) ==
      if !Room(cfg, to, seen, need) then None
      else if rewound then Some(Place(0, Pace(to.lap + 1, need), Some(to.ptr)))
      else Some(Place(to.ptr, Pace(to.lap, to.ptr + need), None))
    ensures var st' := StepReserve(cfg, st, s);
            if to == st.mem.to && Room(cfg, to, seen, cfg.offset + |msg.content|)
            then Placed(cfg, st, st', s, msg, seen) else Refused(st, st', s)
  {
  }

  /** A sender that no one comes between gets its space exactly when there is room for its message now. */
  lemma SentExactly(cfg: Config, run: seq<Event>, s: SenderId, msg: Message)
    requires Run(cfg, run) && s !in After(cfg, run).senders && Legal(cfg, msg)
    ensures var st, whole := After(cfg, run), run + [Look(s, msg)] + [Reserve(s)];
            Run(cfg, whole) &&
            if Room(cfg, st.mem.to, ReceiverPos(st), cfg.offset + |msg.content|)
            then Placed(cfg, st, After(cfg, whole), s, msg, ReceiverPos(st))
            else After(cfg, whole).mem == st.mem && After(cfg, whole).hist.log == st.hist.log
  {
    RunExtends(cfg, run, Look(s, msg));
    ReservedExactly(cfg, run + [Look(s, msg)], s);
  }

  // ---------------------------------------------------------------- never jams

  /** Every message is out and no sender is inside SendMsg_. */
  predicate Idle(st: State) { st.senders == map[] && Consumed(st) == |st.hist.log| }

  /** SendMsg_ with this much content would get its space. */
  predicate Accepts(cfg: Config, st: State, n: nat) { Decide(cfg, st.mem.to, st.mem.receiver, n).Some? }

  ghost predicate NeverJams(cfg: Config) {
    forall run, n: nat :: Run(cfg, run) && Idle(After(cfg, run)) && n <= cfg.maxContent ==>
      Accepts(cfg, After(cfg, run), n)
  }

  lemma IdleLevel(cfg: Config, st: State)
    requires Inv(cfg, st) && Idle(st)
    ensures st.mem.receiver == st.mem.to.ptr == st.mem.from.ptr
  {
    FromBelowTo(cfg, st);
  }

  /** One message through an empty pipe, by one sender. */
  function OneMessage(msg: Message): (run: seq<Event>) {
    [Look(0, msg), Reserve(0), Write(0), MarkReady(0), Cas(0), Check(0), Receive, Consume]
  }

  lemma OneMessageWritten(cfg: Config, msg: Message)
    requires cfg.Ok() && Legal(cfg, msg)
    ensures var run := [Look(0, msg), Reserve(0), Write(0)];
            Run(cfg, run) &&
            var st := After(cfg, run);
            st.senders == map[0 := Written(0, None)] && st.mem.from == Pace(0, 0) && st.mem.receiver == 0 &&
            st.mem.to == Pace(0, cfg.offset + |msg.content|) && st.hist.got == [] &&
            st.hist.log == [Reservation(0, msg, 0, 0, Filled)] && st.hist.own == map[0 := 0]
  {
    RunExtends(cfg, [], Look(0, msg));
    var r1 := [Look(0, msg)];
    assert [] + r1 == r1;
    RunExtends(cfg, r1, Reserve(0));
    var r2 := [Look(0, msg), Reserve(0)];
    assert r1 + [Reserve(0)] == r2;
    RunExtends(cfg, r2, Write(0));
    assert r2 + [Write(0)] == [Look(0, msg), Reserve(0), Write(0)];
  }

  lemma OneMessageSent(cfg: Config, msg: Message, run: seq<Event>)
    requires Run(cfg, run) && Legal(cfg, msg) && run == [Look(0, msg), Reserve(0), Write(0)]
    ensures var run' := run + [MarkReady(0)] + [Cas(0)] + [Check(0)];
            var need := cfg.offset + |msg.content|;
            Run(cfg, run') &&
            var st := After(cfg, run');
            st.senders == map[] && st.mem.from == st.mem.to == Pace(0, need) && st.mem.receiver == 0 &&
            st.hist.got == [] &&
            |st.hist.log| == 1 && st.hist.log[0].msg == msg
  {
    OneMessageWritten(cfg, msg);
    var st := After(cfg, run);
    RunInv(cfg, run);
    RunExtends(cfg, run, MarkReady(0));
    assert SenderOk(cfg, st, 0);
    ReadyNext(cfg, st, 0, 0);
    var a := run + [MarkReady(0)];
    RunExtends(cfg, a, Cas(0));
    RunExtends(cfg, a + [Cas(0)], Check(0));
  }

  lemma OneMessageThrough(cfg: Config, msg: Message)
    requires cfg.Ok() && Legal(cfg, msg)
    ensures Run(cfg, OneMessage(msg)) && Idle(After(cfg, OneMessage(msg)))
    ensures After(cfg, OneMessage(msg)).mem.receiver == cfg.offset + |msg.content|
  {
    OneMessageWritten(cfg, msg);
    var run := [Look(0, msg), Reserve(0), Write(0)];
    OneMessageSent(cfg, msg, run);
    var a := run + [MarkReady(0)] + [Cas(0)] + [Check(0)];
    OneMessageTaken(cfg, msg, a);
    assert a + [Receive] + [Consume] == OneMessage(msg);
  }

  lemma OneMessageTaken(cfg: Config, msg: Message, a: seq<Event>)
    requires Run(cfg, a) && After(cfg, a).senders == map[] && After(cfg, a).hist.got == []
    requires After(cfg, a).mem.receiver == 0 && After(cfg, a).mem.from == After(cfg, a).mem.to
    requires |After(cfg, a).hist.log| == 1 && After(cfg, a).hist.log[0].msg == msg
    ensures Run(cfg, a + [Receive] + [Consume]) && Idle(After(cfg, a + [Receive] + [Consume]))
    ensures After(cfg, a + [Receive] + [Consume]).mem.receiver == cfg.offset + |msg.content|
  {
    var st := After(cfg, a);
    RunInv(cfg, a);
    QuietPublished(cfg, st);
    ReceiveExact(cfg, st);
    RunExtends(cfg, a, Receive);
    var b := a + [Receive];
    RunInv(cfg, b);
    RunExtends(cfg, b, Consume);
    ConsumeIs(cfg, After(cfg, b));
    assert Link(cfg, st.hist.log, 0);
  }

  /** A pipe accepts every legal message whenever it is idle if and only if it is at least twice as large as
      the largest message. The bound that Init checks is weaker. */
  lemma NeverJamsExactly(cfg: Config)
    requires cfg.Ok()
    ensures NeverJams(cfg) <==> 2 * (cfg.offset + cfg.maxContent) <= cfg.size
  {
    var most := cfg.offset + cfg.maxContent;
    if 2 * most <= cfg.size {
      forall run, n: nat | Run(cfg, run) && Idle(After(cfg, run)) && n <= cfg.maxContent
        ensures Accepts(cfg, After(cfg, run), n)
      {
        RunInv(cfg, run);
        IdleLevel(cfg, After(cfg, run));
      }
    } else {
      var msg := Message(Blanks(cfg.offset - 4), Blanks(cfg.maxContent));
      OneMessageThrough(cfg, msg);
      var st := After(cfg, OneMessage(msg));
      RunInv(cfg, OneMessage(msg));
      IdleLevel(cfg, st);
      assert !Accepts(cfg, st, cfg.maxContent);
    }
  }
}
