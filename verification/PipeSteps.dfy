/** Every step of the pipe protocol keeps the invariant. */
module PipeSteps {
  import opened Options
  import opened PipeBytes
  import opened PipeProtocol
  import opened PipeInvariant

  lemma InitialInv(cfg: Config)
    requires cfg.Ok()
    ensures Inv(cfg, Initial(cfg))
  {
  }

  lemma LookInv(cfg: Config, st: State, s: SenderId, msg: Message)
    requires Inv(cfg, st) && Enabled(cfg, st, Look(s, msg))
    ensures Inv(cfg, StepLook(st, s, msg))
  {
    var st' := StepLook(st, s, msg);
    assert Geometry(cfg, st');
    forall x | x in st'.senders ensures SenderOk(cfg, st', x) {
      if x != s { assert SenderOk(cfg, st, x); } else { ReceiverInside(cfg, st); }
    }
    forall i | 0 <= i < |st'.hist.log| ensures Attended(cfg, st', i) {
      assert Attended(cfg, st, i);
    }
  }

  lemma ReceiverInside(cfg: Config, st: State)
    requires Geometry(cfg, st)
    ensures st.mem.receiver <= cfg.size
  {
    var n := Consumed(st);
    if n < |st.hist.log| { assert Link(cfg, st.hist.log, n); }
    if 0 < n { assert Link(cfg, st.hist.log, n - 1); }
  }

  // ---------------------------------------------------------------- reserve

  lemma ReserveInv(cfg: Config, st: State, s: SenderId)
    requires Inv(cfg, st) && Enabled(cfg, st, Reserve(s))
    ensures Inv(cfg, StepReserve(cfg, st, s))
  {
    var st' := StepReserve(cfg, st, s);
    if st'.hist.log == st.hist.log {
      LeaveInv(cfg, st, s);
    } else {
      assert SenderOk(cfg, st, s);
      ReserveGeometry(cfg, st, s);
      ReserveContents(cfg, st, s);
      ReserveSenders(cfg, st, s);
    }
  }

  /** The next message to publish is ready and `from` points at it. */
  predicate Due(cfg: Config, st: State) {
    st.hist.published < |st.hist.log| && st.hist.log[st.hist.published].stage == Ready &&
    st.mem.from == StartPos(st.hist.log, st.hist.published)
  }

  /** A sender that owns nothing and is not needed to publish may leave. */
  lemma LeaveInv(cfg: Config, st: State, s: SenderId)
    requires Inv(cfg, st) && s in st.senders
    requires st.senders[s].Looked? || st.senders[s].Publishing? || st.senders[s].CatchingUp?
    requires !st.senders[s].Looked? && s == st.hist.responsible ==> !Due(cfg, st)
    ensures Inv(cfg, Put(st, s, None))
  {
    var st' := Put(st, s, None);
    assert Geometry(cfg, st');
    forall x | x in st'.senders ensures SenderOk(cfg, st', x) {
      assert SenderOk(cfg, st, x);
      LeaveSender(cfg, st, st', s, x);
    }
    forall i | 0 <= i < |st'.hist.log| ensures Attended(cfg, st', i) {
      assert Attended(cfg, st, i);
      LeaveAttended(cfg, st, st', s, i);
    }
  }

  lemma LeaveSender(cfg: Config, st: State, st': State, s: SenderId, x: SenderId)
    requires Geometry(cfg, st) && Geometry(cfg, st') && st' == Put(st, s, None)
    requires x in st.senders && x in st'.senders && SenderOk(cfg, st, x)
    ensures SenderOk(cfg, st', x)
  {
  }

  lemma LeaveAttended(cfg: Config, st: State, st': State, s: SenderId, i: nat)
    requires st' == Put(st, s, None) && i < |st.hist.log| && Attended(cfg, st, i) && s in st.senders
    requires st.senders[s].Looked? || st.senders[s].Publishing? || st.senders[s].CatchingUp?
    ensures Attended(cfg, st', i)
  {
  }

  predicate Claims(cfg: Config, st: State, s: SenderId) {
    s in st.senders && st.senders[s].Looked? && st.senders[s].to == st.mem.to &&
    Decide(cfg, st.senders[s].to, st.senders[s].receiver, |st.senders[s].msg.content|).Some?
  }

  /** A claim computed from an older receiver position keeps `to` behind the receiver. */
  lemma ClaimSafe(cfg: Config, to: Pace, seen: Pace, receiver: Pace, n: nat)
    requires cfg.Ok() && n <= cfg.maxContent && seen.ptr <= cfg.size
    requires Window(to, seen) && Window(to, receiver) && Le(seen, receiver)
    requires Decide(cfg, to, seen.ptr, n).Some?
    ensures var d := Decide(cfg, to, seen.ptr, n).value;
            Window(d.next, receiver) && d.next.ptr == d.start + cfg.offset + n <= cfg.size &&
            (d.before.None? ==> d.next.lap == to.lap && d.start == to.ptr) &&
            (d.before.Some? ==> d.next.lap == to.lap + 1 && d.start == 0 && d.before.value == to.ptr && 0 < to.ptr)
  {
  }

  lemma ChainedAppend(cfg: Config, log: seq<Reservation>, r: Reservation)
    requires Chained(cfg, log) && Link(cfg, log + [r], |log|)
    ensures Chained(cfg, log + [r])
  {
    var log' := log + [r];
    forall i | 0 <= i < |log'| ensures Link(cfg, log', i) {
      if i < |log| { assert Link(cfg, log, i); }
    }
  }

  lemma ReserveGeometry(cfg: Config, st: State, s: SenderId)
    requires Geometry(cfg, st) && Claims(cfg, st, s) && SenderOk(cfg, st, s)
    ensures Geometry(cfg, StepReserve(cfg, st, s))
  {
    var p := st.senders[s];
    var log := st.hist.log;
    ClaimSafe(cfg, st.mem.to, Pace(st.hist.seenLap[s], p.receiver), ReceiverPos(st), |p.msg.content|);
    var d := Decide(cfg, p.to, p.receiver, |p.msg.content|).value;
    var r := Reservation(s, p.msg, d.start, d.next.lap, Empty);
    assert 0 < |log| ==> log[|log| - 1] == (log + [r])[|log| - 1];
    ChainedAppend(cfg, log, r);
    FromBelowTo(cfg, st);
  }

  lemma ContentsAppend(cfg: Config, buf: seq<Byte>, log: seq<Reservation>, r: Reservation, done: nat)
    requires Contents(cfg, buf, log, done) && done <= |log|
    requires r.stage == Empty && |r.msg.content| < MASK_NOT_WRITING && End(cfg, r) <= |buf|
    requires forall i :: done <= i < |log| ==> End(cfg, log[i]) <= r.start || End(cfg, r) <= log[i].start
    ensures Contents(cfg, buf, log + [r], done)
  {
    var log' := log + [r];
    forall b | r.start <= b < End(cfg, r) ensures buf[b] == BLANK_BYTE {
      assert Uncovered(cfg, log, done, b);
    }
    forall b | 0 <= b < |buf| && Uncovered(cfg, log', done, b) ensures buf[b] == BLANK_BYTE {
      assert forall i :: done <= i < |log| ==> log'[i] == log[i];
      assert Uncovered(cfg, log, done, b);
    }
    assert Holds(cfg, buf, r);
  }

  lemma ReserveContents(cfg: Config, st: State, s: SenderId)
    requires Claims(cfg, st, s) && Geometry(cfg, StepReserve(cfg, st, s))
    requires Contents(cfg, st.mem.buf, st.hist.log, Consumed(st))
    requires Consumed(st) <= |st.hist.log|
    ensures var st' := StepReserve(cfg, st, s);
            Contents(cfg, st'.mem.buf, st'.hist.log, Consumed(st'))
  {
    var st' := StepReserve(cfg, st, s);
    var log := st.hist.log;
    var r := st'.hist.log[|log|];
    assert Link(cfg, st'.hist.log, |log|);
    forall i | Consumed(st) <= i < |log| ensures End(cfg, log[i]) <= r.start || End(cfg, r) <= log[i].start {
      Disjoint(cfg, st', i, |log|);
    }
    ContentsAppend(cfg, st.mem.buf, log, r, Consumed(st));
  }

  lemma ReserveSenders(cfg: Config, st: State, s: SenderId)
    requires Geometry(cfg, st) && SendersOk(cfg, st) && AllAttended(cfg, st) && Tended(cfg, st)
    requires Claims(cfg, st, s) && Geometry(cfg, StepReserve(cfg, st, s))
    ensures var st' := StepReserve(cfg, st, s);
            SendersOk(cfg, st') && AllAttended(cfg, st') && Tended(cfg, st')
  {
    var st' := StepReserve(cfg, st, s);
    assert SenderOk(cfg, st, s);
    forall x | x in st'.senders ensures SenderOk(cfg, st', x) {
      ReserveSender(cfg, st, s, x);
    }
    forall i | 0 <= i < |st'.hist.log| ensures Attended(cfg, st', i) {
      if i < |st.hist.log| { assert Attended(cfg, st, i); }
    }
  }

  lemma ReserveSender(cfg: Config, st: State, s: SenderId, x: SenderId)
    requires Geometry(cfg, st) && Claims(cfg, st, s) && Geometry(cfg, StepReserve(cfg, st, s))
    requires x in st.senders && SenderOk(cfg, st, x) && SenderOk(cfg, st, s)
    ensures x in StepReserve(cfg, st, s).senders && SenderOk(cfg, StepReserve(cfg, st, s), x)
  {
    var p := st.senders[s];
    ClaimSafe(cfg, st.mem.to, Pace(st.hist.seenLap[s], p.receiver), ReceiverPos(st), |p.msg.content|);
  }

  // ---------------------------------------------------------------- write and mark ready

  /** Changing the stage of one reservation, and only its bytes, keeps the buffer as described. */
  lemma ContentsRestage(cfg: Config, buf: seq<Byte>, buf': seq<Byte>, log: seq<Reservation>, k: nat, r: Reservation,
                        done: nat)
    requires Contents(cfg, buf, log, done) && done <= k < |log|
    requires r == log[k].(stage := r.stage) && |buf'| == |buf| && Holds(cfg, buf', r)
    requires forall b :: 0 <= b < |buf| && !Covers(cfg, r, b) ==> buf'[b] == buf[b]
    requires forall i :: done <= i < |log| && i != k ==> End(cfg, log[i]) <= r.start || End(cfg, r) <= log[i].start
    ensures Contents(cfg, buf', log[k := r], done)
  {
    var log' := log[k := r];
    forall i | done <= i < |log'| ensures Holds(cfg, buf', log'[i]) {
      if i != k {
        assert Holds(cfg, buf, log[i]);
        assert buf'[log[i].start..End(cfg, log[i])] == buf[log[i].start..End(cfg, log[i])];
      }
    }
    forall b | 0 <= b < |buf'| && Uncovered(cfg, log', done, b) ensures buf'[b] == BLANK_BYTE {
      assert !Covers(cfg, log'[k], b);
      forall i | done <= i < |log| ensures !Covers(cfg, log[i], b) {
        assert !Covers(cfg, log'[i], b);
      }
      assert Uncovered(cfg, log, done, b);
    }
  }

  lemma MarkChained(cfg: Config, log: seq<Reservation>, k: nat, stage: Stage)
    requires Chained(cfg, log) && k < |log|
    ensures Chained(cfg, log[k := log[k].(stage := stage)])
  {
    var log' := log[k := log[k].(stage := stage)];
    forall i | 0 <= i < |log'| ensures Link(cfg, log', i) {
      assert Link(cfg, log, i);
    }
  }

  /** Restaging a reservation and moving its sender on changes nothing about the geometry. */
  lemma MarkGeometry(cfg: Config, st: State, st': State, k: nat, stage: Stage)
    requires Geometry(cfg, st) && k < |st.hist.log|
    requires st'.hist.log == st.hist.log[k := st.hist.log[k].(stage := stage)]
    requires st'.hist.(log := [], own := map[], seenLap := map[], responsible := 0) ==
             st.hist.(log := [], own := map[], seenLap := map[], responsible := 0)
    requires st'.mem.(buf := []) == st.mem.(buf := []) && st'.holding == st.holding
    ensures Geometry(cfg, st')
    ensures forall i :: 0 <= i <= |st.hist.log| ==> EndPos(cfg, st'.hist.log, i) == EndPos(cfg, st.hist.log, i)
    ensures forall i :: 0 <= i < |st.hist.log| ==>
      StartPos(st'.hist.log, i) == StartPos(st.hist.log, i) && Rewinder(st'.hist.log, i) == Rewinder(st.hist.log, i)
  {
    MarkChained(cfg, st.hist.log, k, stage);
  }

  lemma OthersApart(cfg: Config, st: State, k: nat)
    requires Geometry(cfg, st) && Consumed(st) <= k < |st.hist.log|
    ensures var log := st.hist.log; forall i :: Consumed(st) <= i < |log| && i != k ==>
      End(cfg, log[i]) <= log[k].start || End(cfg, log[k]) <= log[i].start
  {
    var log := st.hist.log;
    forall i | Consumed(st) <= i < |log| && i != k
      ensures End(cfg, log[i]) <= log[k].start || End(cfg, log[k]) <= log[i].start
    {
      if i < k { Disjoint(cfg, st, i, k); } else { Disjoint(cfg, st, k, i); }
    }
  }

  /** st' is st with reservation k restaged and its sender s moved to `next`. */
  predicate Restaged(st: State, st': State, s: SenderId, k: nat, stage: Stage, next: Option<Point>) {
    k < |st.hist.log| &&
    st'.hist.log == st.hist.log[k := st.hist.log[k].(stage := stage)] &&
    st'.hist.(log := [], responsible := 0) == st.hist.(log := [], responsible := 0) &&
    st'.mem.(buf := []) == st.mem.(buf := []) && st'.holding == st.holding &&
    st'.senders == Put(st, s, next).senders
  }

  lemma WriteInv(cfg: Config, st: State, s: SenderId)
    requires Inv(cfg, st) && Enabled(cfg, st, Write(s))
    ensures InBounds(cfg, st, Write(s)) && Inv(cfg, StepWrite(cfg, st, s))
  {
    assert SenderOk(cfg, st, s);
    var k := st.hist.own[s];
    assert Link(cfg, st.hist.log, k);
    WriteContents(cfg, st, s, k);
    WriteRest(cfg, st, StepWrite(cfg, st, s), s, k);
  }

  lemma WriteContents(cfg: Config, st: State, s: SenderId, k: nat)
    requires Geometry(cfg, st) && Contents(cfg, st.mem.buf, st.hist.log, Consumed(st))
    requires Enabled(cfg, st, Write(s)) && InBounds(cfg, st, Write(s))
    requires SenderOk(cfg, st, s) && k == st.hist.own[s]
    ensures var st' := StepWrite(cfg, st, s);
            st'.hist.log == st.hist.log[k := st.hist.log[k].(stage := Filled)] &&
            Contents(cfg, st'.mem.buf, st'.hist.log, Consumed(st'))
  {
    assert Link(cfg, st.hist.log, k);
    var r := st.hist.log[k].(stage := Filled);
    OthersApart(cfg, st, k);
    ContentsRestage(cfg, st.mem.buf, StepWrite(cfg, st, s).mem.buf, st.hist.log, k, r, Consumed(st));
  }

  lemma WriteRest(cfg: Config, st: State, st': State, s: SenderId, k: nat)
    requires Geometry(cfg, st) && SendersOk(cfg, st) && AllAttended(cfg, st) && Tended(cfg, st) && InOrder(st)
    requires s in st.senders && st.senders[s].Reserved? && SenderOk(cfg, st, s) && k == st.hist.own[s]
    requires Restaged(st, st', s, k, Filled, Some(Written(st.senders[s].start, st.senders[s].before)))
    requires st'.hist.responsible == st.hist.responsible
    ensures Geometry(cfg, st') && SendersOk(cfg, st') && AllAttended(cfg, st') && Tended(cfg, st') && InOrder(st')
  {
    MarkGeometry(cfg, st, st', k, Filled);
    forall x | x in st'.senders ensures SenderOk(cfg, st', x) {
      WriteSender(cfg, st, st', s, k, x);
    }
    forall i | 0 <= i < |st'.hist.log| ensures Attended(cfg, st', i) {
      assert Attended(cfg, st, i);
    }
  }

  lemma WriteSender(cfg: Config, st: State, st': State, s: SenderId, k: nat, x: SenderId)
    requires Geometry(cfg, st) && Geometry(cfg, st') && x in st.senders && SenderOk(cfg, st, x)
    requires s in st.senders && st.senders[s].Reserved? && SenderOk(cfg, st, s) && k == st.hist.own[s]
    requires Restaged(st, st', s, k, Filled, Some(Written(st.senders[s].start, st.senders[s].before)))
    ensures SenderOk(cfg, st', x)
  {
    MarkGeometry(cfg, st, st', k, Filled);
  }

  lemma ImageWord(cfg: Config, msg: Message, ready: bool)
    requires cfg.Ok() && Legal(cfg, msg)
    ensures Decode32(Image(msg, ready)[cfg.offset - 4..cfg.offset]) ==
            |msg.content| + if ready then MASK_NOT_WRITING else 0
  {
    var w := |msg.content| + if ready then MASK_NOT_WRITING else 0;
    assert Image(msg, ready)[cfg.offset - 4..cfg.offset] == Encode32(w);
    Decode32Encode32(w);
  }

  lemma BlankWord(cfg: Config, buf: seq<Byte>, p: nat)
    requires cfg.Ok() && forall b :: p <= b < p + cfg.offset && b < |buf| ==> buf[b] == BLANK_BYTE
    ensures SizeWord(cfg, buf, p) == BLANK_WORD
  {
  }

  /** The size word a reservation shows: its content size with the ready bit, or blank. */
  lemma WordOf(cfg: Config, buf: seq<Byte>, r: Reservation)
    requires cfg.Ok() && Legal(cfg, r.msg) && Holds(cfg, buf, r)
    ensures r.stage == Empty ==> SizeWord(cfg, buf, r.start) == BLANK_WORD
    ensures r.stage != Empty ==>
      SizeWord(cfg, buf, r.start) == |r.msg.content| + if r.stage == Ready then MASK_NOT_WRITING else 0
  {
    var o := cfg.offset;
    var bytes := buf[r.start..End(cfg, r)];
    SubSlice(buf, r.start, End(cfg, r), o - 4, o);
    if r.stage == Empty {
      assert forall b :: r.start <= b < r.start + o ==> buf[b] == bytes[b - r.start];
      BlankWord(cfg, buf, r.start);
    } else {
      ImageWord(cfg, r.msg, r.stage == Ready);
    }
  }

  lemma WordClass(cfg: Config, n: nat)
    requires cfg.Ok() && n <= cfg.maxContent
    ensures var w := n + MASK_NOT_WRITING; IsReady(w) && !IsBlank(w) && MsgSize(cfg, w) == cfg.offset + n
    ensures !IsReady(n) && !IsBlank(n)
    ensures !IsReady(BLANK_WORD)
  {
  }

  lemma SetReadyIs(cfg: Config, buf: seq<Byte>, start: nat, n: nat)
    requires 4 <= cfg.offset && start + cfg.offset <= |buf| && SizeWord(cfg, buf, start) == n < MASK_NOT_WRITING
    ensures SetReady(cfg, buf, start) == Splice(buf, start + cfg.offset - 4, Encode32(n + MASK_NOT_WRITING))
  {
  }

  lemma HeaderSplice(cfg: Config, buf: seq<Byte>, r: Reservation, w: seq<Byte>, w': seq<Byte>)
    requires |w| == |w'| == 4 && |r.msg.header| + 4 == cfg.offset && End(cfg, r) <= |buf|
    requires buf[r.start..End(cfg, r)] == r.msg.header + w + r.msg.content
    ensures var buf' := Splice(buf, r.start + cfg.offset - 4, w');
            buf'[r.start..End(cfg, r)] == r.msg.header + w' + r.msg.content &&
            forall b :: 0 <= b < |buf| && !Covers(cfg, r, b) ==> buf'[b] == buf[b]
  {
    SpliceInside(buf, r.start, r.msg.header, w, r.msg.content, w');
  }

  lemma ReadyBytes(cfg: Config, buf: seq<Byte>, r: Reservation)
    requires cfg.Ok() && Legal(cfg, r.msg) && Holds(cfg, buf, r) && r.stage == Filled
    ensures Holds(cfg, SetReady(cfg, buf, r.start), r.(stage := Ready))
    ensures var buf' := SetReady(cfg, buf, r.start);
            forall b :: 0 <= b < |buf| && !Covers(cfg, r, b) ==> buf'[b] == buf[b]
  {
    WordOf(cfg, buf, r);
    var n := |r.msg.content|;
    SetReadyIs(cfg, buf, r.start, n);
    HeaderSplice(cfg, buf, r, Encode32(n), Encode32(n + MASK_NOT_WRITING));
  }

  lemma ReadyInv(cfg: Config, st: State, s: SenderId)
    requires Inv(cfg, st) && Enabled(cfg, st, MarkReady(s))
    ensures InBounds(cfg, st, MarkReady(s)) && Inv(cfg, StepReady(cfg, st, s))
  {
    assert SenderOk(cfg, st, s);
    var k := st.hist.own[s];
    assert Link(cfg, st.hist.log, k);
    var st' := StepReady(cfg, st, s);
    ReadyContents(cfg, st, s, k);
    ReadyNext(cfg, st, s, k);
    ReadyRest(cfg, st, st', s, k);
  }

  lemma ReadyContents(cfg: Config, st: State, s: SenderId, k: nat)
    requires Geometry(cfg, st) && Contents(cfg, st.mem.buf, st.hist.log, Consumed(st))
    requires Enabled(cfg, st, MarkReady(s)) && InBounds(cfg, st, MarkReady(s))
    requires SenderOk(cfg, st, s) && k == st.hist.own[s]
    ensures var st' := StepReady(cfg, st, s);
            st'.hist.log == st.hist.log[k := st.hist.log[k].(stage := Ready)] &&
            Contents(cfg, st'.mem.buf, st'.hist.log, Consumed(st'))
  {
    assert Link(cfg, st.hist.log, k);
    var r := st.hist.log[k];
    OthersApart(cfg, st, k);
    ReadyBytes(cfg, st.mem.buf, r);
    ContentsRestage(cfg, st.mem.buf, StepReady(cfg, st, s).mem.buf, st.hist.log, k, r.(stage := Ready), Consumed(st));
  }

  /** Where sender s of reservation k goes after its first look at `from`: to publish its own message when
      that is the next one, to wait when it rewound, and away otherwise. */
  function NextPoint(cfg: Config, log: seq<Reservation>, from: Pace, k: nat): (p: Option<Point>)
    requires k < |log|
  {
    if from == StartPos(log, k) then Some(Publishing(from, End(cfg, log[k])))
    else if Rewinder(log, k) then Some(Spinning(RewindPoint(cfg, log, k), from.lap))
    else None
  }

  lemma ReadyNext(cfg: Config, st: State, s: SenderId, k: nat)
    requires Geometry(cfg, st) && Contents(cfg, st.mem.buf, st.hist.log, Consumed(st))
    requires Enabled(cfg, st, MarkReady(s)) && InBounds(cfg, st, MarkReady(s))
    requires SenderOk(cfg, st, s) && k == st.hist.own[s]
    ensures var next := NextPoint(cfg, st.hist.log, st.mem.from, k);
            var st' := StepReady(cfg, st, s);
            Restaged(st, st', s, k, Ready, next) &&
            st'.hist.responsible == if next.Some? && next.value.Publishing? then s else st.hist.responsible
  {
    var r := st.hist.log[k];
    assert Link(cfg, st.hist.log, k);
    assert Holds(cfg, st.mem.buf, r);
    ReadyBytes(cfg, st.mem.buf, r);
    AfterReadyIs(cfg, st, SetReady(cfg, st.mem.buf, r.start), k);
  }

  lemma AfterReadyIs(cfg: Config, st: State, buf: seq<Byte>, k: nat)
    requires Geometry(cfg, st) && st.hist.published <= k < |st.hist.log|
    requires Holds(cfg, buf, st.hist.log[k].(stage := Ready))
    ensures AfterReady(cfg, st.mem.(buf := buf), st.hist.log[k].start, RewindPoint(cfg, st.hist.log, k)) ==
            NextPoint(cfg, st.hist.log, st.mem.from, k)
  {
    var log := st.hist.log;
    assert Link(cfg, log, k);
    FromAhead(cfg, st, k);
    WordOf(cfg, buf, log[k].(stage := Ready));
    WordClass(cfg, |log[k].msg.content|);
    if 0 < k { assert Link(cfg, log, k - 1); }
  }

  lemma ReadyRest(cfg: Config, st: State, st': State, s: SenderId, k: nat)
    requires Geometry(cfg, st) && SendersOk(cfg, st) && AllAttended(cfg, st) && Tended(cfg, st) && InOrder(st)
    requires s in st.senders && st.senders[s].Written? && SenderOk(cfg, st, s) && k == st.hist.own[s]
    requires Restaged(st, st', s, k, Ready, NextPoint(cfg, st.hist.log, st.mem.from, k))
    requires st'.hist.responsible ==
             if st.mem.from == StartPos(st.hist.log, k) then s else st.hist.responsible
    ensures Geometry(cfg, st') && SendersOk(cfg, st') && AllAttended(cfg, st') && Tended(cfg, st') && InOrder(st')
  {
    MarkGeometry(cfg, st, st', k, Ready);
    FromAhead(cfg, st, k);
    forall x | x in st'.senders ensures SenderOk(cfg, st', x) {
      ReadySender(cfg, st, st', s, k, x);
    }
    forall i | 0 <= i < |st'.hist.log| ensures Attended(cfg, st', i) {
      assert Attended(cfg, st, i);
    }
  }

  lemma ReadySender(cfg: Config, st: State, st': State, s: SenderId, k: nat, x: SenderId)
    requires Geometry(cfg, st) && Geometry(cfg, st') && x in st.senders && x in st'.senders && SenderOk(cfg, st, x)
    requires s in st.senders && st.senders[s].Written? && SenderOk(cfg, st, s) && k == st.hist.own[s]
    requires Restaged(st, st', s, k, Ready, NextPoint(cfg, st.hist.log, st.mem.from, k))
    ensures SenderOk(cfg, st', x)
  {
    MarkGeometry(cfg, st, st', k, Ready);
    FromAhead(cfg, st, k);
    assert Link(cfg, st.hist.log, k);
  }

  // ---------------------------------------------------------------- moving `from`

  lemma RewindInv(cfg: Config, st: State, s: SenderId)
    requires Inv(cfg, st) && Enabled(cfg, st, Rewind(s))
    ensures Inv(cfg, StepRewind(cfg, st, s))
  {
    assert SenderOk(cfg, st, s);
    var k := st.hist.own[s];
    RewindNext(cfg, st, s, k);
    RewindRest(cfg, st, StepRewind(cfg, st, s), s, k);
  }

  /** What the header of reservation r tells a sender that stands at it. */
  lemma HeaderSeen(cfg: Config, mem: Shared, r: Reservation, lap: nat)
    requires cfg.Ok() && Legal(cfg, r.msg) && Holds(cfg, mem.buf, r)
    ensures IsReady(SizeWord(cfg, mem.buf, r.start)) <==> r.stage == Ready
    ensures r.stage == Ready ==>
            TryPublish(cfg, mem, Pace(lap, r.start)) == Some(Publishing(Pace(lap, r.start), End(cfg, r)))
  {
    WordOf(cfg, mem.buf, r);
    WordClass(cfg, |r.msg.content|);
  }

  /** The rewinder that sees `from` at its rewind point is the next to publish. */
  lemma RewindIsNext(cfg: Config, st: State, k: nat)
    requires Geometry(cfg, st) && st.hist.published <= k < |st.hist.log| && Rewinder(st.hist.log, k)
    requires st.mem.from == EndPos(cfg, st.hist.log, k)
    ensures k == st.hist.published && st.hist.log[k].start == 0
  {
    var log, p := st.hist.log, st.hist.published;
    assert Link(cfg, log, k);
    if p < k {
      FromAhead(cfg, st, p);
      EndPosMonotone(cfg, log, p + 1, k);
    }
  }

  /** `from` moved to the start of reservation k, whose sender s is about to publish it. */
  function Rewound(cfg: Config, st: State, s: SenderId, k: nat): (r: State)
    requires k < |st.hist.log|
  {
    st.(mem := st.mem.(from := StartPos(st.hist.log, k)),
        senders := st.senders[s := Publishing(StartPos(st.hist.log, k), End(cfg, st.hist.log[k]))],
        hist := st.hist.(responsible := s))
  }

  lemma RewindNext(cfg: Config, st: State, s: SenderId, k: nat)
    requires Geometry(cfg, st) && Contents(cfg, st.mem.buf, st.hist.log, Consumed(st))
    requires Enabled(cfg, st, Rewind(s)) && SenderOk(cfg, st, s) && k == st.hist.own[s] && k < |st.hist.log|
    ensures k == st.hist.published && st.mem.from == EndPos(cfg, st.hist.log, k)
    ensures StepRewind(cfg, st, s) == Rewound(cfg, st, s, k)
  {
    var r := st.hist.log[k];
    RewindIsNext(cfg, st, k);
    assert Link(cfg, st.hist.log, k) && Holds(cfg, st.mem.buf, r);
    HeaderSeen(cfg, st.mem.(from := StartPos(st.hist.log, k)), r, r.lap);
  }

  lemma RewindRest(cfg: Config, st: State, st': State, s: SenderId, k: nat)
    requires Geometry(cfg, st) && SendersOk(cfg, st) && AllAttended(cfg, st) && InOrder(st)
    requires s in st.senders && st.senders[s].Spinning? && SenderOk(cfg, st, s) && k == st.hist.own[s]
    requires k == st.hist.published && st.mem.from == EndPos(cfg, st.hist.log, k)
    requires st' == Rewound(cfg, st, s, k)
    ensures Geometry(cfg, st') && SendersOk(cfg, st') && AllAttended(cfg, st') && Tended(cfg, st') && InOrder(st')
  {
    assert Link(cfg, st.hist.log, k);
    forall x | x in st'.senders ensures SenderOk(cfg, st', x) {
      assert SenderOk(cfg, st, x);
      if x != s && st.senders[x].Spinning? {
        var j := st.hist.own[x];
        assert Link(cfg, st.hist.log, j);
        StartsOrdered(cfg, st.hist.log, k, j);
      }
    }
    forall i | 0 <= i < |st'.hist.log| ensures Attended(cfg, st', i) {
      assert Attended(cfg, st, i);
    }
  }

  lemma CasInv(cfg: Config, st: State, s: SenderId)
    requires Inv(cfg, st) && Enabled(cfg, st, Cas(s))
    ensures Inv(cfg, StepCas(st, s))
  {
    assert SenderOk(cfg, st, s);
    if st.mem.from != st.senders[s].seen {
      LeaveInv(cfg, st, s);
    } else {
      CasRest(cfg, st, StepCas(st, s), s);
    }
  }

  lemma CasRest(cfg: Config, st: State, st': State, s: SenderId)
    requires Geometry(cfg, st) && SendersOk(cfg, st) && AllAttended(cfg, st) && InOrder(st)
    requires s in st.senders && st.senders[s].Publishing? && SenderOk(cfg, st, s) && st.mem.from == st.senders[s].seen
    requires st' == StepCas(st, s)
    ensures Geometry(cfg, st') && SendersOk(cfg, st') && AllAttended(cfg, st') && Tended(cfg, st') && InOrder(st')
  {
    CasGeometry(cfg, st, st', s);
    forall x | x in st'.senders ensures SenderOk(cfg, st', x) {
      CasSender(cfg, st, st', s, x);
    }
    forall i | 0 <= i < |st'.hist.log| ensures Attended(cfg, st', i) {
      assert Attended(cfg, st, i);
    }
  }

  lemma CasGeometry(cfg: Config, st: State, st': State, s: SenderId)
    requires Geometry(cfg, st) && s in st.senders && st.senders[s].Publishing? && SenderOk(cfg, st, s)
    requires st.mem.from == st.senders[s].seen && st' == StepCas(st, s)
    ensures Geometry(cfg, st') && Lt(st.mem.from, st'.mem.from) && st'.mem.from.lap == st.mem.from.lap
  {
    assert Link(cfg, st.hist.log, st.hist.published);
  }

  lemma CasSender(cfg: Config, st: State, st': State, s: SenderId, x: SenderId)
    requires Geometry(cfg, st) && s in st.senders && st.senders[s].Publishing? && SenderOk(cfg, st, s)
    requires st.mem.from == st.senders[s].seen && st' == StepCas(st, s) && Geometry(cfg, st')
    requires x in st.senders && SenderOk(cfg, st, x)
    requires Lt(st.mem.from, st'.mem.from) && st'.mem.from.lap == st.mem.from.lap
    ensures SenderOk(cfg, st', x)
  {
  }

  lemma CheckInv(cfg: Config, st: State, s: SenderId)
    requires Inv(cfg, st) && Enabled(cfg, st, Check(s))
    ensures Inv(cfg, StepCheck(cfg, st, s))
  {
    assert SenderOk(cfg, st, s);
    if st.senders[s].at == st.mem.from { CheckNext(cfg, st, s); }
    var next := AfterCheck(cfg, st.mem, st.senders[s].at);
    if next.None? {
      LeaveInv(cfg, st, s);
    } else {
      CheckRest(cfg, st, StepCheck(cfg, st, s), s, next.value);
    }
  }

  lemma CheckRest(cfg: Config, st: State, st': State, s: SenderId, next: Point)
    requires Geometry(cfg, st) && SendersOk(cfg, st) && AllAttended(cfg, st) && Tended(cfg, st) && InOrder(st)
    requires s in st.senders && st.senders[s].CatchingUp? && SenderOk(cfg, st, s)
    requires next.Publishing? && next.seen == st.senders[s].at
    requires next.seen == st.mem.from ==>
      Due(cfg, st) && next == Publishing(st.mem.from, End(cfg, st.hist.log[st.hist.published]))
    requires st' == st.(senders := st.senders[s := next])
    ensures Geometry(cfg, st') && SendersOk(cfg, st') && AllAttended(cfg, st') && Tended(cfg, st') && InOrder(st')
  {
    forall x | x in st'.senders ensures SenderOk(cfg, st', x) {
      assert SenderOk(cfg, st, x);
    }
    forall i | 0 <= i < |st'.hist.log| ensures Attended(cfg, st', i) {
      assert Attended(cfg, st, i);
    }
  }

  /** The unused tail of a lap shows a blank header at the rewind point, and only blank bytes. */
  lemma TailBlank(cfg: Config, st: State, i: nat)
    requires Geometry(cfg, st) && Contents(cfg, st.mem.buf, st.hist.log, Consumed(st))
    requires Consumed(st) <= i < |st.hist.log| && EndPos(cfg, st.hist.log, i) != StartPos(st.hist.log, i)
    requires Le(ReceiverPos(st), EndPos(cfg, st.hist.log, i))
    ensures forall b :: EndPos(cfg, st.hist.log, i).ptr <= b < cfg.size ==> st.mem.buf[b] == BLANK_BYTE
    ensures IsBlank(SizeWord(cfg, st.mem.buf, EndPos(cfg, st.hist.log, i).ptr))
  {
    var log := st.hist.log;
    var p := EndPos(cfg, log, i);
    assert Link(cfg, log, i);
    Located(cfg, st, i);
    forall b | p.ptr <= b < cfg.size ensures st.mem.buf[b] == BLANK_BYTE {
      forall j | Consumed(st) <= j < |log| ensures !Covers(cfg, log[j], b) {
        TailUncovered(cfg, st, i, j);
      }
      assert Uncovered(cfg, log, Consumed(st), b);
    }
    BlankWord(cfg, st.mem.buf, p.ptr);
  }

  lemma TailUncovered(cfg: Config, st: State, i: nat, j: nat)
    requires Geometry(cfg, st) && Consumed(st) <= i < |st.hist.log| && Consumed(st) <= j < |st.hist.log|
    requires EndPos(cfg, st.hist.log, i) != StartPos(st.hist.log, i)
    requires Le(ReceiverPos(st), EndPos(cfg, st.hist.log, i))
    ensures End(cfg, st.hist.log[j]) <= EndPos(cfg, st.hist.log, i).ptr
  {
    var log := st.hist.log;
    assert Link(cfg, log, i);
    Located(cfg, st, i);
    Located(cfg, st, j);
    if j < i {
      EndPosMonotone(cfg, log, j + 1, i);
    } else if i < j {
      StartsOrdered(cfg, log, i, j);
    }
  }

  /** A sender that still stands at `from` goes on exactly when the next message is ready. */
  lemma CheckNext(cfg: Config, st: State, s: SenderId)
    requires Geometry(cfg, st) && Contents(cfg, st.mem.buf, st.hist.log, Consumed(st))
    requires s in st.senders && st.senders[s].CatchingUp? && st.senders[s].at == st.mem.from
    ensures AfterCheck(cfg, st.mem, st.mem.from) ==
            if Due(cfg, st) then Some(Publishing(st.mem.from, End(cfg, st.hist.log[st.hist.published]))) else None
  {
    var log, p := st.hist.log, st.hist.published;
    FromBelowTo(cfg, st);
    if p < |log| {
      if st.mem.from == StartPos(log, p) {
        assert Link(cfg, log, p) && Holds(cfg, st.mem.buf, log[p]);
        HeaderSeen(cfg, st.mem, log[p], st.mem.from.lap);
      } else {
        TailBlank(cfg, st, p);
      }
    }
  }

  // ---------------------------------------------------------------- the receiver

  /** Where the receiver stands, by comparing pointers only: exactly at the next published message, at the
      unused tail before it, or level with `from`. */
  lemma ReceiverSees(cfg: Config, st: State)
    requires Geometry(cfg, st)
    ensures st.mem.from.ptr == st.mem.receiver ==> Consumed(st) == st.hist.published && ReceiverPos(st) == st.mem.from
    ensures st.mem.receiver < st.mem.from.ptr ==>
      Consumed(st) < st.hist.published && ReceiverPos(st) == StartPos(st.hist.log, Consumed(st))
    ensures st.mem.from.ptr < st.mem.receiver ==>
      Consumed(st) < |st.hist.log| && st.mem.from.lap == st.hist.receiverLap + 1 &&
      (ReceiverPos(st) == StartPos(st.hist.log, Consumed(st)) ==> Consumed(st) < st.hist.published)
  {
    var log, c := st.hist.log, Consumed(st);
    FromBelowTo(cfg, st);
    if c < |log| {
      assert Link(cfg, log, c);
      Located(cfg, st, c);
      EndPosMonotone(cfg, log, c, c);
      if c < st.hist.published {
        EndPosMonotone(cfg, log, c + 1, st.hist.published);
        EndPosMonotone(cfg, log, st.hist.published, st.hist.published);
      }
    }
  }

  /** The receiver reports a message exactly when a published one is left, and then stands at it. */
  lemma ReceiveExact(cfg: Config, st: State)
    requires Geometry(cfg, st) && Contents(cfg, st.mem.buf, st.hist.log, Consumed(st)) && AllAttended(cfg, st)
    ensures var st' := StepReceive(cfg, st);
            (st'.holding <==> Consumed(st) < st.hist.published) &&
            (st'.holding ==> ReceiverPos(st') == StartPos(st.hist.log, Consumed(st))) &&
            (ReceiverPos(st') == ReceiverPos(st) ||
             (ReceiverPos(st) == EndPos(cfg, st.hist.log, Consumed(st)) && Consumed(st) < |st.hist.log| &&
              ReceiverPos(st') == StartPos(st.hist.log, Consumed(st)) && Le(ReceiverPos(st'), st.mem.from)))
  {
    var log, c := st.hist.log, Consumed(st);
    ReceiverSees(cfg, st);
    if st.mem.from.ptr < st.mem.receiver {
      assert Link(cfg, log, c) && Holds(cfg, st.mem.buf, log[c]) && Attended(cfg, st, c);
      if ReceiverPos(st) == StartPos(log, c) {
        WordOf(cfg, st.mem.buf, log[c]);
        WordClass(cfg, |log[c].msg.content|);
      } else {
        TailBlank(cfg, st, c);
        Located(cfg, st, c);
        if c < st.hist.published {
          EndPosMonotone(cfg, log, c + 1, st.hist.published);
          EndPosMonotone(cfg, log, st.hist.published, st.hist.published);
        }
      }
    }
  }

  lemma ReceiveInv(cfg: Config, st: State)
    requires Inv(cfg, st)
    ensures Inv(cfg, StepReceive(cfg, st))
  {
    ReceiveExact(cfg, st);
    ReceiveRest(cfg, st, StepReceive(cfg, st));
  }

  lemma ReceiveRest(cfg: Config, st: State, st': State)
    requires Geometry(cfg, st) && SendersOk(cfg, st) && AllAttended(cfg, st) && Tended(cfg, st) && InOrder(st)
    requires st' == st.(mem := st.mem.(receiver := st'.mem.receiver), holding := st'.holding,
                        hist := st.hist.(receiverLap := st'.hist.receiverLap))
    requires st'.holding ==> Consumed(st) < st.hist.published && ReceiverPos(st') == StartPos(st.hist.log, Consumed(st))
    requires ReceiverPos(st') == ReceiverPos(st) ||
             (ReceiverPos(st) == EndPos(cfg, st.hist.log, Consumed(st)) && Consumed(st) < |st.hist.log| &&
              ReceiverPos(st') == StartPos(st.hist.log, Consumed(st)) && Le(ReceiverPos(st'), st.mem.from))
    ensures Geometry(cfg, st') && SendersOk(cfg, st') && AllAttended(cfg, st') && Tended(cfg, st') && InOrder(st')
  {
    if ReceiverPos(st') != ReceiverPos(st) {
      Located(cfg, st, Consumed(st));
      assert Link(cfg, st.hist.log, Consumed(st));
    }
    ForwardRest(cfg, st, st');
  }

  /** Steps that only move the receiver forward leave the senders' part of the invariant alone. */
  lemma ForwardRest(cfg: Config, st: State, st': State)
    requires Geometry(cfg, st) && SendersOk(cfg, st) && AllAttended(cfg, st) && Tended(cfg, st)
    requires Geometry(cfg, st') && Le(ReceiverPos(st), ReceiverPos(st')) && st'.senders == st.senders
    requires st'.mem.from == st.mem.from && st'.mem.to == st.mem.to
    requires st'.hist == st.hist.(got := st'.hist.got, receiverLap := st'.hist.receiverLap)
    ensures SendersOk(cfg, st') && AllAttended(cfg, st') && Tended(cfg, st')
  {
    forall x | x in st'.senders ensures SenderOk(cfg, st', x) {
      assert SenderOk(cfg, st, x);
    }
    forall i | 0 <= i < |st'.hist.log| ensures Attended(cfg, st', i) {
      assert Attended(cfg, st, i);
    }
  }

  lemma ConsumeInv(cfg: Config, st: State)
    requires Inv(cfg, st) && Enabled(cfg, st, Consume)
    ensures InBounds(cfg, st, Consume) && Inv(cfg, StepConsume(cfg, st))
  {
    ConsumeIs(cfg, st);
    var st' := StepConsume(cfg, st);
    ConsumeContents(cfg, st);
    ConsumeRest(cfg, st, st');
  }

  lemma DeliveredIs(cfg: Config, buf: seq<Byte>, r: Reservation)
    requires cfg.Ok() && Legal(cfg, r.msg) && r.stage == Ready && Holds(cfg, buf, r)
    ensures MsgSize(cfg, SizeWord(cfg, buf, r.start)) == Length(cfg, r)
    ensures Delivered(cfg, buf, r.start) == r.msg
  {
    WordOf(cfg, buf, r);
    WordClass(cfg, |r.msg.content|);
    SubSlice(buf, r.start, End(cfg, r), 0, cfg.offset - 4);
    SubSlice(buf, r.start, End(cfg, r), cfg.offset, Length(cfg, r));
    assert Image(r.msg, true)[..cfg.offset - 4] == r.msg.header;
    assert Image(r.msg, true)[cfg.offset..] == r.msg.content;
  }

  /** The receiver is handed, byte for byte, the message of the oldest unconsumed reservation. */
  lemma ConsumeIs(cfg: Config, st: State)
    requires Geometry(cfg, st) && Contents(cfg, st.mem.buf, st.hist.log, Consumed(st)) && AllAttended(cfg, st)
    requires Enabled(cfg, st, Consume)
    ensures InBounds(cfg, st, Consume)
    ensures var r := st.hist.log[Consumed(st)];
            Delivered(cfg, st.mem.buf, st.mem.receiver) == r.msg &&
            MsgSize(cfg, SizeWord(cfg, st.mem.buf, st.mem.receiver)) == Length(cfg, r)
  {
    var c := Consumed(st);
    assert Link(cfg, st.hist.log, c) && Holds(cfg, st.mem.buf, st.hist.log[c]) && Attended(cfg, st, c);
    DeliveredIs(cfg, st.mem.buf, st.hist.log[c]);
  }

  lemma ContentsDrop(cfg: Config, buf: seq<Byte>, log: seq<Reservation>, c: nat)
    requires Contents(cfg, buf, log, c) && c < |log| && End(cfg, log[c]) <= |buf|
    requires forall i :: c < i < |log| ==> End(cfg, log[i]) <= log[c].start || End(cfg, log[c]) <= log[i].start
    ensures Contents(cfg, Splice(buf, log[c].start, Blanks(Length(cfg, log[c]))), log, c + 1)
  {
    var r := log[c];
    var blank := Blanks(Length(cfg, r));
    var buf' := Splice(buf, r.start, blank);
    forall i | c + 1 <= i < |log| ensures Holds(cfg, buf', log[i]) {
      assert Holds(cfg, buf, log[i]);
      assert buf'[log[i].start..End(cfg, log[i])] == buf[log[i].start..End(cfg, log[i])];
    }
    forall b | 0 <= b < |buf'| && Uncovered(cfg, log, c + 1, b) ensures buf'[b] == BLANK_BYTE {
      if Covers(cfg, r, b) {
        assert buf'[r.start..End(cfg, r)][b - r.start] == blank[b - r.start];
      } else {
        assert Uncovered(cfg, log, c, b);
      }
    }
  }

  lemma ConsumeContents(cfg: Config, st: State)
    requires Geometry(cfg, st) && Contents(cfg, st.mem.buf, st.hist.log, Consumed(st)) && AllAttended(cfg, st)
    requires Enabled(cfg, st, Consume) && InBounds(cfg, st, Consume)
    ensures var st' := StepConsume(cfg, st); Contents(cfg, st'.mem.buf, st'.hist.log, Consumed(st'))
  {
    var c := Consumed(st);
    ConsumeIs(cfg, st);
    assert Link(cfg, st.hist.log, c);
    OthersApart(cfg, st, c);
    ContentsDrop(cfg, st.mem.buf, st.hist.log, c);
  }

  lemma ConsumeRest(cfg: Config, st: State, st': State)
    requires Geometry(cfg, st) && SendersOk(cfg, st) && AllAttended(cfg, st) && Tended(cfg, st) && InOrder(st)
    requires st.holding
    requires st' == st.(mem := st.mem.(buf := st'.mem.buf, receiver := End(cfg, st.hist.log[Consumed(st)])),
                        holding := false,
                        hist := st.hist.(got := st.hist.got + [st.hist.log[Consumed(st)].msg]))
    ensures Geometry(cfg, st') && SendersOk(cfg, st') && AllAttended(cfg, st') && Tended(cfg, st') && InOrder(st')
  {
    var c := Consumed(st);
    assert Link(cfg, st.hist.log, c);
    Located(cfg, st, c);
    EndPosMonotone(cfg, st.hist.log, c + 1, st.hist.published);
    EndPosMonotone(cfg, st.hist.log, st.hist.published, st.hist.published);
    ForwardRest(cfg, st, st');
  }
}
