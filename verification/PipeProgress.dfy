/** No run gets stuck: from every reachable state the senders at work can finish and the receiver can take it all. */
module PipeProgress {
  import opened Options
  import opened PipeBytes
  import opened PipeProtocol
  import opened PipeInvariant
  import opened PipeSteps
  import opened PipeTheorems

  /** The events of a sender that has its space: they start nothing new. */
  predicate Works(e: Event) { e.Write? || e.MarkReady? || e.Rewind? || e.Cas? || e.Check? }

  predicate AllWork(es: seq<Event>) { forall i :: 0 <= i < |es| ==> Works(es[i]) }

  predicate Busy(p: Point) { p.Reserved? || p.Written? || p.Publishing? || p.CatchingUp? }

  /** What a sender that is not spinning does next. */
  function Task(s: SenderId, p: Point): (e: Event) {
    if p.Reserved? then Write(s) else if p.Written? then MarkReady(s) else if p.Publishing? then Cas(s) else Check(s)
  }

  /** While some sender is at work, one of them can go on: no set of senders waits for each other. When all of them
      spin, `from` has reached the rewind point of the one whose message is next. */
  lemma SomeoneGoesOn(cfg: Config, st: State) returns (e: Event)
    requires Inv(cfg, st) && !Quiet(st)
    ensures Works(e) && Enabled(cfg, st, e)
  {
    if s :| s in st.senders && Busy(st.senders[s]) {
      e := Task(s, st.senders[s]);
    } else {
      var s := SpinnerGoesOn(cfg, st);
      e := Rewind(s);
    }
  }

  lemma SpinnerGoesOn(cfg: Config, st: State) returns (s: SenderId)
    requires Inv(cfg, st) && !Quiet(st) && forall s :: s in st.senders ==> !Busy(st.senders[s])
    ensures Enabled(cfg, st, Rewind(s))
  {
    var x :| x in st.senders && !st.senders[x].Looked?;
    assert SenderOk(cfg, st, x) && Owns(st, x, st.hist.own[x]);
    var log, p := st.hist.log, st.hist.published;
    assert Attended(cfg, st, p) && Link(cfg, log, p);
    EndPosMonotone(cfg, log, p, p);
    s := log[p].sender;
    assert SenderOk(cfg, st, s);
  }

  // ---------------------------------------------------------------- the senders finish

  /** The senders at each kind of point. */
  ghost function At(st: State, kind: Point -> bool): (ss: set<SenderId>) {
    set s | s in st.senders && kind(st.senders[s])
  }

  ghost function Unpublished(st: State): (n: nat) {
    if st.hist.published <= |st.hist.log| then |st.hist.log| - st.hist.published else 0
  }

  ghost predicate Fewer(a: State, b: State, kind: Point -> bool) { At(a, kind) < At(b, kind) }

  const reserved: Point -> bool := (p: Point) => p.Reserved?
  const written: Point -> bool := (p: Point) => p.Written?
  const spinning: Point -> bool := (p: Point) => p.Spinning?
  const catching: Point -> bool := (p: Point) => p.CatchingUp?
  const publishing: Point -> bool := (p: Point) => p.Publishing?

  /** Every event of work brings the senders closer to being done. */
  ghost predicate Closer(a: State, b: State) {
    if At(a, reserved) != At(b, reserved) then Fewer(a, b, reserved)
    else if At(a, written) != At(b, written) then Fewer(a, b, written)
    else if At(a, spinning) != At(b, spinning) then Fewer(a, b, spinning)
    else if Unpublished(a) != Unpublished(b) then Unpublished(a) < Unpublished(b)
    else if At(a, catching) != At(b, catching) then Fewer(a, b, catching)
    else Fewer(a, b, publishing)
  }

  ghost predicate OnlyMoves(a: State, b: State, s: SenderId) {
    s in b.senders && forall x :: x != s ==> PipeProtocol.At(a, x) == PipeProtocol.At(b, x)
  }

  predicate Is(st: State, s: SenderId, kind: Point -> bool) { s in st.senders && kind(st.senders[s]) }

  /** One sender leaves its kind of point, and no other sender moves. */
  lemma Leaves(a: State, b: State, s: SenderId, kind: Point -> bool)
    requires OnlyMoves(a, b, s) && Is(b, s, kind) && !Is(a, s, kind)
    ensures Fewer(a, b, kind)
  {
    Within(a, b, s, kind);
    assert s in At(b, kind) && s !in At(a, kind);
  }

  lemma Stays(a: State, b: State, s: SenderId, kind: Point -> bool)
    requires OnlyMoves(a, b, s) && (Is(b, s, kind) <==> Is(a, s, kind))
    ensures At(a, kind) == At(b, kind)
  {
    Within(a, b, s, kind);
  }

  lemma Within(a: State, b: State, s: SenderId, kind: Point -> bool)
    requires OnlyMoves(a, b, s)
    ensures forall x :: x != s ==> (x in At(a, kind) <==> x in At(b, kind))
  {
    forall x | x != s ensures x in At(a, kind) <==> x in At(b, kind) {
      assert PipeProtocol.At(a, x) == PipeProtocol.At(b, x);
    }
  }

  lemma WorkIsProgress(cfg: Config, st: State, e: Event)
    requires Inv(cfg, st) && Works(e) && Enabled(cfg, st, e) && InBounds(cfg, st, e)
    ensures Closer(Step(cfg, st, e), st)
  {
    match e
    case Write(s) => Leaves(StepWrite(cfg, st, s), st, s, reserved);
    case MarkReady(s) => ReadyIsProgress(cfg, st, s, StepReady(cfg, st, s));
    case Rewind(s) => RewindIsProgress(cfg, st, s, StepRewind(cfg, st, s));
    case Cas(s) => CasIsProgress(cfg, st, s, StepCas(st, s));
    case Check(s) => CheckIsProgress(cfg, st, s, StepCheck(cfg, st, s));
  }

  lemma ReadyIsProgress(cfg: Config, st: State, s: SenderId, a: State)
    requires Enabled(cfg, st, MarkReady(s)) && InBounds(cfg, st, MarkReady(s)) && a == StepReady(cfg, st, s)
    ensures Closer(a, st)
  {
    Stays(a, st, s, reserved);
    Leaves(a, st, s, written);
  }

  lemma RewindIsProgress(cfg: Config, st: State, s: SenderId, a: State)
    requires 4 <= cfg.offset && s in st.senders && st.senders[s].Spinning? && a == StepRewind(cfg, st, s)
    ensures Closer(a, st)
  {
    Stays(a, st, s, reserved);
    Stays(a, st, s, written);
    Leaves(a, st, s, spinning);
  }

  lemma CasIsProgress(cfg: Config, st: State, s: SenderId, a: State)
    requires Inv(cfg, st) && s in st.senders && st.senders[s].Publishing? && a == StepCas(st, s)
    ensures Closer(a, st)
  {
    assert SenderOk(cfg, st, s);
    Stays(a, st, s, reserved);
    Stays(a, st, s, written);
    Stays(a, st, s, spinning);
    if st.mem.from != st.senders[s].seen {
      Stays(a, st, s, catching);
      Leaves(a, st, s, publishing);
    }
  }

  lemma CheckIsProgress(cfg: Config, st: State, s: SenderId, a: State)
    requires 4 <= cfg.offset && s in st.senders && st.senders[s].CatchingUp? && a == StepCheck(cfg, st, s)
    ensures Closer(a, st)
  {
    Stays(a, st, s, reserved);
    Stays(a, st, s, written);
    Stays(a, st, s, spinning);
    Leaves(a, st, s, catching);
  }

  /** Work neither sends nor takes. */
  lemma WorkSendsNothing(cfg: Config, run: seq<Event>, e: Event)
    requires Run(cfg, run) && Works(e) && Enabled(cfg, After(cfg, run), e)
    ensures Run(cfg, run + [e]) && Sent(cfg, run + [e]) == Sent(cfg, run) && Taken(cfg, run + [e]) == Taken(cfg, run)
    ensures After(cfg, run + [e]) == Step(cfg, After(cfg, run), e) && InBounds(cfg, After(cfg, run), e)
  {
    RunExtends(cfg, run, e);
    assert (run + [e])[..|run|] == run;
  }

  /** Whatever a run has come to, the senders that have their space can finish, by their own steps alone. */
  lemma SendersFinish(cfg: Config, run: seq<Event>) returns (more: seq<Event>)
    requires Run(cfg, run)
    ensures AllWork(more) && Run(cfg, run + more) && Quiet(After(cfg, run + more))
    ensures Sent(cfg, run + more) == Sent(cfg, run) && Taken(cfg, run + more) == Taken(cfg, run)
  {
    var whole;
    more, whole := FinishFrom(cfg, run, ToDo(After(cfg, run)));
  }

  datatype Left = Left(reserved: set<SenderId>, written: set<SenderId>, spinning: set<SenderId>, unpublished: nat,
                       catching: set<SenderId>, publishing: set<SenderId>)

  ghost function ToDo(st: State): (l: Left) {
    Left(At(st, reserved), At(st, written), At(st, spinning), Unpublished(st), At(st, catching), At(st, publishing))
  }

  /** `whole` goes on from `run` without sending or taking anything. */
  ghost predicate GoesOn(cfg: Config, run: seq<Event>, whole: seq<Event>) {
    Run(cfg, run) && Run(cfg, whole) && Sent(cfg, whole) == Sent(cfg, run) && Taken(cfg, whole) == Taken(cfg, run)
  }

  lemma Appended(run: seq<Event>, e: Event, rest: seq<Event>)
    ensures run + ([e] + rest) == run + [e] + rest && run + [] == run
  {
  }

  lemma {:induction false} FinishFrom(cfg: Config, run: seq<Event>, l: Left)
    returns (more: seq<Event>, whole: seq<Event>)
    requires Run(cfg, run) && l == ToDo(After(cfg, run))
    ensures whole == run + more && AllWork(more) && GoesOn(cfg, run, whole) && Quiet(After(cfg, whole))
    decreases l.reserved, l.written, l.spinning, l.unpublished, l.catching, l.publishing
  {
    if Quiet(After(cfg, run)) {
      more, whole := [], run;
      assert run + [] == run;
    } else {
      var e, longer := FinishStep(cfg, run);
      var rest;
      rest, whole := FinishFrom(cfg, longer, ToDo(After(cfg, longer)));
      more := [e] + rest;
      Appended(run, e, rest);
    }
  }

  lemma FinishStep(cfg: Config, run: seq<Event>) returns (e: Event, longer: seq<Event>)
    requires Run(cfg, run) && !Quiet(After(cfg, run))
    ensures Works(e) && longer == run + [e] && GoesOn(cfg, run, longer) && Closer(After(cfg, longer), After(cfg, run))
  {
    RunInv(cfg, run);
    e := SomeoneGoesOn(cfg, After(cfg, run));
    WorkSendsNothing(cfg, run, e);
    WorkIsProgress(cfg, After(cfg, run), e);
    longer := run + [e];
  }

  // ---------------------------------------------------------------- the receiver takes it all

  predicate FinishesOnly(es: seq<Event>) {
    forall i :: 0 <= i < |es| ==> Works(es[i]) || es[i].Receive? || es[i].Consume?
  }

  /** No run is ever stuck: from every state of every run the threads at work can go on, without a new message, until
      the receiver has taken everything ever sent. */
  lemma EverythingArrives(cfg: Config, run: seq<Event>) returns (more: seq<Event>)
    requires Run(cfg, run)
    ensures FinishesOnly(more) && Run(cfg, run + more) && Taken(cfg, run + more) == Sent(cfg, run)
  {
    var work := SendersFinish(cfg, run);
    Fifo(cfg, run + work);
    var n := |Sent(cfg, run)| - |Taken(cfg, run)|;
    var whole := Drained(cfg, run + work, n);
    more := whole[|run|..];
    assert run + more == whole by {
      assert whole[..|run|] == run;
    }
    forall i | 0 <= i < |more| ensures Works(more[i]) || more[i].Receive? || more[i].Consume? {
      assert more[i] == whole[|run| + i];
      if i < |work| { assert whole[|run| + i] == (run + work)[|run| + i]; }
    }
  }
}
