/** What sessions promise, over every run: any order of events, timeouts and retries. */
module SessionTheorems {
  import opened Options
  import opened Session
  import opened SessionInvariant

  // ---------------------------------------------------------------- handlers

  /** A time check that passes leaves the talk inside its deadline, which has not come. */
  lemma CheckKeepsTime(t: Talk, w: Watch, now: int, limit: int)
    requires InTime(t, w) && CheckTimeout(w, now, limit).Some?
    requires 0 <= limit && (limit != 0 ==> limit <= t.endtimeMs - now)
    ensures var c := CheckTimeout(w, now, limit).value;
            now < t.endtimeMs && InTime(t, Rearm(c, now)) && Rearm(c, now).fd == w.fd
  {
  }

  /** After a handler, the talk waits again, in time; or its event is gone and it is to be finished. */
  ghost predicate Handled(s: Sess, r: Sess, i: nat, more: bool) {
    OnlyTalk(s, r, i) && r.numTalksDone == s.numTalksDone && r.hasFailure == s.hasFailure && r.reports == s.reports &&
    r.traces == s.traces && r.talks[i].retry == s.talks[i].retry && r.talks[i].endtimeMs == s.talks[i].endtimeMs &&
    !Skipped(r.talks[i]) &&
    if more then i in r.watch && Waiting(r.talks[i], r.watch[i], r.traces[i]) && |r.watch| == |s.watch|
    else i !in r.watch && |r.watch| == |s.watch| - 1
  }

  /** The time a check looks at has not run out. */
  predicate TimeLeft(w: Watch, now: int) { now < w.lasttimeMs + w.timeleftMs }

  /** The talk waits again in this status: for `limit`, or for what is left of its time when that is 0. */
  predicate GoesOn(t: Talk, w: Watch, status: Status, limit: int, now: int, t': Talk, w': Watch) {
    var left := if limit != 0 then limit else w.lasttimeMs + w.timeleftMs - now;
    now < t.endtimeMs && t' == t.(status := status) && w' == Watch(w.fd, left, now, Some(now + left))
  }

  /** The attempt is over with this error, its descriptor closed if there is one; what a retry needs stays. */
  predicate Ends(t: Talk, error: Error, t': Talk) {
    t'.error == error && t'.fd == (if error.Ok? then t.fd else -1) && t'.category == t.category &&
    t'.retry == t.retry && t'.endtimeMs == t.endtimeMs && t'.remote == t.remote && t'.failRemotes == t.failRemotes
  }

  lemma RewatchCounts(m: map<nat, Watch>, i: nat, w: Watch)
    requires i in m
    ensures |m[i := w]| == |m|
  {
    assert m[i := w].Keys == m.Keys;
    assert |m[i := w]| == |m[i := w].Keys| && |m| == |m.Keys|;
  }

  /** Going on: the talk waits again exactly when its time has not run out and the event can be registered. */
  lemma ContinueHandles(s: Sess, i: nat, status: Status, limit: int, now: int, regOk: bool)
    requires i < |s.talks| && i < |s.traces| && i in s.watch
    requires Waiting(s.talks[i].(status := status), s.watch[i], s.traces[i]) && !Skipped(s.talks[i]) && !status.End?
    requires CheckTimeout(s.watch[i], now, limit).Some? ==>
      0 <= limit && (limit != 0 ==> limit <= s.talks[i].endtimeMs - now)
    ensures var (r, more) := Continue(s, i, status, limit, now, regOk);
            Handled(s, r, i, more) && (more <==> TimeLeft(s.watch[i], now) && regOk) &&
            if more then GoesOn(s.talks[i], s.watch[i], status, limit, now, r.talks[i], r.watch[i])
            else Ends(s.talks[i], if TimeLeft(s.watch[i], now) then Other else Timeout, r.talks[i])
  {
    var w := CheckTimeout(s.watch[i], now, limit);
    if w.Some? {
      CheckKeepsTime(s.talks[i], s.watch[i], now, limit);
      RewatchCounts(s.watch, i, Rearm(w.value, now));
    }
    WatchShrinks(s.watch, i);
  }

  /** The limit a handler passes on is never past the deadline. */
  lemma LimitInTime(t: Talk, w: Watch, now: int, phase: int)
    requires InTime(t, w) && 0 <= phase && CheckTimeout(w, now, Min(t.endtimeMs - now, phase)).Some?
    ensures 0 <= Min(t.endtimeMs - now, phase) <= t.endtimeMs - now && now < t.endtimeMs
  {
  }

  lemma ThroughHandles(s: Sess, i: nat)
    requires i < |s.talks| && i < |s.traces| && i in s.watch && !Skipped(s.talks[i])
    ensures Handled(s, Through(s, i), i, false)
  {
    WatchShrinks(s.watch, i);
  }

  lemma DropHandles(s: Sess, i: nat, e: Error)
    requires i < |s.talks| && i < |s.traces| && i in s.watch && !Skipped(s.talks[i])
    ensures Handled(s, Drop(s, i, e), i, false)
  {
    WatchShrinks(s.watch, i);
  }

  /** Moving the status on first makes no difference. */
  lemma HandledFrom(s: Sess, s1: Sess, r: Sess, i: nat, more: bool)
    requires i < |s.talks| == |s1.talks| && s1 == s.(talks := s.talks[i := s.talks[i].(status := s1.talks[i].status)])
    requires Handled(s1, r, i, more)
    ensures Handled(s, r, i, more)
  {
    assert forall j :: 0 <= j < |s.talks| && j != i ==> s1.talks[j] == s.talks[j];
  }

  /** A connected talk goes on to its first transfer exactly when its time has not run out and its event can be
      registered: for the time of that transfer, but not beyond its deadline. Otherwise it is dropped with an error. */
  lemma ConnHandles(s: Sess, i: nat, regOk: bool, now: int)
    requires i < |s.talks| && i < |s.traces| && i in s.watch
    requires Waiting(s.talks[i], s.watch[i], s.traces[i]) && s.talks[i].status.Conn?
    ensures var (r, more) := HandleConn(s, i, regOk, now);
            var t, remote := s.talks[i], s.talks[i].remote.value;
            var phase := if t.category.ReadOnly? then remote.rtimeoMs else remote.wtimeoMs;
            Handled(s, r, i, more) && (more <==> TimeLeft(s.watch[i], now) && regOk) &&
            if more then GoesOn(t, s.watch[i], if t.category.ReadOnly? then Read else Write,
                                Min(t.endtimeMs - now, phase), now, r.talks[i], r.watch[i])
            else Ends(t, if TimeLeft(s.watch[i], now) then Other else Timeout, r.talks[i])
  {
    var t, w := s.talks[i], s.watch[i];
    var next := FirstStatus(t.category);
    var phase := if t.category.ReadOnly? then t.remote.value.rtimeoMs else t.remote.value.wtimeoMs;
    var s1 := s.(talks := s.talks[i := t.(status := next)]);
    if CheckTimeout(w, now, Min(t.endtimeMs - now, phase)).Some? { LimitInTime(t, w, now, phase); }
    ContinueHandles(s1, i, next, Min(t.endtimeMs - now, phase), now, regOk);
    var (r, more) := HandleConn(s, i, regOk, now);
    HandledFrom(s, s1, r, i, more);
  }

  /** A talk that reads goes on exactly when more is to come, its time has not run out and its event can be registered;
      it ends without an error exactly when the answer is complete and decodes. */
  lemma ReadHandles(s: Sess, i: nat, progress: Progress, decodeOk: bool, regOk: bool, now: int)
    requires i < |s.talks| && i < |s.traces| && i in s.watch
    requires Waiting(s.talks[i], s.watch[i], s.traces[i]) && s.talks[i].status.Read?
    ensures var (r, more) := HandleRead(s, i, progress, decodeOk, regOk, now);
            Handled(s, r, i, more) && (more <==> progress.More? && TimeLeft(s.watch[i], now) && regOk) &&
            if more then GoesOn(s.talks[i], s.watch[i], Read, 0, now, r.talks[i], r.watch[i])
            else Ends(s.talks[i], if progress.Failed? then Broken
                                  else if progress.Finished? then (if decodeOk then Ok else Decode)
                                  else if TimeLeft(s.watch[i], now) then Other else Timeout, r.talks[i])
  {
    match progress
    case Finished => ThroughHandles(s, i); DropHandles(s, i, Decode);
    case More => ContinueHandles(s, i, Read, 0, now, regOk);
    case Failed => DropHandles(s, i, Broken);
  }

  /** A talk that writes goes on exactly when more is to be written, or all is written and an answer is awaited, its
      time has not run out and its event can be registered; it then waits for the answer for the remote's read time, but
      not beyond its deadline. It ends without an error exactly when all is written and no answer is awaited. */
  lemma WriteHandles(s: Sess, i: nat, progress: Progress, regOk: bool, now: int)
    requires i < |s.talks| && i < |s.traces| && i in s.watch
    requires Waiting(s.talks[i], s.watch[i], s.traces[i]) && s.talks[i].status.Write?
    ensures s.talks[i].category.WriteAndRead? ==> s.talks[i].remote.Some?
    ensures var (r, more) := HandleWrite(s, i, progress, regOk, now);
            var t, answer := s.talks[i], progress.Finished? && s.talks[i].category.WriteAndRead?;
            Handled(s, r, i, more) && (more <==> (progress.More? || answer) && TimeLeft(s.watch[i], now) && regOk) &&
            if more then GoesOn(t, s.watch[i], if answer then Read else Write,
                                if answer then Min(t.endtimeMs - now, t.remote.value.rtimeoMs) else 0,
                                now, r.talks[i], r.watch[i])
            else Ends(t, if progress.Failed? then Broken
                         else if progress.Finished? && !answer then Ok
                         else if TimeLeft(s.watch[i], now) then Other else Timeout, r.talks[i])
  {
    var t, w := s.talks[i], s.watch[i];
    match progress
    case Finished =>
      if t.category.WriteAndRead? {
        var phase := t.remote.value.rtimeoMs;
        if CheckTimeout(w, now, Min(t.endtimeMs - now, phase)).Some? { LimitInTime(t, w, now, phase); }
        ContinueHandles(s, i, Read, Min(t.endtimeMs - now, phase), now, regOk);
      } else {
        ThroughHandles(s, i);
      }
    case More => ContinueHandles(s, i, Write, 0, now, regOk);
    case Failed => DropHandles(s, i, Broken);
  }

  /** After an event, whatever it brings. */
  lemma EventHandles(s: Sess, i: nat, io: Io, now: int)
    requires i < |s.talks| && i < |s.traces| && i in s.watch
    requires Waiting(s.talks[i], s.watch[i], s.traces[i])
    ensures s.talks[i].status.Conn? || s.talks[i].category.WriteAndRead? ==> s.talks[i].remote.Some?
    ensures var (r, more) := if io.ErrEvent? then (Drop(s, i, Broken), false) else Handle(s, i, io, now);
            Handled(s, r, i, more)
  {
    if io.ErrEvent? { DropHandles(s, i, Broken); }
    else if s.talks[i].status.Conn? { ConnHandles(s, i, io.regOk, now); }
    else if s.talks[i].status.Read? { ReadHandles(s, i, io.progress, io.decodeOk, io.regOk, now); }
    else { WriteHandles(s, i, io.progress, io.regOk, now); }
  }

  // ---------------------------------------------------------------- steps

  /** A report tells the truth about a session in which every talk is done. */
  ghost predicate ReportTrue(s: Sess, r: Report)
    requires |s.traces| == |s.talks|
  {
    match r
    case ReportOk => forall i :: 0 <= i < |s.talks| && !Skipped(s.talks[i]) ==> s.traces[i].verdict == Success
    case ReportPartial => exists i :: 0 <= i < |s.talks| && !Skipped(s.talks[i]) && s.traces[i].verdict == Failure
    case ReportBroken => true
  }

  /** Reported at most once, and only when no event refers to the session any more. */
  ghost predicate Reported(s: Sess) {
    |s.traces| == |s.talks| && |s.reports| <= 1 &&
    (s.watch == map[] <==> s.reports != []) &&
    (forall k :: 0 <= k < |s.reports| ==> ReportTrue(s, s.reports[k]))
  }

  ghost predicate Good(s: Sess, talks: seq<Talk>) { Inv(s, talks) && Reported(s) }

  lemma EmptyMeansAllDone(s: Sess, talks: seq<Talk>)
    requires Inv(s, talks)
    ensures s.numTalksDone == |s.talks| <==> s.watch == map[]
  {
    assert |s.watch| == 0 <==> s.watch == map[];
  }

  /** When no event is left, the failure flag decides between the two verdicts. */
  lemma VerdictTrue(s: Sess, talks: seq<Talk>)
    requires Inv(s, talks) && s.watch == map[]
    ensures ReportTrue(s, if s.hasFailure then ReportPartial else ReportOk)
  {
    forall i | 0 <= i < |s.talks| ensures !Skipped(s.talks[i]) <==> s.traces[i].verdict != Undecided {
      assert TalkOk(s, i, {}, talks[i].retry);
    }
    if s.hasFailure {
      var i :| 0 <= i < |s.traces| && s.traces[i].verdict == Failure;
      assert 0 <= i < |s.talks| && !Skipped(s.talks[i]);
    } else {
      forall i | 0 <= i < |s.talks| && !Skipped(s.talks[i]) ensures s.traces[i].verdict == Success {
        assert s.traces[i].verdict != Failure;
      }
    }
  }

  lemma BeginGood(conf: Conf, talks: seq<Talk>, now: int, envs: seq<Attempt>)
    requires ConfOk(conf) && EnvsOk(envs) && AllEnter(talks) && |envs| == |talks|
    ensures Good(Begin(conf, talks, now, envs), talks)
  {
    BlankPart(talks);
    ResetFromPart(conf, Blank(talks), talks, 0, now, envs);
    EmptyMeansAllDone(ResetFrom(conf, Blank(talks), 0, now, envs), talks);
  }

  /** After a handler that is through with its talk, that talk is pending. */
  lemma HandledPart(s: Sess, r: Sess, talks: seq<Talk>, i: nat, more: bool)
    requires Inv(s, talks) && i in s.watch && Handled(s, r, i, more)
    ensures Part(r, talks, |talks|, if more then {} else {i})
  {
    assert TalkOk(s, i, {}, talks[i].retry);
    FailedChanges(s, r, i);
    PartChanges(s, r, talks, |talks|, |talks|, {}, if more then {} else {i}, i);
  }

  lemma CheckSessionGood(conf: Conf, s: Sess, talks: seq<Talk>, i: nat, io: Io, now: int, env: Attempt)
    requires ConfOk(conf) && RemoteOk(env.remote) && Good(s, talks) && i in s.watch
    ensures i < |s.talks| && (s.talks[i].status.Conn? || s.talks[i].category.WriteAndRead? ==> s.talks[i].remote.Some?)
    ensures Good(CheckSession(conf, s, i, io, now, env), talks)
  {
    assert TalkOk(s, i, {}, talks[i].retry);
    EventHandles(s, i, io, now);
    var (s1, more) := if io.ErrEvent? then (Drop(s, i, Broken), false) else Handle(s, i, io, now);
    HandledPart(s, s1, talks, i, more);
    if !more {
      CheckedFinish(conf, s1, talks, i, now, env);
    }
  }

  lemma CheckedFinish(conf: Conf, s: Sess, talks: seq<Talk>, i: nat, now: int, env: Attempt)
    requires ConfOk(conf) && RemoteOk(env.remote) && Part(s, talks, |talks|, {i}) && s.reports == []
    ensures i < |s.talks| && i < |s.traces|
    ensures var (r, finished) := FinishTalk(conf, s, i, s.talks[i].error.Ok?, now, env);
            var report := if r.hasFailure then ReportPartial else ReportOk;
            Good(if finished then r.(reports := r.reports + [report]) else r, talks)
  {
    assert {} + {i} == {i} && i in {i};
    FinishPart(conf, s, talks, i, {}, s.talks[i].error.Ok?, now, env);
    FinishReports(s, FinishTalk(conf, s, i, s.talks[i].error.Ok?, now, env).0, talks);
  }

  /** The report that goes with a finished session is true of it. */
  lemma FinishReports(s: Sess, r: Sess, talks: seq<Talk>)
    requires Inv(r, talks) && s.reports == [] == r.reports
    ensures r.watch == map[] ==> Reported(r.(reports := r.reports + [if r.hasFailure then ReportPartial else ReportOk]))
    ensures r.watch != map[] ==> Reported(r)
  {
    if r.watch == map[] {
      VerdictTrue(r, talks);
      var r' := r.(reports := r.reports + [if r.hasFailure then ReportPartial else ReportOk]);
      assert ReportTrue(r', if r.hasFailure then ReportPartial else ReportOk);
    }
  }

  // ---------------------------------------------------------------- timeouts

  ghost function SetOf(order: seq<nat>): (s: set<nat>) { set k | 0 <= k < |order| :: order[k] }

  ghost predicate NoDup(order: seq<nat>) { forall j, k :: 0 <= j < k < |order| ==> order[j] != order[k] }

  lemma SetOfRest(order: seq<nat>)
    requires order != [] && NoDup(order)
    ensures SetOf(order) == SetOf(order[1..]) + {order[0]} && order[0] !in SetOf(order[1..]) && NoDup(order[1..])
  {
    assert forall k :: 1 <= k < |order| ==> order[k] == order[1..][k - 1];
    assert forall k :: 0 <= k < |order| - 1 ==> order[1..][k] == order[k + 1];
  }

  /** Taking events out of the driver makes their talks pending. */
  lemma {:induction false} TakenOut(s: Sess, talks: seq<Talk>, gone: set<nat>)
    requires Inv(s, talks) && gone <= s.watch.Keys
    ensures Part(s.(watch := s.watch - gone), talks, |talks|, gone)
  {
    var r := s.(watch := s.watch - gone);
    assert r.watch.Keys == s.watch.Keys - gone;
    assert |r.watch| == |r.watch.Keys| == |s.watch.Keys| - |gone| && |s.watch| == |s.watch.Keys|;
    forall i | 0 <= i < |talks| ensures TalkOk(r, i, gone, talks[i].retry) {
      assert TalkOk(s, i, {}, talks[i].retry);
    }
    forall i | i in gone ensures i < |talks| && !Skipped(r.talks[i]) {
      assert i in s.watch && TalkOk(s, i, {}, talks[i].retry);
    }
    assert AnyFailed(r) <==> AnyFailed(s);
  }

  lemma ClosePart(s: Sess, talks: seq<Talk>, i: nat, p: set<nat>)
    requires Part(s, talks, |talks|, p) && i in p
    ensures Part(s.(talks := s.talks[i := s.talks[i].(fd := -1)]), talks, |talks|, p)
  {
    var r := s.(talks := s.talks[i := s.talks[i].(fd := -1)]);
    assert TalkOk(s, i, p, talks[i].retry);
    FailedChanges(s, r, i);
    PartChanges(s, r, talks, |talks|, |talks|, p, p, i);
  }

  /** One round of CleanTimeouts_. */
  lemma TimeoutRound(conf: Conf, s: Sess, talks: seq<Talk>, i: nat, p: set<nat>, now: int, env: Attempt)
    requires ConfOk(conf) && RemoteOk(env.remote) && Part(s, talks, |talks|, p + {i}) && i !in p && s.reports == []
    ensures i < |s.talks| && i < |s.traces|
    ensures var (r, finished) := FinishTalk(conf, s.(talks := s.talks[i := s.talks[i].(fd := -1)]), i, false, now, env);
            var r' := if finished then r.(reports := r.reports + [ReportPartial]) else r;
            Part(r', talks, |talks|, p) && (p == {} ==> Reported(r')) && (p != {} ==> r'.reports == []) &&
            (talks[i].endtimeMs <= now ==> r'.watch == s.watch)
  {
    assert i in p + {i};
    ClosePart(s, talks, i, p + {i});
    var s1 := s.(talks := s.talks[i := s.talks[i].(fd := -1)]);
    FinishPart(conf, s1, talks, i, p, false, now, env);
    if p == {} { FinishReports(s1, FinishTalk(conf, s1, i, false, now, env).0, talks); }
  }

  lemma {:induction false} LoopGood(conf: Conf, s: Sess, talks: seq<Talk>, order: seq<nat>, now: int,
                                    envs: seq<Attempt>)
    requires ConfOk(conf) && EnvsOk(envs) && |envs| == |order| && NoDup(order)
    requires Part(s, talks, |talks|, SetOf(order)) && (if order == [] then Reported(s) else s.reports == [])
    ensures forall k :: 0 <= k < |order| ==> order[k] < |s.talks|
    ensures Good(TimeoutLoop(conf, s, order, now, envs), talks)
    ensures (forall i :: 0 <= i < |talks| ==> talks[i].endtimeMs <= now) && order != [] && s.watch == map[] ==>
      TimeoutLoop(conf, s, order, now, envs).watch == map[]
    decreases |order|
  {
    forall k | 0 <= k < |order| ensures order[k] < |s.talks| {
      assert order[k] in SetOf(order);
    }
    if order != [] {
      SetOfRest(order);
      var i := order[0];
      TimeoutRound(conf, s, talks, i, SetOf(order[1..]), now, envs[0]);
      var (r, finished) := FinishTalk(conf, s.(talks := s.talks[i := s.talks[i].(fd := -1)]), i, false, now, envs[0]);
      var r' := if finished then r.(reports := r.reports + [ReportPartial]) else r;
      RestNonEmpty(order);
      LoopGood(conf, r', talks, order[1..], now, envs[1..]);
    }
  }

  lemma RestNonEmpty(order: seq<nat>)
    requires order != []
    ensures SetOf(order[1..]) == {} <==> order[1..] == []
  {
    if order[1..] != [] { assert order[1..][0] in SetOf(order[1..]); }
  }

  /** order lists the expired talks, each once. */
  ghost predicate Lists(order: seq<nat>, s: Sess, now: int) { NoDup(order) && SetOf(order) == Expired(s, now) }

  lemma CleanGood(conf: Conf, s: Sess, talks: seq<Talk>, order: seq<nat>, now: int, envs: seq<Attempt>)
    requires ConfOk(conf) && EnvsOk(envs) && Good(s, talks) && Lists(order, s, now) && |envs| == |order|
    ensures forall k :: 0 <= k < |order| ==> order[k] < |s.talks|
    ensures Good(CleanTimeouts(conf, s, order, now, envs), talks)
  {
    TakenOut(s, talks, SetOf(order));
    if order == [] {
      assert s.watch - SetOf(order) == s.watch;
    } else {
      assert order[0] in SetOf(order);
    }
    LoopGood(conf, s.(watch := s.watch - SetOf(order)), talks, order, now, envs);
  }

  // ---------------------------------------------------------------- runs

  /** One call the agent makes on the session: an event of a registered talk, or a pass over the timeouts. */
  datatype Step =
    | Event(i: nat, io: Io, at: int, env: Attempt)
    | Clean(order: seq<nat>, at: int, envs: seq<Attempt>)

  ghost predicate Possible(s: Sess, step: Step) {
    match step
    case Event(i, _, _, env) => i in s.watch && RemoteOk(env.remote)
    case Clean(order, at, envs) => Lists(order, s, at) && |envs| == |order| && EnvsOk(envs)
  }

  /** The state after the steps, for a session begun with these talks; None if a step is not possible there. */
  ghost function Run(conf: Conf, talks: seq<Talk>, begun: int, envs: seq<Attempt>, steps: seq<Step>): (r: Option<Sess>)
    requires ConfOk(conf) && EnvsOk(envs) && AllEnter(talks) && |envs| == |talks|
    ensures r.Some? ==> Good(r.value, talks)
  {
    if steps == [] then BeginGood(conf, talks, begun, envs); Some(Begin(conf, talks, begun, envs))
    else
      match Run(conf, talks, begun, envs, steps[..|steps| - 1])
      case None => None
      case Some(s) => if Possible(s, steps[|steps| - 1]) then Some(After(conf, s, talks, steps[|steps| - 1])) else None
  }

  ghost function After(conf: Conf, s: Sess, talks: seq<Talk>, step: Step): (r: Sess)
    requires ConfOk(conf) && Good(s, talks) && Possible(s, step)
    ensures Good(r, talks)
  {
    match step
    case Event(i, io, at, env) =>
      CheckSessionGood(conf, s, talks, i, io, at, env); CheckSession(conf, s, i, io, at, env)
    case Clean(order, at, envs) => CleanGood(conf, s, talks, order, at, envs); CleanTimeouts(conf, s, order, at, envs)
  }

  ghost predicate Begun(conf: Conf, talks: seq<Talk>, envs: seq<Attempt>) {
    ConfOk(conf) && EnvsOk(envs) && AllEnter(talks) && |envs| == |talks|
  }

  /** Accounting: done talks plus talks with a registered event make up all talks; a talk is tried at most once more
      than its retries; the session is reported at most once, and exactly when no event refers to it. */
  lemma Accounting(conf: Conf, talks: seq<Talk>, begun: int, envs: seq<Attempt>, steps: seq<Step>)
    requires Begun(conf, talks, envs) && Run(conf, talks, begun, envs, steps).Some?
    ensures var s := Run(conf, talks, begun, envs, steps).value;
            s.numTalksDone + |s.watch| == |talks| == |s.traces| && |s.reports| <= 1 &&
            (s.reports != [] <==> s.watch == map[]) && (s.reports != [] <==> s.numTalksDone == |talks|) &&
            forall i :: 0 <= i < |talks| ==> s.traces[i].attempts <= talks[i].retry + 1
  {
    var s := Run(conf, talks, begun, envs, steps).value;
    EmptyMeansAllDone(s, talks);
    forall i | 0 <= i < |talks| ensures s.traces[i].attempts <= talks[i].retry + 1 {
      assert TalkOk(s, i, {}, talks[i].retry);
    }
  }

  /** Deadlines: whatever has happened, a talk that waits has no time left beyond its end, and its timer goes off no
      later than its end. */
  lemma Deadline(conf: Conf, talks: seq<Talk>, begun: int, envs: seq<Attempt>, steps: seq<Step>, i: nat)
    requires Begun(conf, talks, envs) && Run(conf, talks, begun, envs, steps).Some?
    requires i in Run(conf, talks, begun, envs, steps).value.watch
    ensures i < |talks|
    ensures var w := Run(conf, talks, begun, envs, steps).value.watch[i];
            w.lasttimeMs + w.timeleftMs <= talks[i].endtimeMs && w.expire.Some? && w.expire.value <= talks[i].endtimeMs
  {
    var s := Run(conf, talks, begun, envs, steps).value;
    assert i < |talks| && TalkOk(s, i, {}, talks[i].retry);
  }

  /** In every run, when the time check of a registered talk passes, its deadline has not come: the bug check in the
      write handler never fires. */
  lemma BugCheckSilent(conf: Conf, talks: seq<Talk>, begun: int, envs: seq<Attempt>, steps: seq<Step>, i: nat, now: int,
                       limit: int)
    requires Begun(conf, talks, envs) && Run(conf, talks, begun, envs, steps).Some?
    requires i in Run(conf, talks, begun, envs, steps).value.watch
    requires CheckTimeout(Run(conf, talks, begun, envs, steps).value.watch[i], now, limit).Some?
    ensures i < |talks| && now < talks[i].endtimeMs
  {
    Deadline(conf, talks, begun, envs, steps, i);
  }

  /** Verdict: a session completed by an event or a timeout reports kOk exactly when the last attempt of every talk that
      was not skipped succeeded, and kPartial exactly when not. */
  lemma Verdict(conf: Conf, talks: seq<Talk>, begun: int, envs: seq<Attempt>, steps: seq<Step>)
    requires Begun(conf, talks, envs) && Run(conf, talks, begun, envs, steps).Some?
    requires Run(conf, talks, begun, envs, steps).value.reports != []
    requires Begin(conf, talks, begun, envs).reports == []
    ensures var s := Run(conf, talks, begun, envs, steps).value;
            |s.traces| == |talks| &&
            s.reports == [if forall i :: 0 <= i < |talks| && !Skipped(talks[i]) ==> s.traces[i].verdict == Success
                          then ReportOk else ReportPartial]
  {
    NotBroken(conf, talks, begun, envs, steps);
    VerdictOf(Run(conf, talks, begun, envs, steps).value, talks);
  }

  lemma VerdictOf(s: Sess, talks: seq<Talk>)
    requires Good(s, talks) && s.reports != [] && ReportBroken !in s.reports
    ensures s.reports == [if forall i :: 0 <= i < |talks| && !Skipped(talks[i]) ==> s.traces[i].verdict == Success
                          then ReportOk else ReportPartial]
  {
    assert ReportTrue(s, s.reports[0]);
    assert forall i :: 0 <= i < |talks| ==> (Skipped(s.talks[i]) <==> Skipped(talks[i]));
    if s.reports[0] == ReportPartial {
      var i :| 0 <= i < |s.talks| && !Skipped(s.talks[i]) && s.traces[i].verdict == Failure;
      assert !Skipped(talks[i]) && s.traces[i].verdict != Success;
    }
  }

  lemma FinishKeepsReports(conf: Conf, s: Sess, i: nat, succ: bool, now: int, env: Attempt)
    requires i < |s.talks| && i < |s.traces|
    ensures FinishTalk(conf, s, i, succ, now, env).0.reports == s.reports
  {
  }

  lemma EventNotBroken(conf: Conf, s: Sess, talks: seq<Talk>, i: nat, io: Io, now: int, env: Attempt)
    requires ConfOk(conf) && RemoteOk(env.remote) && Good(s, talks) && i in s.watch && ReportBroken !in s.reports
    requires i < |s.talks| && (s.talks[i].status.Conn? || s.talks[i].category.WriteAndRead? ==> s.talks[i].remote.Some?)
    ensures ReportBroken !in CheckSession(conf, s, i, io, now, env).reports
  {
    assert TalkOk(s, i, {}, talks[i].retry);
    EventHandles(s, i, io, now);
    var (s1, more) := if io.ErrEvent? then (Drop(s, i, Broken), false) else Handle(s, i, io, now);
    FinishKeepsReports(conf, s1, i, s1.talks[i].error.Ok?, now, env);
  }

  lemma {:induction false} LoopNotBroken(conf: Conf, s: Sess, order: seq<nat>, now: int, envs: seq<Attempt>)
    requires |envs| == |order| && |s.traces| == |s.talks| && forall k :: 0 <= k < |order| ==> order[k] < |s.talks|
    requires ReportBroken !in s.reports
    ensures ReportBroken !in TimeoutLoop(conf, s, order, now, envs).reports
    decreases |order|
  {
    if order != [] {
      var i := order[0];
      var s1 := s.(talks := s.talks[i := s.talks[i].(fd := -1)]);
      FinishKeepsReports(conf, s1, i, false, now, envs[0]);
      var (r, finished) := FinishTalk(conf, s1, i, false, now, envs[0]);
      var r' := if finished then r.(reports := r.reports + [ReportPartial]) else r;
      LoopNotBroken(conf, r', order[1..], now, envs[1..]);
    }
  }

  /** Past every deadline, every timer is out and no retry registers a new one. */
  lemma CleanFinishes(conf: Conf, s: Sess, talks: seq<Talk>, order: seq<nat>, now: int, envs: seq<Attempt>)
    requires ConfOk(conf) && EnvsOk(envs) && Good(s, talks) && Lists(order, s, now) && |envs| == |order|
    requires forall i :: 0 <= i < |talks| ==> talks[i].endtimeMs < now
    ensures forall k :: 0 <= k < |order| ==> order[k] < |s.talks|
    ensures CleanTimeouts(conf, s, order, now, envs).watch == map[]
  {
    CleanGood(conf, s, talks, order, now, envs);
    forall i | i in s.watch ensures i in SetOf(order) {
      assert i < |talks| && TalkOk(s, i, {}, talks[i].retry);
      assert i in Expired(s, now);
    }
    TakenOut(s, talks, SetOf(order));
    var s1 := s.(watch := s.watch - SetOf(order));
    assert s1.watch == map[];
    if order != [] {
      assert order[0] in SetOf(order);
      LoopGood(conf, s1, talks, order, now, envs);
    }
  }

  /** Only Reset reports a broken session. */
  lemma {:induction false} NotBroken(conf: Conf, talks: seq<Talk>, begun: int, envs: seq<Attempt>, steps: seq<Step>)
    requires Begun(conf, talks, envs) && Run(conf, talks, begun, envs, steps).Some? &&
             Begin(conf, talks, begun, envs).reports == []
    ensures ReportBroken !in Run(conf, talks, begun, envs, steps).value.reports
  {
    if steps != [] {
      var front, step := steps[..|steps| - 1], steps[|steps| - 1];
      NotBroken(conf, talks, begun, envs, front);
      var s := Run(conf, talks, begun, envs, front).value;
      match step
      case Event(i, io, at, env) =>
        CheckSessionGood(conf, s, talks, i, io, at, env);
        EventNotBroken(conf, s, talks, i, io, at, env);
      case Clean(order, at, es) =>
        CleanGood(conf, s, talks, order, at, es);
        LoopNotBroken(conf, s.(watch := s.watch - SetOf(order)), order, at, es);
    }
  }

  /** Bounded completion: one pass over the timeouts at a time past the end of every talk finishes the session, whatever
      retries remain, and reports it. */
  lemma BoundedCompletion(conf: Conf, talks: seq<Talk>, begun: int, envs: seq<Attempt>, steps: seq<Step>,
                          order: seq<nat>, now: int, es: seq<Attempt>)
    requires Begun(conf, talks, envs) && Run(conf, talks, begun, envs, steps).Some?
    requires Possible(Run(conf, talks, begun, envs, steps).value, Clean(order, now, es))
    requires forall i :: 0 <= i < |talks| ==> talks[i].endtimeMs < now
    ensures var s := Run(conf, talks, begun, envs, steps + [Clean(order, now, es)]);
            s.Some? && s.value.watch == map[] && s.value.numTalksDone == |talks| && |s.value.reports| == 1
  {
    var s := Run(conf, talks, begun, envs, steps).value;
    RunExtends(conf, talks, begun, envs, steps, Clean(order, now, es));
    CleanFinishes(conf, s, talks, order, now, es);
    EmptyMeansAllDone(After(conf, s, talks, Clean(order, now, es)), talks);
  }

  lemma RunExtends(conf: Conf, talks: seq<Talk>, begun: int, envs: seq<Attempt>, steps: seq<Step>, step: Step)
    requires Begun(conf, talks, envs) && Run(conf, talks, begun, envs, steps).Some?
    requires Possible(Run(conf, talks, begun, envs, steps).value, step)
    ensures Run(conf, talks, begun, envs, steps + [step]) ==
            Some(After(conf, Run(conf, talks, begun, envs, steps).value, talks, step))
  {
    assert (steps + [step])[..|steps|] == steps;
  }
}
