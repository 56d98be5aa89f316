/** What every session keeps, through every order of events, timeouts and retries. */
module SessionInvariant {
  import opened Options
  import opened Session

  predicate ConfOk(conf: Conf) { 0 <= conf.ctimeoMs && 0 <= conf.rtimeoMs && 0 <= conf.wtimeoMs }

  predicate RemoteOk(r: Remote) { 0 <= r.rtimeoMs && 0 <= r.wtimeoMs }

  /** How a talk may enter a session: skipped, or failed already, or with no descriptor yet, or with a descriptor and
      the remote it belongs to (only a write back to a client has no remote). */
  predicate Enters(t: Talk) {
    || Skipped(t)
    || (t.fd < 0 && !t.error.Ok?)
    || (t.fd == 0 && t.error.Ok?)
    || (0 < t.fd && t.error.Ok? && t.status == FirstStatus(t.category) &&
        if t.remote.Some? then RemoteOk(t.remote.value) else t.category.WriteOnly?)
  }

  ghost predicate AllEnter(talks: seq<Talk>) { forall i :: 0 <= i < |talks| ==> Enters(talks[i]) }

  ghost predicate EnvsOk(envs: seq<Attempt>) { forall i :: 0 <= i < |envs| ==> RemoteOk(envs[i].remote) }

  predicate Skipped(t: Talk) { t.status.End? }

  // ---------------------------------------------------------------- talks

  /** The deadline: what is left never reaches past the end of the talk, and the timer goes off when it runs out. */
  predicate InTime(t: Talk, w: Watch) {
    w.lasttimeMs + w.timeleftMs <= t.endtimeMs && w.expire == Some(w.lasttimeMs + w.timeleftMs)
  }

  /** A talk that waits for an event. */
  predicate Waiting(t: Talk, w: Watch, c: Trace) {
    t.error.Ok? && 0 < t.fd && w.fd == t.fd && InTime(t, w) && c.verdict.Undecided? &&
    (t.status.Conn? || t.status == FirstStatus(t.category) || (t.status.Read? && t.category.WriteAndRead?)) &&
    (if t.remote.Some? then RemoteOk(t.remote.value) else t.category.WriteOnly? && t.status.Write?)
  }

  /** A talk whose event has been taken out but which has not been finished yet. */
  predicate Pending(t: Talk, c: Trace) { c.verdict.Undecided? && !Skipped(t) }

  /** retry0 is the number of retries the talk came with. */
  predicate TalkOk(s: Sess, i: nat, pending: set<nat>, retry0: nat)
    requires i < |s.talks| && i < |s.traces|
  {
    var t, c := s.talks[i], s.traces[i];
    if Skipped(t) then i !in s.watch && i !in pending && c == Trace(0, Undecided)
    else
      1 <= c.attempts && c.attempts + t.retry == retry0 + 1 &&
      (if i in s.watch then i !in pending && Waiting(t, s.watch[i], c)
       else if i in pending then Pending(t, c)
       else c.verdict != Undecided)
  }

  /** The same, for a talk Reset has not come to. */
  predicate Untouched(s: Sess, i: nat, talks: seq<Talk>)
    requires i < |s.talks| && i < |s.traces| && i < |talks|
  {
    s.talks[i] == talks[i] && s.traces[i] == Trace(0, Undecided) && i !in s.watch
  }

  ghost predicate AnyFailed(s: Sess) { exists i :: 0 <= i < |s.traces| && s.traces[i].verdict == Failure }

  /** Talks before k have been started, `pending` are out of the driver but not finished. */
  ghost predicate Part(s: Sess, talks: seq<Talk>, k: nat, pending: set<nat>) {
    |s.talks| == |s.traces| == |talks| && k <= |talks| &&
    (forall i :: i in s.watch ==> i < |talks|) &&
    (forall i :: i in pending ==> i < |talks| && !Skipped(s.talks[i]) && i !in s.watch) &&
    (forall i :: 0 <= i < k ==>
       TalkOk(s, i, pending, talks[i].retry) && (Skipped(s.talks[i]) <==> Skipped(talks[i]))) &&
    (forall i :: 0 <= i < k ==> s.talks[i].endtimeMs == talks[i].endtimeMs) &&
    (forall i :: k <= i < |talks| ==> Untouched(s, i, talks)) &&
    s.numTalksDone + |s.watch| + |pending| == k &&
    (s.hasFailure <==> AnyFailed(s))
  }

  /** Done talks and registered talks add up to all talks. */
  ghost predicate Inv(s: Sess, talks: seq<Talk>) { Part(s, talks, |talks|, {}) }

  // ---------------------------------------------------------------- one talk changes

  /** r differs from s in talk i only. */
  ghost predicate OnlyTalk(s: Sess, r: Sess, i: nat) {
    |r.talks| == |s.talks| && |r.traces| == |s.traces| && i < |s.talks| && i < |s.traces| &&
    (forall j :: 0 <= j < |s.talks| && j != i ==> r.talks[j] == s.talks[j]) &&
    (forall j :: 0 <= j < |s.traces| && j != i ==> r.traces[j] == s.traces[j]) &&
    (forall j :: j != i ==> (j in r.watch <==> j in s.watch)) &&
    (forall j :: j != i && j in s.watch ==> j in r.watch && r.watch[j] == s.watch[j])
  }

  lemma FailedChanges(s: Sess, r: Sess, i: nat)
    requires OnlyTalk(s, r, i) && s.traces[i].verdict != Failure
    ensures AnyFailed(r) <==> AnyFailed(s) || r.traces[i].verdict == Failure
  {
    if AnyFailed(s) {
      var j :| 0 <= j < |s.traces| && s.traces[j].verdict == Failure;
      assert r.traces[j].verdict == Failure;
    }
    if AnyFailed(r) {
      var j :| 0 <= j < |r.traces| && r.traces[j].verdict == Failure;
      assert j != i ==> s.traces[j].verdict == Failure;
    }
  }

  /** A part stays a part when talk i changes to something that is in order and the counts follow. */
  lemma PartChanges(s: Sess, r: Sess, talks: seq<Talk>, k: nat, k': nat, p: set<nat>, p': set<nat>, i: nat)
    requires Part(s, talks, k, p) && OnlyTalk(s, r, i) && k <= k' <= |talks| && i < k'
    requires k < k' ==> k' == k + 1 && i == k
    requires forall j :: j != i ==> (j in p <==> j in p')
    requires i in p' ==> !Skipped(r.talks[i]) && i !in r.watch
    requires TalkOk(r, i, p', talks[i].retry) && (Skipped(r.talks[i]) <==> Skipped(talks[i])) &&
             r.talks[i].endtimeMs == talks[i].endtimeMs
    requires r.numTalksDone + |r.watch| + |p'| == k'
    requires r.hasFailure <==> AnyFailed(r)
    ensures Part(r, talks, k', p')
  {
    forall j | 0 <= j < k'
      ensures TalkOk(r, j, p', talks[j].retry) && (Skipped(r.talks[j]) <==> Skipped(talks[j])) &&
              r.talks[j].endtimeMs == talks[j].endtimeMs
    {
      if j != i { assert TalkOk(s, j, p, talks[j].retry); }
    }
    forall j | k' <= j < |talks| ensures Untouched(r, j, talks) {
      assert Untouched(s, j, talks);
    }
  }

  lemma WatchGrows(m: map<nat, Watch>, i: nat, w: Watch)
    requires i !in m
    ensures |m[i := w]| == |m| + 1
  {
    assert m[i := w].Keys == m.Keys + {i};
    assert |m[i := w]| == |m[i := w].Keys| && |m| == |m.Keys|;
  }

  lemma WatchShrinks(m: map<nat, Watch>, i: nat)
    requires i in m
    ensures |m - {i}| == |m| - 1
  {
    assert (m - {i}).Keys == m.Keys - {i};
    assert |m - {i}| == |(m - {i}).Keys| && |m| == |m.Keys|;
  }

  // ---------------------------------------------------------------- an attempt

  /** The two ways an attempt can go: it waits for its first event in time, or it has failed and says so. */
  lemma AttemptGoes(conf: Conf, s: Sess, i: nat, isRetry: bool, now: int, env: Attempt)
    requires ConfOk(conf) && RemoteOk(env.remote)
    requires i < |s.talks| && i < |s.traces| && i !in s.watch && !Skipped(s.talks[i]) && Enters(s.talks[i])
    ensures var r := ResetTalk(conf, s, i, isRetry, now, env);
            OnlyTalk(s, r, i) && r.numTalksDone == s.numTalksDone && r.reports == s.reports &&
            r.talks[i].retry == s.talks[i].retry && r.talks[i].endtimeMs == s.talks[i].endtimeMs &&
            !Skipped(r.talks[i]) &&
            r.traces[i].attempts == s.traces[i].attempts + 1 &&
            if i in r.watch
            then Waiting(r.talks[i], r.watch[i], r.traces[i]) && r.hasFailure == s.hasFailure &&
                 |r.watch| == |s.watch| + 1 && now < r.talks[i].endtimeMs
            else !r.talks[i].error.Ok? && r.traces[i].verdict == Failure && r.hasFailure && r.watch == s.watch
  {
    WatchGrows(s.watch, i, Arm(Opened(s.talks[i], env).fd,
                               Min(s.talks[i].endtimeMs - now, PhaseTimeout(conf, Opened(s.talks[i], env))), now));
  }

  // ---------------------------------------------------------------- Reset

  lemma BlankPart(talks: seq<Talk>)
    ensures Part(Blank(talks), talks, 0, {})
  {
  }

  /** One round of the loop in Reset. */
  lemma StartPart(conf: Conf, s: Sess, talks: seq<Talk>, k: nat, now: int, env: Attempt)
    requires ConfOk(conf) && RemoteOk(env.remote) && k < |talks| && Enters(talks[k]) && Part(s, talks, k, {})
    ensures Part(StartTalk(conf, s, k, now, env), talks, k + 1, {})
    ensures StartTalk(conf, s, k, now, env).reports == s.reports
  {
    assert Untouched(s, k, talks);
    var r := StartTalk(conf, s, k, now, env);
    if !Skipped(talks[k]) {
      AttemptGoes(conf, s, k, false, now, env);
      FailedChanges(s, r, k);
    }
    PartChanges(s, r, talks, k, k + 1, {}, {}, k);
  }

  lemma {:induction false} ResetFromPart(conf: Conf, s: Sess, talks: seq<Talk>, k: nat, now: int, envs: seq<Attempt>)
    requires ConfOk(conf) && EnvsOk(envs) && AllEnter(talks) && |envs| == |talks| && Part(s, talks, k, {})
    ensures Inv(ResetFrom(conf, s, k, now, envs), talks) && ResetFrom(conf, s, k, now, envs).reports == s.reports
    decreases |talks| - k
  {
    if k < |talks| {
      StartPart(conf, s, talks, k, now, envs[k]);
      ResetFromPart(conf, StartTalk(conf, s, k, now, envs[k]), talks, k + 1, now, envs);
    }
  }

  // ---------------------------------------------------------------- FinishTalk

  /** What finishing does to talk i: a retry waits in time, or the talk is done with a verdict. */
  ghost predicate Settled(s: Sess, r: Sess, i: nat, succ: bool, now: int) {
    OnlyTalk(s, r, i) && r.reports == s.reports && r.talks[i].endtimeMs == s.talks[i].endtimeMs &&
    !Skipped(r.talks[i]) &&
    r.traces[i].attempts + r.talks[i].retry == s.traces[i].attempts + s.talks[i].retry &&
    s.traces[i].attempts <= r.traces[i].attempts &&
    if i in r.watch
    then !succ && now < s.talks[i].endtimeMs && Waiting(r.talks[i], r.watch[i], r.traces[i]) &&
         r.hasFailure == s.hasFailure && r.numTalksDone == s.numTalksDone && |r.watch| == |s.watch| + 1
    else r.traces[i].verdict == (if succ then Success else Failure) && r.watch == s.watch &&
         r.numTalksDone == s.numTalksDone + 1 &&
         (r.hasFailure <==> s.hasFailure || !succ)
  }

  lemma RetrySettles(conf: Conf, s: Sess, i: nat, now: int, env: Attempt)
    requires ConfOk(conf) && RemoteOk(env.remote)
    requires i < |s.talks| && i < |s.traces| && i !in s.watch && !Skipped(s.talks[i]) && s.talks[i].retry != 0
    ensures Settled(s, Retry(conf, Count(s, i, false), i, now, env), i, false, now)
  {
    var s1 := Count(s, i, false);
    var t := s1.talks[i];
    var s2 := s1.(talks := s1.talks[i := t.(retry := t.retry - 1, fd := 0, error := Ok)]);
    AttemptGoes(conf, s2, i, true, now, env);
    var r := ResetTalk(conf, s2, i, true, now, env);
    assert OnlyTalk(s, s2, i) && OnlyTalk(s2, r, i);
  }

  lemma FinishSettles(conf: Conf, s: Sess, i: nat, succ: bool, now: int, env: Attempt)
    requires ConfOk(conf) && RemoteOk(env.remote)
    requires i < |s.talks| && i < |s.traces| && i !in s.watch && !Skipped(s.talks[i])
    ensures Settled(s, FinishTalk(conf, s, i, succ, now, env).0, i, succ, now)
  {
    if !succ && s.talks[i].retry != 0 { RetrySettles(conf, s, i, now, env); }
  }

  /** FinishTalk settles a pending talk: it is done, or a retry of it waits. The session is finished exactly when no
      talk is registered and none is pending. */
  lemma FinishPart(conf: Conf, s: Sess, talks: seq<Talk>, i: nat, p: set<nat>, succ: bool, now: int, env: Attempt)
    requires ConfOk(conf) && RemoteOk(env.remote) && Part(s, talks, |talks|, p + {i}) && i !in p
    ensures var (r, finished) := FinishTalk(conf, s, i, succ, now, env);
            Part(r, talks, |talks|, p) && r.reports == s.reports &&
            (finished <==> r.watch == map[] && p == {}) &&
            (!succ && finished ==> r.hasFailure) &&
            (talks[i].endtimeMs <= now ==> r.watch == s.watch)
  {
    assert i in p + {i};
    assert TalkOk(s, i, p + {i}, talks[i].retry);
    FinishSettles(conf, s, i, succ, now, env);
    var (r, finished) := FinishTalk(conf, s, i, succ, now, env);
    FinishCounts(s, r, talks, i, p);
  }

  lemma FinishCounts(s: Sess, r: Sess, talks: seq<Talk>, i: nat, p: set<nat>)
    requires Part(s, talks, |talks|, p + {i}) && i !in p && OnlyTalk(s, r, i) && s.traces[i].verdict.Undecided?
    requires TalkOk(r, i, p, talks[i].retry) && !Skipped(r.talks[i]) && !Skipped(talks[i]) &&
             r.talks[i].endtimeMs == talks[i].endtimeMs
    requires r.numTalksDone + |r.watch| == s.numTalksDone + |s.watch| + 1
    requires r.hasFailure <==> s.hasFailure || r.traces[i].verdict == Failure
    ensures Part(r, talks, |talks|, p)
    ensures r.numTalksDone == |r.talks| <==> r.watch == map[] && p == {}
  {
    FailedChanges(s, r, i);
    PartChanges(s, r, talks, |talks|, |talks|, p + {i}, p, i);
    assert |r.watch| == 0 <==> r.watch == map[];
  }
}
