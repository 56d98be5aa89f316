/** What happens to a talk, exactly: when an attempt starts to wait, and for how long; when it is tried again; what an
    event or a timeout makes of it, in every run. */
module SessionExact {
  import opened Options
  import opened Session
  import opened SessionInvariant
  import opened SessionTheorems
  import C = ConnsMgr

  function WatchOf(s: Sess, i: nat): (w: Option<Watch>) { if i in s.watch then Some(s.watch[i]) else None }

  // ---------------------------------------------------------------- an attempt

  /** All that an attempt needs: a descriptor, its own or a new one, an encoding of what is sent again, time, and the
      registration of its event. */
  predicate CanStart(t: Talk, again: bool, now: int, env: Attempt) {
    (0 < t.fd || (t.fd == 0 && 0 < env.fd)) && (again && !t.category.ReadOnly? ==> env.encodeOk) && now < t.endtimeMs &&
    env.regOk
  }

  /** The talk as it then waits: a new descriptor comes with its remote, and with a connection or not. */
  function Started(t: Talk, env: Attempt): (r: Talk) {
    if 0 < t.fd then t
    else t.(fd := env.fd, remote := Some(env.remote),
            status := if !env.connected then Conn else if t.category.ReadOnly? then Read else Write)
  }

  /** The time allowed for the first thing it waits for: the connection, the answer, or the writing. */
  function Allowed(conf: Conf, t: Talk): (ms: int) {
    if t.remote.None? then (if t.status.Read? then conf.rtimeoMs else conf.wtimeoMs)
    else if t.status.Conn? then conf.ctimeoMs
    else if t.status.Read? then t.remote.value.rtimeoMs
    else t.remote.value.wtimeoMs
  }

  /** An attempt of a talk: it waits, for the time allowed but not beyond its deadline, exactly when it can start. */
  predicate Attempted(conf: Conf, t: Talk, c: Trace, again: bool, now: int, env: Attempt,
                      t': Talk, c': Trace, w': Option<Watch>) {
    c'.attempts == c.attempts + 1 && t'.retry == t.retry && t'.failRemotes == t.failRemotes &&
    if CanStart(t, again, now, env)
    then var left := Min(t.endtimeMs - now, Allowed(conf, Started(t, env)));
         t' == Started(t, env) && c'.verdict == Undecided &&
         w' == Some(Watch(t'.fd, left, now, if left < 0 then None else Some(now + left)))
    else c'.verdict == Failure && w' == None && t'.error == Cause(t, again, now, env) &&
         t'.fd == if 0 <= t.fd && (t'.error.Encode? || t'.error.Timeout?) then Started(t, env).fd
                  else if 0 <= t.fd then -1 else t.fd
  }

  /** Why an attempt cannot start. */
  function Cause(t: Talk, again: bool, now: int, env: Attempt): (e: Error) {
    if t.fd < 0 then t.error
    else if t.fd == 0 && env.fd <= 0 then Broken
    else if again && !t.category.ReadOnly? && !env.encodeOk then Encode
    else if t.endtimeMs <= now then Timeout
    else Other
  }

  lemma AttemptExactly(conf: Conf, s: Sess, i: nat, again: bool, now: int, env: Attempt)
    requires i < |s.talks| && i < |s.traces| && i !in s.watch
    ensures var r := ResetTalk(conf, s, i, again, now, env);
            OnlyTalk(s, r, i) &&
            Attempted(conf, s.talks[i], s.traces[i], again, now, env, r.talks[i], r.traces[i], WatchOf(r, i)) &&
            (r.hasFailure <==> s.hasFailure || !CanStart(s.talks[i], again, now, env))
  {
  }

  // ---------------------------------------------------------------- finishing and retrying

  /** The remotes a talk has failed on, with this failure. */
  function FailedOn(t: Talk): (rs: seq<Remote>) {
    if t.remote.Some? then t.failRemotes + [t.remote.value] else t.failRemotes
  }

  /** The end of an attempt. A success ends the talk. A failure adds the remote to those the talk has failed on and,
      while a retry is left, costs one and makes one attempt more, on a new descriptor; without one it ends the talk. */
  predicate Concluded(conf: Conf, t: Talk, c: Trace, succ: bool, now: int, env: Attempt,
                      t': Talk, c': Trace, w': Option<Watch>) {
    if succ then t' == t && c' == Trace(c.attempts, Success) && w' == None
    else if t.retry == 0
    then t' == t.(failRemotes := FailedOn(t)) && c' == Trace(c.attempts, Failure) && w' == None
    else var again := t.(failRemotes := FailedOn(t), retry := t.retry - 1, fd := 0, error := Ok);
         Attempted(conf, again, c, true, now, env, t', c', w')
  }

  lemma FinishExactly(conf: Conf, s: Sess, i: nat, succ: bool, now: int, env: Attempt)
    requires i < |s.talks| && i < |s.traces| && i !in s.watch
    ensures var (r, finished) := FinishTalk(conf, s, i, succ, now, env);
            OnlyTalk(s, r, i) && (finished <==> r.numTalksDone == |s.talks|) &&
            Concluded(conf, s.talks[i], s.traces[i], succ, now, env, r.talks[i], r.traces[i], WatchOf(r, i)) &&
            r.numTalksDone == s.numTalksDone + (if i in r.watch then 0 else 1)
  {
    if !succ && s.talks[i].retry != 0 { RetryFollows(conf, s, i, now, env); }
  }

  lemma RetryFollows(conf: Conf, s: Sess, i: nat, now: int, env: Attempt)
    requires i < |s.talks| && i < |s.traces| && i !in s.watch && s.talks[i].retry != 0
    ensures var r := Retry(conf, Count(s, i, false), i, now, env);
            OnlyTalk(s, r, i) && r.numTalksDone == s.numTalksDone + (if i in r.watch then 0 else 1) &&
            Concluded(conf, s.talks[i], s.traces[i], false, now, env, r.talks[i], r.traces[i], WatchOf(r, i))
  {
    var s1 := Count(s, i, false);
    var t := s1.talks[i];
    var s2 := s1.(talks := s1.talks[i := t.(retry := t.retry - 1, fd := 0, error := Ok)]);
    AttemptExactly(conf, s2, i, true, now, env);
    OnlyTalkChain(s, s2, ResetTalk(conf, s2, i, true, now, env), i);
  }

  lemma OnlyTalkChain(s: Sess, s1: Sess, r: Sess, i: nat)
    requires OnlyTalk(s, s1, i) && OnlyTalk(s1, r, i)
    ensures OnlyTalk(s, r, i)
  {
  }

  /** The retry rule: a failed talk with a retry left is tried exactly once more, on a new descriptor, and waits again
      exactly when there is one, what it sends can be encoded, its deadline has not come and its event is registered. */
  lemma RetriedExactly(conf: Conf, s: Sess, i: nat, now: int, env: Attempt)
    requires i < |s.talks| && i < |s.traces| && i !in s.watch && 0 < s.talks[i].retry
    ensures var r, t := FinishTalk(conf, s, i, false, now, env).0, s.talks[i];
            r.talks[i].retry == t.retry - 1 && r.traces[i].attempts == s.traces[i].attempts + 1 &&
            (i in r.watch <==>
             0 < env.fd && (t.category.ReadOnly? || env.encodeOk) && now < t.endtimeMs && env.regOk) &&
            (i in r.watch ==> r.talks[i].fd == r.watch[i].fd == env.fd && r.talks[i].remote == Some(env.remote) &&
                              r.talks[i].error.Ok? && r.numTalksDone == s.numTalksDone)
  {
    FinishExactly(conf, s, i, false, now, env);
  }

  function Addrs(rs: seq<Remote>): (addrs: seq<nat>)
    ensures |addrs| == |rs|
  {
    seq(|rs|, i requires 0 <= i < |rs| => rs[i].addr)
  }

  /** Whatever rand_r returns, the remote that the weight strategy chooses for the retry of a talk, once its failure has
      been reported, is none of those the talk has failed on, while the service has one it has not failed on. */
  lemma RetryGoesElsewhere(m: C.Mgr, remotes: seq<C.Remote>, t: Talk)
    requires t.remote.Some? && t.remote.value.addr in m.conns && C.Ok(m)
    requires C.Choosable(C.Report(m, t.remote.value.addr, false), remotes)
    requires exists x :: x in remotes && !C.FailedBefore(x, Addrs(FailedOn(t)))
    ensures C.Ok(C.Report(m, t.remote.value.addr, false))
    ensures C.Avoids(C.Report(m, t.remote.value.addr, false), remotes, Addrs(FailedOn(t)))
  {
    assert Addrs(FailedOn(t)) == Addrs(t.failRemotes) + [t.remote.value.addr];
    C.RetryAvoidsFailed(m, t.remote.value.addr, remotes, Addrs(t.failRemotes));
  }

  // ---------------------------------------------------------------- an event

  /** An event after which the talk goes on waiting. */
  predicate Continues(t: Talk, w: Watch, io: Io, now: int) {
    io.Ready? && io.regOk && TimeLeft(w, now) &&
    (|| t.status.Conn?
     || io.progress.More?
     || (io.progress.Finished? && t.status.Write? && t.category.WriteAndRead?))
  }

  /** An event that ends the talk well: all written, or all read and decoded. */
  predicate Completes(t: Talk, io: Io) {
    io.Ready? && io.progress.Finished? &&
    ((t.status.Write? && !t.category.WriteAndRead?) || (t.status.Read? && io.decodeOk))
  }

  /** The status it goes on in, and the time for it (0 for what is left of the time it has). */
  function NextStatus(t: Talk, io: Io): (s: Status)
    requires io.Ready?
  {
    if t.status.Conn? then (if t.category.ReadOnly? then Read else Write)
    else if io.progress.Finished? then Read
    else t.status
  }

  function NextLimit(t: Talk, io: Io, now: int): (ms: int)
    requires io.Ready? && t.remote.Some?
  {
    if t.status.Conn?
    then Min(t.endtimeMs - now, if t.category.ReadOnly? then t.remote.value.rtimeoMs else t.remote.value.wtimeoMs)
    else if io.progress.Finished? then Min(t.endtimeMs - now, t.remote.value.rtimeoMs)
    else 0
  }

  /** The error of an event that ends the attempt badly. */
  function Fault(t: Talk, w: Watch, io: Io, now: int): (e: Error) {
    if io.ErrEvent? then Broken
    else if !t.status.Conn? && io.progress.Failed? then Broken
    else if t.status.Read? && io.progress.Finished? then Decode
    else if TimeLeft(w, now) then Other
    else Timeout
  }

  /** The talk when its attempt is over. */
  predicate Ended(t: Talk, w: Watch, io: Io, now: int, over: Talk) {
    Ends(t, if Completes(t, io) then Ok else Fault(t, w, io, now), over)
  }

  /** An event of talk i takes the session from s to r. */
  ghost predicate EventTold(conf: Conf, s: Sess, r: Sess, i: nat, io: Io, now: int, env: Attempt)
    requires i < |s.talks| && i < |s.traces| && i in s.watch
  {
    var t, w, c := s.talks[i], s.watch[i], s.traces[i];
    OnlyTalk(s, r, i) &&
    if Continues(t, w, io, now)
    then i in r.watch && r.traces[i] == c && r.numTalksDone == s.numTalksDone && r.reports == s.reports &&
         GoesOn(t, w, NextStatus(t, io), if t.remote.Some? then NextLimit(t, io, now) else 0, now,
                r.talks[i], r.watch[i])
    else exists over :: Ended(t, w, io, now, over) &&
           Concluded(conf, over, c, Completes(t, io), now, env, r.talks[i], r.traces[i], WatchOf(r, i))
  }

  lemma HandledExactly(s: Sess, i: nat, io: Io, now: int)
    requires i < |s.talks| && i < |s.traces| && i in s.watch && Waiting(s.talks[i], s.watch[i], s.traces[i])
    ensures s.talks[i].status.Conn? || s.talks[i].category.WriteAndRead? ==> s.talks[i].remote.Some?
    ensures var (r, more) := if io.ErrEvent? then (Drop(s, i, Broken), false) else Handle(s, i, io, now);
            var t, w := s.talks[i], s.watch[i];
            Handled(s, r, i, more) && (more <==> Continues(t, w, io, now)) &&
            if more
            then GoesOn(t, w, NextStatus(t, io), if t.remote.Some? then NextLimit(t, io, now) else 0, now,
                        r.talks[i], r.watch[i])
            else Ended(t, w, io, now, r.talks[i])
  {
    if io.ErrEvent? { DropHandles(s, i, Broken); }
    else if s.talks[i].status.Conn? { ConnHandles(s, i, io.regOk, now); }
    else if s.talks[i].status.Read? { ReadHandles(s, i, io.progress, io.decodeOk, io.regOk, now); }
    else { WriteHandles(s, i, io.progress, io.regOk, now); }
  }

  lemma EventExactly(conf: Conf, s: Sess, talks: seq<Talk>, i: nat, io: Io, now: int, env: Attempt)
    requires Good(s, talks) && i in s.watch
    ensures i < |s.talks| && i < |s.traces|
    ensures s.talks[i].status.Conn? || s.talks[i].category.WriteAndRead? ==> s.talks[i].remote.Some?
    ensures EventTold(conf, s, CheckSession(conf, s, i, io, now, env), i, io, now, env)
  {
    assert TalkOk(s, i, {}, talks[i].retry);
    HandledExactly(s, i, io, now);
    var (s1, more) := if io.ErrEvent? then (Drop(s, i, Broken), false) else Handle(s, i, io, now);
    if !more { ConcludedAfter(conf, s, s1, i, io, now, env, CheckSession(conf, s, i, io, now, env)); }
  }

  lemma ConcludedAfter(conf: Conf, s: Sess, s1: Sess, i: nat, io: Io, now: int, env: Attempt, r: Sess)
    requires i < |s.talks| && i < |s.traces| && i in s.watch && Handled(s, s1, i, false)
    requires var t, w := s.talks[i], s.watch[i];
             !Continues(t, w, io, now) && Ended(t, w, io, now, s1.talks[i])
    requires r == FinishTalk(conf, s1, i, s1.talks[i].error.Ok?, now, env).0.(reports := r.reports)
    ensures EventTold(conf, s, r, i, io, now, env)
  {
    FinishExactly(conf, s1, i, s1.talks[i].error.Ok?, now, env);
    OnlyTalkChain(s, s1, r, i);
    FaultIsFault(s.talks[i], s.watch[i], io, now);
    assert Ended(s.talks[i], s.watch[i], io, now, s1.talks[i]);
    assert Concluded(conf, s1.talks[i], s.traces[i], Completes(s.talks[i], io), now, env,
                     r.talks[i], r.traces[i], WatchOf(r, i));
  }

  lemma FaultIsFault(t: Talk, w: Watch, io: Io, now: int)
    ensures Fault(t, w, io, now) != Ok
  {
  }

  // ---------------------------------------------------------------- a timeout

  /** A talk whose timer has expired: its attempt has failed, and the retry rule applies. */
  predicate TimedOut(conf: Conf, s: Sess, r: Sess, i: nat, now: int, env: Attempt)
    requires i < |s.talks| == |r.talks| && i < |s.traces| == |r.traces|
  {
    Concluded(conf, s.talks[i].(fd := -1), s.traces[i], false, now, env, r.talks[i], r.traces[i], WatchOf(r, i))
  }

  predicate SameTalk(s: Sess, r: Sess, i: nat)
    requires i < |s.talks| == |r.talks| && i < |s.traces| == |r.traces|
  {
    r.talks[i] == s.talks[i] && r.traces[i] == s.traces[i] && WatchOf(r, i) == WatchOf(s, i)
  }

  /** One round of the loop touches its talk only. */
  lemma RoundExactly(conf: Conf, s: Sess, i: nat, now: int, env: Attempt)
    requires i < |s.talks| == |s.traces| && i !in s.watch
    ensures var r := FinishTalk(conf, s.(talks := s.talks[i := s.talks[i].(fd := -1)]), i, false, now, env).0;
            OnlyTalk(s, r, i) && TimedOut(conf, s, r, i, now, env)
  {
    var s1 := s.(talks := s.talks[i := s.talks[i].(fd := -1)]);
    FinishExactly(conf, s1, i, false, now, env);
    OnlyTalkChain(s, s1, FinishTalk(conf, s1, i, false, now, env).0, i);
  }

  ghost predicate NoneWatched(s: Sess, order: seq<nat>) {
    forall k :: 0 <= k < |order| ==> order[k] < |s.talks| && order[k] !in s.watch
  }

  lemma {:induction false} LoopExactly(conf: Conf, s: Sess, order: seq<nat>, now: int, envs: seq<Attempt>, i: nat)
    requires |envs| == |order| && i < |s.traces| == |s.talks| && NoneWatched(s, order) && NoDup(order)
    ensures var r := TimeoutLoop(conf, s, order, now, envs);
            |r.talks| == |r.traces| == |s.talks| && (i !in order ==> SameTalk(s, r, i)) &&
            forall k :: 0 <= k < |order| && order[k] == i ==> TimedOut(conf, s, r, i, now, envs[k])
    decreases |order|
  {
    if order != [] {
      var j := order[0];
      RoundExactly(conf, s, j, now, envs[0]);
      var (s1, finished) := FinishTalk(conf, s.(talks := s.talks[j := s.talks[j].(fd := -1)]), j, false, now, envs[0]);
      var s2 := if finished then s1.(reports := s1.reports + [ReportPartial]) else s1;
      SetOfRest(order);
      RestUnwatched(s, s2, order);
      LoopExactly(conf, s2, order[1..], now, envs[1..], i);
      if i == j {
        assert i !in order[1..] by { assert j !in SetOf(order[1..]); }
      } else {
        forall k | 0 <= k < |order| && order[k] == i ensures order[1..][k - 1] == i && envs[1..][k - 1] == envs[k] {
        }
      }
    }
  }

  lemma RestUnwatched(s: Sess, s2: Sess, order: seq<nat>)
    requires order != [] && NoneWatched(s, order) && NoDup(order) && |s2.talks| == |s.talks|
    requires forall j :: j != order[0] ==> (j in s2.watch <==> j in s.watch)
    ensures NoneWatched(s2, order[1..])
  {
    forall k | 0 <= k < |order[1..]| ensures order[1..][k] < |s2.talks| && order[1..][k] !in s2.watch {
      assert order[1..][k] == order[k + 1] != order[0];
    }
  }

  /** A pass over the timeouts ends the attempt of each talk listed as failed, and leaves the others alone. */
  lemma CleanExactly(conf: Conf, s: Sess, talks: seq<Talk>, order: seq<nat>, now: int, envs: seq<Attempt>, i: nat)
    requires Good(s, talks) && Lists(order, s, now) && |envs| == |order| && i < |talks|
    ensures forall k :: 0 <= k < |order| ==> order[k] < |s.talks|
    ensures var r := CleanTimeouts(conf, s, order, now, envs);
            |r.talks| == |r.traces| == |s.talks| && (i !in order ==> SameTalk(s, r, i)) &&
            forall k :: 0 <= k < |order| && order[k] == i ==> TimedOut(conf, s, r, i, now, envs[k])
  {
    forall k | 0 <= k < |order| ensures order[k] in s.watch && order[k] < |s.talks| {
      assert order[k] in SetOf(order);
    }
    LoopExactly(conf, s.(watch := s.watch - SetOf(order)), order, now, envs, i);
    assert i in SetOf(order) <==> i in order;
  }

  // ---------------------------------------------------------------- the start

  lemma {:induction false} ResetExactly(conf: Conf, s: Sess, k: nat, now: int, envs: seq<Attempt>, i: nat)
    requires k <= |s.talks| == |s.traces| == |envs| && i < |s.talks| && forall j :: k <= j < |s.talks| ==> j !in s.watch
    ensures var r := ResetFrom(conf, s, k, now, envs);
            |r.talks| == |r.traces| == |s.talks| && (i < k || Skipped(s.talks[i]) ==> SameTalk(s, r, i)) &&
            (k <= i && !Skipped(s.talks[i]) ==>
             Attempted(conf, s.talks[i], s.traces[i], false, now, envs[i], r.talks[i], r.traces[i], WatchOf(r, i)))
    decreases |s.talks| - k
  {
    if k < |s.talks| {
      StartExactly(conf, s, k, now, envs[k]);
      ResetExactly(conf, StartTalk(conf, s, k, now, envs[k]), k + 1, now, envs, i);
    }
  }

  lemma StartExactly(conf: Conf, s: Sess, k: nat, now: int, env: Attempt)
    requires k < |s.talks| == |s.traces| && k !in s.watch
    ensures var r := StartTalk(conf, s, k, now, env);
            OnlyTalk(s, r, k) &&
            if Skipped(s.talks[k]) then SameTalk(s, r, k)
            else Attempted(conf, s.talks[k], s.traces[k], false, now, env, r.talks[k], r.traces[k], WatchOf(r, k))
  {
    if !Skipped(s.talks[k]) { AttemptExactly(conf, s, k, false, now, env); }
  }

  /** A session starts with exactly one attempt of every talk that is not skipped. */
  lemma BeginExactly(conf: Conf, talks: seq<Talk>, now: int, envs: seq<Attempt>, i: nat)
    requires |envs| == |talks| && i < |talks|
    ensures var r := Begin(conf, talks, now, envs);
            |r.talks| == |r.traces| == |talks| &&
            if Skipped(talks[i]) then r.talks[i] == talks[i] && i !in r.watch
            else Attempted(conf, talks[i], Trace(0, Undecided), false, now, envs[i],
                           r.talks[i], r.traces[i], WatchOf(r, i))
  {
    ResetExactly(conf, Blank(talks), 0, now, envs, i);
  }

  // ---------------------------------------------------------------- every run

  /** In every run, what an event makes of its talk. */
  lemma EventInRun(conf: Conf, talks: seq<Talk>, begun: int, envs: seq<Attempt>, steps: seq<Step>,
                   i: nat, io: Io, at: int, env: Attempt)
    requires Begun(conf, talks, envs) && Run(conf, talks, begun, envs, steps).Some?
    requires Possible(Run(conf, talks, begun, envs, steps).value, Event(i, io, at, env))
    ensures var s, s' := Run(conf, talks, begun, envs, steps).value,
                         Run(conf, talks, begun, envs, steps + [Event(i, io, at, env)]);
            s'.Some? && i < |s.talks| && i < |s.traces| && EventTold(conf, s, s'.value, i, io, at, env)
  {
    RunExtends(conf, talks, begun, envs, steps, Event(i, io, at, env));
    EventExactly(conf, Run(conf, talks, begun, envs, steps).value, talks, i, io, at, env);
  }

  /** In every run, what a pass over the timeouts makes of a talk: an expired one has failed and follows the retry rule,
      any other is left alone. */
  lemma TimeoutInRun(conf: Conf, talks: seq<Talk>, begun: int, envs: seq<Attempt>, steps: seq<Step>,
                     order: seq<nat>, at: int, es: seq<Attempt>, i: nat)
    requires Begun(conf, talks, envs) && Run(conf, talks, begun, envs, steps).Some? && i < |talks|
    requires Possible(Run(conf, talks, begun, envs, steps).value, Clean(order, at, es))
    ensures var s, s' := Run(conf, talks, begun, envs, steps).value,
                         Run(conf, talks, begun, envs, steps + [Clean(order, at, es)]);
            s'.Some? && i < |s.talks| == |s'.value.talks| && i < |s.traces| == |s'.value.traces| &&
            (i !in order ==> SameTalk(s, s'.value, i)) &&
            forall k :: 0 <= k < |order| && order[k] == i ==> TimedOut(conf, s, s'.value, i, at, es[k])
  {
    RunExtends(conf, talks, begun, envs, steps, Clean(order, at, es));
    CleanExactly(conf, Run(conf, talks, begun, envs, steps).value, talks, order, at, es, i);
  }
}
