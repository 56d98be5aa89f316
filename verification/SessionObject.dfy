/** The session as the object the agent updates: talks, counters and the registered events change in place. The calls
    the agent makes keep the invariant that the theorems rest on; the methods below them do what the functions of the
    same name say. Traces, reports and the talks begun with are kept for the proofs only. */
module SessionObject {
  import opened Options
  import S = Session
  import opened SessionInvariant
  import opened SessionTheorems
  import opened SessionExact

  class Session {
    const conf: S.Conf
    var talks: seq<S.Talk>
    var numTalksDone: nat
    var hasFailure: bool
    var watch: map<nat, S.Watch>
    ghost var traces: seq<S.Trace>
    ghost var reports: seq<S.Report>
    ghost var begun: seq<S.Talk>      // the talks as they came

    /** The session is in order, with respect to the talks it was begun with. */
    ghost predicate Valid()
      reads this
    {
      ConfOk(conf) && Good(View(), begun)
    }

    ghost function View(): (s: S.Sess)
      reads this
    {
      S.Sess(talks, numTalksDone, hasFailure, watch, traces, reports)
    }

    constructor (conf: S.Conf)
      ensures this.conf == conf && View() == S.Blank([])
    {
      this.conf := conf;
      talks, numTalksDone, hasFailure, watch := [], 0, false, map[];
      traces, reports, begun := [], [], [];
    }

    /** Starts all talks; false, and reported broken, when none of them has anything to wait for. Talks that enter as
        they should make a session in order. */
    method Reset(newTalks: seq<S.Talk>, now: int, envs: seq<S.Attempt>) returns (ok: bool)
      requires |envs| == |newTalks|
      modifies this
      ensures View() == S.Begin(conf, newTalks, now, envs) && begun == newTalks
      ensures ok <==> numTalksDone != |talks|
      ensures Begun(conf, newTalks, envs) ==>
              Valid() && (ok <==> watch != map[]) && (!ok <==> reports == [S.ReportBroken])
    {
      talks, numTalksDone, hasFailure, watch := newTalks, 0, false, map[];
      traces, reports, begun := seq(|newTalks|, _ => S.Trace(0, S.Undecided)), [], newTalks;
      var i := 0;
      while i < |talks|
        invariant 0 <= i <= |talks| == |traces| == |envs| && begun == newTalks
        invariant S.ResetFrom(conf, View(), i, now, envs) == S.ResetFrom(conf, S.Blank(newTalks), 0, now, envs)
      {
        StartTalk(i, now, envs[i]);
        i := i + 1;
      }
      ok := numTalksDone != |talks|;
      if !ok { reports := reports + [S.ReportBroken]; }
      if Begun(conf, newTalks, envs) { BeginGood(conf, newTalks, now, envs); }
    }

    /** The body of the loop in Reset. */
    method StartTalk(i: nat, now: int, env: S.Attempt)
      requires i < |talks| == |traces|
      modifies this
      ensures begun == old(begun)
      ensures View() == S.StartTalk(conf, old(View()), i, now, env)
    {
      if talks[i].status.End? {
        numTalksDone := numTalksDone + 1;
      } else {
        ResetTalk(i, false, now, env);
        if !talks[i].error.Ok? {
          numTalksDone := numTalksDone + 1;
        }
      }
    }

    method ResetTalk(i: nat, isRetry: bool, now: int, env: S.Attempt)
      requires i < |talks| && i < |traces|
      modifies this
      ensures begun == old(begun)
      ensures View() == S.ResetTalk(conf, old(View()), i, isRetry, now, env)
      ensures old(i !in watch) ==>
              Attempted(conf, old(talks[i]), old(traces[i]), isRetry, now, env, talks[i], traces[i], WatchOf(View(), i))
    {
      if i !in watch { AttemptExactly(conf, View(), i, isRetry, now, env); }
      Attempt(i, isRetry, now, env);
    }

    /** The attempt itself. */
    method Attempt(i: nat, isRetry: bool, now: int, env: S.Attempt)
      requires i < |talks| && i < |traces|
      modifies this
      ensures begun == old(begun)
      ensures View() == S.ResetTalk(conf, old(View()), i, isRetry, now, env)
    {
      traces := traces[i := S.Trace(traces[i].attempts + 1, S.Failure)];
      var talk := talks[i];
      if talk.fd == 0 {
        if env.fd > 0 {
          talk := talk.(fd := env.fd, remote := Some(env.remote),
                        status := if env.connected then S.FirstStatus(talk.category) else S.Conn);
          talks := talks[i := talk];
        } else {
          talks := talks[i := talk.(fd := -1, remote := Some(env.remote), error := S.Broken)];
          hasFailure := true;
          return;
        }
      } else if talk.fd < 0 {
        hasFailure := true;
        return;
      }
      if isRetry && !talk.category.ReadOnly? && !env.encodeOk {
        talks := talks[i := talk.(error := S.Encode)];
        hasFailure := true;
        return;
      }
      var timeleft := talk.endtimeMs - now;
      if timeleft <= 0 {
        talks := talks[i := talk.(error := S.Timeout)];
        hasFailure := true;
        return;
      }
      timeleft := S.Min(timeleft, S.PhaseTimeout(conf, talk));
      if env.regOk {
        watch := watch[i := S.Arm(talk.fd, timeleft, now)];
        traces := traces[i := traces[i].(verdict := S.Undecided)];
      } else {
        talks := talks[i := talk.(fd := -1, error := S.Other)];
        hasFailure := true;
      }
    }

    method FinishTalk(succ: bool, i: nat, now: int, env: S.Attempt) returns (finished: bool)
      requires i < |talks| && i < |traces|
      modifies this
      ensures begun == old(begun)
      ensures (View(), finished) == S.FinishTalk(conf, old(View()), i, succ, now, env)
      ensures old(i !in watch) ==>
              Concluded(conf, old(talks[i]), old(traces[i]), succ, now, env, talks[i], traces[i], WatchOf(View(), i)) &&
              numTalksDone == old(numTalksDone) + (if i in watch then 0 else 1) && finished == (numTalksDone == |talks|)
    {
      if i !in watch { FinishExactly(conf, View(), i, succ, now, env); }
      numTalksDone := numTalksDone + 1;
      traces := traces[i := traces[i].(verdict := if succ then S.Success else S.Failure)];
      var talk := talks[i];
      if talk.remote.Some? && !succ {
        talk := talk.(failRemotes := talk.failRemotes + [talk.remote.value]);
        talks := talks[i := talk];
      }
      ghost var counted := S.Count(old(View()), i, succ);
      assert talks == counted.talks;
      assert View() == counted;
      if !succ {
        if talk.retry != 0 {
          Retry(i, now, env);
        } else {
          hasFailure := true;
        }
      }
      finished := numTalksDone == |talks|;
    }

    /** The branch of FinishTalk that starts the talk over. */
    method Retry(i: nat, now: int, env: S.Attempt)
      requires i < |talks| && i < |traces| && 0 < talks[i].retry && 0 < numTalksDone
      modifies this
      ensures begun == old(begun)
      ensures View() == S.Retry(conf, old(View()), i, now, env)
    {
      talks := talks[i := talks[i].(retry := talks[i].retry - 1, fd := 0, error := S.Ok)];
      ResetTalk(i, true, now, env);
      if talks[i].error.Ok? {
        numTalksDone := numTalksDone - 1;
      } else {
        hasFailure := true;
      }
    }

    /** RegEventDel and CloseFd_. */
    method Drop(i: nat, error: S.Error)
      requires i < |talks|
      modifies this
      ensures begun == old(begun)
      ensures View() == S.Drop(old(View()), i, error)
    {
      watch := watch - {i};
      talks := talks[i := talks[i].(fd := -1, error := error)];
    }

    /** The time check and the re-registration that all handlers share. */
    method Continue(i: nat, status: S.Status, limit: int, now: int, regOk: bool) returns (more: bool)
      requires i < |talks| && i in watch
      modifies this
      ensures begun == old(begun)
      ensures (View(), more) == S.Continue(old(View()), i, status, limit, now, regOk)
    {
      var ctx := watch[i];
      var consumed := now - ctx.lasttimeMs;
      if consumed >= ctx.timeleftMs {
        Drop(i, S.Timeout);
        return false;
      }
      ctx := ctx.(timeleftMs := if limit != 0 then limit else ctx.timeleftMs - consumed, lasttimeMs := now);
      talks := talks[i := talks[i].(status := status)];
      if !regOk {
        Drop(i, S.Other);
        return false;
      }
      watch := watch[i := if ctx.timeleftMs >= 0 then ctx.(expire := Some(now + ctx.timeleftMs)) else ctx];
      return true;
    }

    method HandleConn(i: nat, regOk: bool, now: int) returns (more: bool)
      requires i < |talks| && i < |traces| && i in watch && Waiting(talks[i], watch[i], traces[i]) &&
               talks[i].status.Conn?
      modifies this
      ensures begun == old(begun)
      ensures (View(), more) == S.HandleConn(old(View()), i, regOk, now) && Handled(old(View()), View(), i, more)
    {
      ConnHandles(View(), i, regOk, now);
      var talk := talks[i];
      talk := talk.(status := S.FirstStatus(talk.category));
      talks := talks[i := talk];
      var phase := if talk.category.ReadOnly? then talk.remote.value.rtimeoMs else talk.remote.value.wtimeoMs;
      more := Continue(i, talk.status, S.Min(talk.endtimeMs - now, phase), now, regOk);
    }

    method HandleRead(i: nat, progress: S.Progress, decodeOk: bool, regOk: bool, now: int) returns (more: bool)
      requires i < |talks| && i < |traces| && i in watch && Waiting(talks[i], watch[i], traces[i]) &&
               talks[i].status.Read?
      modifies this
      ensures begun == old(begun) && Handled(old(View()), View(), i, more)
      ensures (View(), more) == S.HandleRead(old(View()), i, progress, decodeOk, regOk, now)
    {
      ReadHandles(View(), i, progress, decodeOk, regOk, now);
      match progress {
        case Finished =>
          if decodeOk {
            watch := watch - {i};
            talks := talks[i := talks[i].(error := S.Ok)];
          } else {
            Drop(i, S.Decode);
          }
          more := false;
        case More =>
          more := Continue(i, S.Read, 0, now, regOk);
        case Failed =>
          Drop(i, S.Broken);
          more := false;
      }
    }

    method HandleWrite(i: nat, progress: S.Progress, regOk: bool, now: int) returns (more: bool)
      requires i < |talks| && i < |traces| && i in watch && Waiting(talks[i], watch[i], traces[i]) &&
               talks[i].status.Write?
      modifies this
      ensures begun == old(begun) && Handled(old(View()), View(), i, more)
      ensures (View(), more) == S.HandleWrite(old(View()), i, progress, regOk, now)
    {
      WriteHandles(View(), i, progress, regOk, now);
      match progress {
        case Finished =>
          if talks[i].category.WriteAndRead? {
            more := Continue(i, S.Read, S.Min(talks[i].endtimeMs - now, talks[i].remote.value.rtimeoMs), now, regOk);
          } else {
            watch := watch - {i};
            talks := talks[i := talks[i].(error := S.Ok)];
            more := false;
          }
        case More =>
          more := Continue(i, S.Write, 0, now, regOk);
        case Failed =>
          Drop(i, S.Broken);
          more := false;
      }
    }

    /** One ready event of a registered talk, and the report when it finishes the session. */
    method CheckSession(i: nat, io: S.Io, now: int, env: S.Attempt)
      requires Valid() && i in watch && RemoteOk(env.remote)
      modifies this
      ensures Valid() && begun == old(begun) && |reports| == if watch == map[] then 1 else 0
      ensures old(Registered(i)) && View() == S.CheckSession(conf, old(View()), i, io, now, env)
    {
      CheckSessionGood(conf, View(), begun, i, io, now, env);
      assert TalkOk(View(), i, {}, begun[i].retry);
      var more := HandleEvent(i, io, now);
      if more {
        return;
      }
      FinishAndReport(i, now, env);
    }

    /** A talk that is through is finished, and the session reported when it was the last. */
    method FinishAndReport(i: nat, now: int, env: S.Attempt)
      requires i < |talks| && i < |traces|
      modifies this
      ensures begun == old(begun)
      ensures var (s, finished) := S.FinishTalk(conf, old(View()), i, old(talks[i]).error.Ok?, now, env);
              var report := if s.hasFailure then S.ReportPartial else S.ReportOk;
              View() == if finished then s.(reports := s.reports + [report]) else s
    {
      var finished := FinishTalk(talks[i].error.Ok?, i, now, env);
      if finished {
        reports := reports + [if hasFailure then S.ReportPartial else S.ReportOk];
      }
    }

    /** A talk whose event can be handled. */
    ghost predicate Registered(i: nat)
      reads this
    {
      i < |talks| && i < |traces| && i in watch &&
      (talks[i].status.Conn? || talks[i].category.WriteAndRead? ==> talks[i].remote.Some?)
    }

    method HandleEvent(i: nat, io: S.Io, now: int) returns (more: bool)
      requires Registered(i) && Waiting(talks[i], watch[i], traces[i])
      modifies this
      ensures begun == old(begun)
      ensures |talks| == old(|talks|) && traces == old(traces)
      ensures (View(), more) ==
              if io.ErrEvent? then (S.Drop(old(View()), i, S.Broken), false) else S.Handle(old(View()), i, io, now)
    {
      more := false;
      if io.ErrEvent? {
        Drop(i, S.Broken);
      } else {
        match talks[i].status {
          case Conn => more := HandleConn(i, io.regOk, now);
          case Read => more := HandleRead(i, io.progress, io.decodeOk, io.regOk, now);
          case Write => more := HandleWrite(i, io.progress, io.regOk, now);
          case _ =>
        }
      }
    }

    /** CleanTimeouts_, for the talks whose timers have been taken out, in that order. */
    method CleanTimeouts(order: seq<nat>, now: int, envs: seq<S.Attempt>)
      requires Valid() && Lists(order, View(), now) && |envs| == |order| && EnvsOk(envs)
      modifies this
      ensures Valid() && begun == old(begun)
      ensures (forall i :: 0 <= i < |begun| ==> begun[i].endtimeMs < now) ==>
              watch == map[] && numTalksDone == |talks| && |reports| == 1
    {
      CleanGood(conf, View(), begun, order, now, envs);
      if forall i :: 0 <= i < |begun| ==> begun[i].endtimeMs < now {
        CleanFinishes(conf, View(), begun, order, now, envs);
      }
      FinishAll(order, now, envs);
      EmptyMeansAllDone(View(), begun);
    }

    /** The loop over the expired talks. */
    method FinishAll(order: seq<nat>, now: int, envs: seq<S.Attempt>)
      requires |envs| == |order| && |traces| == |talks| && forall k :: 0 <= k < |order| ==> order[k] < |talks|
      modifies this
      ensures begun == old(begun) && View() == S.CleanTimeouts(conf, old(View()), order, now, envs)
    {
      watch := watch - set k | 0 <= k < |order| :: order[k];
      ghost var first := View();
      var k := 0;
      while k < |order|
        invariant 0 <= k <= |order| && |traces| == |talks| == |first.talks| && begun == old(begun)
        invariant S.TimeoutLoop(conf, View(), order[k..], now, envs[k..]) ==
                  S.TimeoutLoop(conf, first, order, now, envs)
      {
        var i := order[k];
        assert order[k..][0] == i && order[k..][1..] == order[k + 1..] && envs[k..][1..] == envs[k + 1..];
        talks := talks[i := talks[i].(fd := -1)];
        var finished := FinishTalk(false, i, now, envs[k]);
        if finished {
          reports := reports + [S.ReportPartial];
        }
        k := k + 1;
      }
    }
  }
}
