/** A session: talks that run in parallel, each through connect, write and read, with per-phase timeouts under
    one deadline and a number of retries. The functions here are Session::Reset, ResetTalk_ and FinishTalk, the
    AgentSlave event handlers and CleanTimeouts_, on values. Outcomes of foreign calls (connecting, encoding,
    registering, reading, writing) are parameters, and so is the clock, which is fixed within one call.

    `watch` is the part of the events driver that refers to the session: the event context of each talk that is
    registered, with the expiry of its timer. */
module Session {
  import opened Options

  datatype Status = Start | Conn | Read | Write | End
  datatype Category = WriteOnly | ReadOnly | WriteAndRead
  datatype Error = Ok | Timeout | Broken | Encode | Decode | Other

  datatype Remote = Remote(addr: nat, rtimeoMs: int, wtimeoMs: int)

  datatype Conf = Conf(ctimeoMs: int, rtimeoMs: int, wtimeoMs: int)

  datatype Talk = Talk(
    category: Category,
    endtimeMs: int,
    status: Status,
    error: Error,
    failRemotes: seq<Remote>,
    retry: nat,
    fd: int,
    remote: Option<Remote>)

  /** A registered EventCtx and its timer in the events driver. */
  datatype Watch = Watch(fd: int, timeleftMs: int, lasttimeMs: int, expire: Option<int>)

  datatype Verdict = Undecided | Success | Failure

  /** What a talk has been through: attempts made, and how the last one ended, if it has. */
  datatype Trace = Trace(attempts: nat, verdict: Verdict)

  /** The error of the message sent back when a session completes. */
  datatype Report = ReportOk | ReportPartial | ReportBroken

  datatype Sess = Sess(
    talks: seq<Talk>,
    numTalksDone: nat,
    hasFailure: bool,
    watch: map<nat, Watch>,
    traces: seq<Trace>,
    reports: seq<Report>)

  /** What the outside world does for one attempt: the descriptor ConnsMgr hands out (not positive when there is
      none) and whether it is connected already, the remote it chose, and whether encoding and registering work. */
  datatype Attempt = Attempt(fd: int, connected: bool, remote: Remote, encodeOk: bool, regOk: bool)

  /** Result of a protocol Read or Write call. */
  datatype Progress = Finished | More | Failed

  /** A ready event: an error event, or one on which the protocol makes some progress. */
  datatype Io = ErrEvent | Ready(progress: Progress, decodeOk: bool, regOk: bool)

  function Min(a: int, b: int): (m: int) { if b < a then b else a }

  // ---------------------------------------------------------------- an attempt

  function FirstStatus(c: Category): (s: Status) { if c.ReadOnly? then Read else Write }

  /** The time a phase is allowed, whatever the deadline. */
  function PhaseTimeout(conf: Conf, t: Talk): (ms: int) {
    match t.remote
    case Some(r) => if t.status.Conn? then conf.ctimeoMs else if t.status.Read? then r.rtimeoMs else r.wtimeoMs
    case None => if t.status.Read? then conf.rtimeoMs else conf.wtimeoMs
  }

  /** kAddEvent with this timeout, now. */
  function Arm(fd: int, timeleft: int, now: int): (w: Watch) {
    Watch(fd, timeleft, now, if timeleft >= 0 then Some(now + timeleft) else None)
  }

  /** The attempt ends before any event is registered. */
  function GiveUp(s: Sess, i: nat, t: Talk): (r: Sess)
    requires i < |s.talks| && i < |s.traces|
  {
    s.(talks := s.talks[i := t], hasFailure := true, traces := s.traces[i := Trace(s.traces[i].attempts + 1, Failure)])
  }

  function Opened(t: Talk, env: Attempt): (r: Talk) {
    if t.fd != 0 then t
    else t.(fd := env.fd, remote := Some(env.remote), status := if env.connected then FirstStatus(t.category) else Conn)
  }

  /** ResetTalk_ */
  function ResetTalk(conf: Conf, s: Sess, i: nat, isRetry: bool, now: int, env: Attempt): (r: Sess)
    requires i < |s.talks| && i < |s.traces|
    ensures |r.talks| == |s.talks| && |r.traces| == |s.traces| && r.numTalksDone == s.numTalksDone
  {
    var t0 := s.talks[i];
    if t0.fd < 0 then GiveUp(s, i, t0)
    else if t0.fd == 0 && env.fd <= 0 then GiveUp(s, i, t0.(fd := -1, remote := Some(env.remote), error := Broken))
    else
      var t := Opened(t0, env);
      if isRetry && !t.category.ReadOnly? && !env.encodeOk then GiveUp(s, i, t.(error := Encode))
      else if t.endtimeMs - now <= 0 then GiveUp(s, i, t.(error := Timeout))
      else if !env.regOk then GiveUp(s, i, t.(fd := -1, error := Other))
      else
        s.(talks := s.talks[i := t],
           watch := s.watch[i := Arm(t.fd, Min(t.endtimeMs - now, PhaseTimeout(conf, t)), now)],
           traces := s.traces[i := Trace(s.traces[i].attempts + 1, Undecided)])
  }

  /** The counting and reporting part of FinishTalk. */
  function Count(s: Sess, i: nat, succ: bool): (r: Sess)
    requires i < |s.talks| && i < |s.traces|
    ensures |r.talks| == |s.talks| && |r.traces| == |s.traces|
  {
    var t := s.talks[i];
    var failed := t.remote.Some? && !succ;
    s.(talks := s.talks[i := if failed then t.(failRemotes := t.failRemotes + [t.remote.value]) else t],
       numTalksDone := s.numTalksDone + 1,
       traces := s.traces[i := s.traces[i].(verdict := if succ then Success else Failure)])
  }

  /** The retrying part: the talk starts over, and is counted again only if that fails. */
  function Retry(conf: Conf, s: Sess, i: nat, now: int, env: Attempt): (r: Sess)
    requires i < |s.talks| && i < |s.traces| && 0 < s.talks[i].retry && 0 < s.numTalksDone
    ensures |r.talks| == |s.talks| && |r.traces| == |s.traces|
  {
    var t := s.talks[i];
    var again := s.(talks := s.talks[i := t.(retry := t.retry - 1, fd := 0, error := Ok)]);
    var r := ResetTalk(conf, again, i, true, now, env);
    if r.talks[i].error.Ok? then r.(numTalksDone := r.numTalksDone - 1) else r.(hasFailure := true)
  }

  /** FinishTalk, and whether the session is finished. */
  function FinishTalk(conf: Conf, s: Sess, i: nat, succ: bool, now: int, env: Attempt): (r: (Sess, bool))
    requires i < |s.talks| && i < |s.traces|
    ensures |r.0.talks| == |s.talks| && |r.0.traces| == |s.traces|
  {
    var s1 := Count(s, i, succ);
    var s2 := if succ then s1
              else if s1.talks[i].retry == 0 then s1.(hasFailure := true)
              else Retry(conf, s1, i, now, env);
    (s2, s2.numTalksDone == |s2.talks|)
  }

  // ---------------------------------------------------------------- Reset

  /** One round of the loop. */
  function StartTalk(conf: Conf, s: Sess, k: nat, now: int, env: Attempt): (r: Sess)
    requires k < |s.talks| == |s.traces|
    ensures |r.talks| == |r.traces| == |s.talks|
  {
    if s.talks[k].status.End? then s.(numTalksDone := s.numTalksDone + 1)
    else
      var r := ResetTalk(conf, s, k, false, now, env);
      if r.talks[k].error.Ok? then r else r.(numTalksDone := r.numTalksDone + 1)
  }

  function ResetFrom(conf: Conf, s: Sess, k: nat, now: int, envs: seq<Attempt>): (r: Sess)
    requires k <= |s.talks| == |s.traces| == |envs|
    decreases |s.talks| - k
  {
    if k == |s.talks| then s else ResetFrom(conf, StartTalk(conf, s, k, now, envs[k]), k + 1, now, envs)
  }

  function Blank(talks: seq<Talk>): (s: Sess) {
    Sess(talks, 0, false, map[], seq(|talks|, _ => Trace(0, Undecided)), [])
  }

  /** Session::Reset, with the report CheckMailbox_ sends back when nothing is left to wait for. */
  function Begin(conf: Conf, talks: seq<Talk>, now: int, envs: seq<Attempt>): (s: Sess)
    requires |envs| == |talks|
  {
    var s := ResetFrom(conf, Blank(talks), 0, now, envs);
    if s.numTalksDone == |s.talks| then s.(reports := s.reports + [ReportBroken]) else s
  }

  // ---------------------------------------------------------------- event handlers

  /** CheckEventCtxTimeout_: None when the time has run out. */
  function CheckTimeout(w: Watch, now: int, limit: int): (r: Option<Watch>) {
    var consumed := now - w.lasttimeMs;
    if consumed >= w.timeleftMs then None
    else Some(w.(timeleftMs := if limit != 0 then limit else w.timeleftMs - consumed, lasttimeMs := now))
  }

  /** kModEvent with the time left. */
  function Rearm(w: Watch, now: int): (r: Watch) {
    if w.timeleftMs >= 0 then w.(expire := Some(now + w.timeleftMs)) else w
  }

  /** RegEventDel, CloseFd_ and the error. */
  function Drop(s: Sess, i: nat, error: Error): (r: Sess)
    requires i < |s.talks|
  {
    s.(talks := s.talks[i := s.talks[i].(fd := -1, error := error)], watch := s.watch - {i})
  }

  /** Goes on to wait for the next event, unless the time or the registration fails. */
  function Continue(s: Sess, i: nat, status: Status, limit: int, now: int, regOk: bool): (r: (Sess, bool))
    requires i < |s.talks| && i in s.watch
  {
    match CheckTimeout(s.watch[i], now, limit)
    case None => (Drop(s, i, Timeout), false)
    case Some(w) =>
      var s1 := s.(talks := s.talks[i := s.talks[i].(status := status)]);
      if regOk then (s1.(watch := s1.watch[i := Rearm(w, now)]), true) else (Drop(s1, i, Other), false)
  }

  /** The talk is through: RegEventDel, and the descriptor stays open. */
  function Through(s: Sess, i: nat): (r: Sess)
    requires i < |s.talks|
  {
    s.(talks := s.talks[i := s.talks[i].(error := Ok)], watch := s.watch - {i})
  }

  /** HandleSessionEventConn_: the status is moved on before the time is checked. True when more events are needed. */
  function HandleConn(s: Sess, i: nat, regOk: bool, now: int): (r: (Sess, bool))
    requires i < |s.talks| && i in s.watch && s.talks[i].remote.Some?
  {
    var t := s.talks[i];
    var next := FirstStatus(t.category);
    var phase := if t.category.ReadOnly? then t.remote.value.rtimeoMs else t.remote.value.wtimeoMs;
    Continue(s.(talks := s.talks[i := t.(status := next)]), i, next, Min(t.endtimeMs - now, phase), now, regOk)
  }

  /** HandleSessionEventRead_ */
  function HandleRead(s: Sess, i: nat, progress: Progress, decodeOk: bool, regOk: bool, now: int): (r: (Sess, bool))
    requires i < |s.talks| && i in s.watch
  {
    match progress
    case Finished => if decodeOk then (Through(s, i), false) else (Drop(s, i, Decode), false)
    case More => Continue(s, i, Read, 0, now, regOk)
    case Failed => (Drop(s, i, Broken), false)
  }

  /** HandleSessionEventWrite_ */
  function HandleWrite(s: Sess, i: nat, progress: Progress, regOk: bool, now: int): (r: (Sess, bool))
    requires i < |s.talks| && i in s.watch && (s.talks[i].category.WriteAndRead? ==> s.talks[i].remote.Some?)
  {
    var t := s.talks[i];
    match progress
    case Finished =>
      if t.category.WriteAndRead? then Continue(s, i, Read, Min(t.endtimeMs - now, t.remote.value.rtimeoMs), now, regOk)
      else (Through(s, i), false)
    case More => Continue(s, i, Write, 0, now, regOk)
    case Failed => (Drop(s, i, Broken), false)
  }

  /** The handler for the talk's status. */
  function Handle(s: Sess, i: nat, io: Io, now: int): (r: (Sess, bool))
    requires i < |s.talks| && i in s.watch && io.Ready?
    requires s.talks[i].status.Conn? || s.talks[i].category.WriteAndRead? ==> s.talks[i].remote.Some?
  {
    match s.talks[i].status
    case Conn => HandleConn(s, i, io.regOk, now)
    case Read => HandleRead(s, i, io.progress, io.decodeOk, io.regOk, now)
    case Write => HandleWrite(s, i, io.progress, io.regOk, now)
    case _ => (s, false)
  }

  /** CheckSession_ and the report CheckEvents_ sends when it finishes the session. */
  function CheckSession(conf: Conf, s: Sess, i: nat, io: Io, now: int, env: Attempt): (r: Sess)
    requires i < |s.talks| && i < |s.traces| && i in s.watch
    requires s.talks[i].status.Conn? || s.talks[i].category.WriteAndRead? ==> s.talks[i].remote.Some?
  {
    var (s1, more) := if io.ErrEvent? then (Drop(s, i, Broken), false) else Handle(s, i, io, now);
    if more then s1
    else
      var (s2, finished) := FinishTalk(conf, s1, i, s1.talks[i].error.Ok?, now, env);
      if finished then s2.(reports := s2.reports + [if s2.hasFailure then ReportPartial else ReportOk]) else s2
  }

  // ---------------------------------------------------------------- timeouts

  /** The talks whose timers RemoveTimeouts takes out. */
  function Expired(s: Sess, now: int): (r: set<nat>) {
    set i | i in s.watch && s.watch[i].expire.Some? && s.watch[i].expire.value < now
  }

  function TimeoutLoop(conf: Conf, s: Sess, order: seq<nat>, now: int, envs: seq<Attempt>): (r: Sess)
    requires |envs| == |order| && |s.traces| == |s.talks| && forall k :: 0 <= k < |order| ==> order[k] < |s.talks|
    decreases |order|
  {
    if order == [] then s
    else
      var i := order[0];
      var (s1, finished) := FinishTalk(conf, s.(talks := s.talks[i := s.talks[i].(fd := -1)]), i, false, now, envs[0]);
      var s2 := if finished then s1.(reports := s1.reports + [ReportPartial]) else s1;
      TimeoutLoop(conf, s2, order[1..], now, envs[1..])
  }

  /** CleanTimeouts_, given the order in which the timers come out. */
  function CleanTimeouts(conf: Conf, s: Sess, order: seq<nat>, now: int, envs: seq<Attempt>): (r: Sess)
    requires |envs| == |order| && |s.traces| == |s.talks| && forall k :: 0 <= k < |order| ==> order[k] < |s.talks|
  {
    TimeoutLoop(conf, s.(watch := s.watch - set k | 0 <= k < |order| :: order[k]), order, now, envs)
  }
}
