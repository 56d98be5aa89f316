/** Sessions on the events driver: the contexts RemoveTimeouts returns are the expired talks of a session, and one pass
    of CleanTimeouts_ over them finishes it. */
module SessionTimers {
  import opened Options
  import opened Session
  import opened SessionInvariant
  import opened SessionTheorems
  import E = Events
  import O = SessionObject

  /** The driver holds the events of the session: `own` gives the talk that each of its event contexts stands for. Every
      registered talk has its context and its timer under its descriptor; every such timer is of a registered talk. */
  ghost predicate Linked(s: Sess, timers: map<nat, int>, contexts: map<nat, E.Context>, own: map<E.Context, nat>) {
    (forall i :: i in s.watch ==> Armed(s.watch[i], timers, contexts, own, i)) &&
    (forall fd :: fd in timers && Ours(fd, contexts, own) ==>
       TalkOf(fd, contexts, own) in s.watch && s.watch[TalkOf(fd, contexts, own)].fd == fd)
  }

  predicate Ours(fd: nat, contexts: map<nat, E.Context>, own: map<E.Context, nat>) {
    fd in contexts && contexts[fd] in own
  }

  function TalkOf(fd: nat, contexts: map<nat, E.Context>, own: map<E.Context, nat>): (i: nat)
    requires Ours(fd, contexts, own)
  {
    own[contexts[fd]]
  }

  predicate Armed(w: Watch, timers: map<nat, int>, contexts: map<nat, E.Context>, own: map<E.Context, nat>, i: nat) {
    0 <= w.fd && w.fd in timers && w.expire == Some(timers[w.fd]) && Ours(w.fd, contexts, own) &&
    TalkOf(w.fd, contexts, own) == i
  }

  /** The talks of the session that a list of contexts stands for. */
  function TalksIn(cs: seq<E.Context>, own: map<E.Context, nat>): (order: seq<nat>) {
    if cs == [] then []
    else
      var front, last := TalksIn(cs[..|cs| - 1], own), cs[|cs| - 1];
      if last in own then front + [own[last]] else front
  }

  lemma {:induction false} TalksOfFds(fds: seq<nat>, contexts: map<nat, E.Context>, own: map<E.Context, nat>, i: nat)
    ensures i in TalksIn(E.ContextsIn(fds, contexts), own) <==>
            exists fd :: fd in fds && Ours(fd, contexts, own) && TalkOf(fd, contexts, own) == i
    decreases |fds|
  {
    if fds != [] {
      var front, last := fds[..|fds| - 1], fds[|fds| - 1];
      TalksOfFds(front, contexts, own, i);
      TalksStep(fds, contexts, own);
      assert fds == front + [last];
    }
  }

  lemma TalksStep(fds: seq<nat>, contexts: map<nat, E.Context>, own: map<E.Context, nat>)
    requires fds != []
    ensures var front, last := fds[..|fds| - 1], fds[|fds| - 1];
            var order := TalksIn(E.ContextsIn(front, contexts), own);
            TalksIn(E.ContextsIn(fds, contexts), own) ==
            if Ours(last, contexts, own) then order + [TalkOf(last, contexts, own)] else order
  {
    var front, last := fds[..|fds| - 1], fds[|fds| - 1];
    var cs := E.ContextsIn(front, contexts);
    if last in contexts {
      assert (cs + [contexts[last]])[..|cs|] == cs;
    }
  }

  /** Different descriptors stand for different talks. */
  lemma {:induction false} TalksNoDup(s: Sess, timers: map<nat, int>, fds: seq<nat>, contexts: map<nat, E.Context>,
                                      own: map<E.Context, nat>)
    requires Linked(s, timers, contexts, own) && E.InExpiryOrder(fds, timers)
    ensures NoDup(TalksIn(E.ContextsIn(fds, contexts), own))
    decreases |fds|
  {
    if fds != [] {
      var front, last := fds[..|fds| - 1], fds[|fds| - 1];
      TalksNoDup(s, timers, front, contexts, own);
      TalksStep(fds, contexts, own);
      if Ours(last, contexts, own) {
        TalksOfFds(front, contexts, own, TalkOf(last, contexts, own));
        assert last in timers;
        forall fd | fd in front && Ours(fd, contexts, own)
          ensures TalkOf(fd, contexts, own) != TalkOf(last, contexts, own)
        {
          assert fd in timers && fd != last;
        }
      }
    }
  }

  /** What RemoveTimeouts returns lists the expired talks of the session, each once. */
  lemma DriverLists(s: Sess, timers: map<nat, int>, contexts: map<nat, E.Context>, own: map<E.Context, nat>,
                    fds: seq<nat>, now: int)
    requires Linked(s, timers, contexts, own)
    requires E.InExpiryOrder(fds, timers) && E.Gone(fds) == E.Expired(timers, now)
    ensures Lists(TalksIn(E.ContextsIn(fds, contexts), own), s, now)
  {
    var order := TalksIn(E.ContextsIn(fds, contexts), own);
    TalksNoDup(s, timers, fds, contexts, own);
    forall i: nat ensures i in SetOf(order) <==> i in Expired(s, now) {
      assert i in SetOf(order) <==> i in order;
      TalksOfFds(fds, contexts, own, i);
      if i in order {
        var fd :| fd in fds && Ours(fd, contexts, own) && TalkOf(fd, contexts, own) == i;
        assert fd in E.Gone(fds) && Armed(s.watch[i], timers, contexts, own, i);
      }
      if i in Expired(s, now) {
        assert Armed(s.watch[i], timers, contexts, own, i);
        assert s.watch[i].fd in E.Expired(timers, now);
        assert s.watch[i].fd in fds;
      }
    }
  }

  /** CleanTimeouts_ on the driver and the session: past the end of every talk it finishes the session and reports it,
      whatever retries remain. `attempts` is what the outside world does for the retry of each expired talk. */
  method CleanTimeouts(driver: E.EventsDriver, session: O.Session, own: map<E.Context, nat>, now: int, stuck: set<nat>,
                       attempts: nat -> Attempt)
    requires driver.Valid() && session.Valid() && forall k :: RemoteOk(attempts(k).remote)
    requires Linked(session.View(), driver.Timers(), driver.Contexts(), own)
    modifies driver, driver.heapTimeo, session
    ensures driver.Valid() && session.Valid() && session.begun == old(session.begun)
    ensures (forall i :: 0 <= i < |session.begun| ==> session.begun[i].endtimeMs < now) ==>
            session.watch == map[] && session.numTalksDone == |session.talks| && |session.reports| == 1
  {
    var order := ExpiredTalks(driver, own, now, stuck, session.View());
    var envs := seq(|order|, k requires 0 <= k < |order| => attempts(order[k]));
    session.CleanTimeouts(order, now, envs);
  }

  /** Takes the expired timers out of the driver and tells which talks of the session they are of. */
  method ExpiredTalks(driver: E.EventsDriver, own: map<E.Context, nat>, now: int, stuck: set<nat>, ghost s: Sess)
    returns (order: seq<nat>)
    requires driver.Valid() && Linked(s, driver.Timers(), driver.Contexts(), own)
    modifies driver, driver.heapTimeo
    ensures driver.Valid() && Lists(order, s, now)
  {
    ghost var timers, before := driver.Timers(), driver.Contexts();
    var contexts, fds := driver.RemoveTimeouts(now, stuck);
    DriverLists(s, timers, before, own, fds, now);
    order := TalksIn(contexts, own);
  }
}
