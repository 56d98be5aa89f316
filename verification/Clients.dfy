/** Who owns a client: an AgentSlave waits for its request, a worker carries the request out, and a message brings the
    client back. The slaves, the messages in flight and the workers make up one state; messages may arrive in any
    order. */
module Clients {

  /** What travels with a client: the id of its procedure, its descriptor (-1 once closed) and its protocol reader. */
  datatype Ticket = Ticket(id: nat, fd: int, reader: nat)

  /** A client just accepted, on its way to a slave. */
  datatype Knock = Knock(id: nat, fd: int)

  // ---------------------------------------------------------------- one slave

  /** num_clients_keepalive_ and the clients with a registered event. */
  datatype Slave = Slave(count: int, waiting: set<Ticket>)

  function CloseFdClient(sl: Slave): (r: Slave) { sl.(count := sl.count - 1) }

  /** CheckMailbox_ on a kReadReq. */
  function OnReadReq(sl: Slave, t: Ticket, registered: bool): (r: Slave) {
    var up := sl.(count := sl.count + 1);
    if registered then up.(waiting := up.waiting + {t}) else CloseFdClient(up)
  }

  /** HandleMsgDestruct_, with the milliseconds the connection may still live. */
  function OnDestruct(sl: Slave, t: Ticket, timeleft: int, registered: bool): (r: Slave) {
    if t.fd <= 0 then sl.(count := sl.count - 1)
    else if timeleft <= 0 || !registered then CloseFdClient(sl)
    else sl.(waiting := sl.waiting + {t})
  }

  /** How an event of a client turns out: broken (or out of time, or not decoded), more to read, a request complete and
      accepted by a worker or not. */
  datatype Turn = Broken | More | Complete(sent: bool)

  /** CheckEvents_ on a kReadReq; every turn but More takes the event away. */
  function OnReady(sl: Slave, t: Ticket, turn: Turn): (r: Slave) {
    if turn.More? then sl
    else
      var off := sl.(waiting := sl.waiting - {t});
      if turn == Complete(true) then off else CloseFdClient(off)
  }

  /** CleanTimeouts_ on a kReadReq, whose event RemoveTimeouts has taken away. */
  function OnTimeout(sl: Slave, t: Ticket): (r: Slave) { CloseFdClient(sl.(waiting := sl.waiting - {t})) }

  // ---------------------------------------------------------------- the whole

  /** `out`: requests at the workers; `back`: destruct messages in flight; `free`: readers in the pool, of all `made`;
      `open`: client descriptors open. */
  datatype World = World(slaves: seq<Slave>, knocks: set<Knock>, out: set<Ticket>, back: set<Ticket>,
                         free: set<nat>, made: nat, open: set<int>)

  datatype Step =
    | Accept(k: Knock)
    | TakeKnock(k: Knock, reader: nat, registered: bool)
    | TakeBack(t: Ticket, timeleft: int, registered: bool)
    | Ready(t: Ticket, turn: Turn)
    | Expire(t: Ticket)
    | Finish(t: Ticket, closed: bool)

  /** Agents::SendMsg: the slave that a message for this procedure goes to. */
  function Slot(n: nat, id: nat): (s: nat)
    requires 0 < n
    ensures s < n
  {
    id % n
  }

  datatype Place = Waiting | Out | Back

  ghost predicate In(w: World, p: Place, t: Ticket)
    requires 0 < |w.slaves|
  {
    match p
    case Waiting => t in w.slaves[Slot(|w.slaves|, t.id)].waiting
    case Out => t in w.out
    case Back => t in w.back
  }

  ghost predicate Enabled(w: World, step: Step)
    requires 0 < |w.slaves|
  {
    match step
    case Accept(k) => 0 < k.fd && k.fd !in w.open
    case TakeKnock(k, reader, _) => k in w.knocks && (reader in w.free || reader == w.made)
    case TakeBack(t, _, _) => In(w, Back, t)
    case Ready(t, _) => In(w, Waiting, t)
    case Expire(t) => In(w, Waiting, t)
    case Finish(t, _) => In(w, Out, t)
  }

  function At(w: World, id: nat, sl: Slave): (v: World)
    requires 0 < |w.slaves|
  {
    w.(slaves := w.slaves[Slot(|w.slaves|, id) := sl])
  }

  /** The reader goes to the pool, and the descriptor, if open, is closed. */
  function Dropped(w: World, t: Ticket): (v: World) { w.(free := w.free + {t.reader}, open := w.open - {t.fd}) }

  /** A reader from the pool, or a new one. */
  function Taken(w: World, reader: nat): (v: World) {
    w.(free := w.free - {reader}, made := if reader == w.made then w.made + 1 else w.made)
  }

  function Next(w: World, step: Step): (v: World)
    requires 0 < |w.slaves|
  {
    match step
    case Accept(k) => w.(knocks := w.knocks + {k}, open := w.open + {k.fd})
    case TakeKnock(k, reader, registered) =>
      var t := Ticket(k.id, k.fd, reader);
      var sl := OnReadReq(w.slaves[Slot(|w.slaves|, k.id)], t, registered);
      var got := At(Taken(w, reader), k.id, sl).(knocks := w.knocks - {k});
      if registered then got else Dropped(got, t)
    case TakeBack(t, timeleft, registered) =>
      var sl := OnDestruct(w.slaves[Slot(|w.slaves|, t.id)], t, timeleft, registered);
      var got := At(w, t.id, sl).(back := w.back - {t});
      if 0 < t.fd && 0 < timeleft && registered then got else Dropped(got, t)
    case Ready(t, turn) =>
      var got := At(w, t.id, OnReady(w.slaves[Slot(|w.slaves|, t.id)], t, turn));
      if turn.More? then got else if turn == Complete(true) then got.(out := w.out + {t}) else Dropped(got, t)
    case Expire(t) => Dropped(At(w, t.id, OnTimeout(w.slaves[Slot(|w.slaves|, t.id)], t)), t)
    case Finish(t, closed) =>
      var u := if closed then t.(fd := -1) else t;
      w.(out := w.out - {t}, back := w.back + {u}, open := if closed then w.open - {t.fd} else w.open)
  }

  ghost predicate Init(w: World) {
    0 < |w.slaves| && (forall s :: 0 <= s < |w.slaves| ==> w.slaves[s] == Slave(0, {})) &&
    w.knocks == {} && w.out == {} && w.back == {} && w.free == {} && w.made == 0 && w.open == {}
  }

  // ---------------------------------------------------------------- what every state keeps

  /** A reader that is not in the pool. */
  predicate Used(w: World, reader: nat) { reader < w.made && reader !in w.free }

  /** Every client waits at the slave its messages go to. */
  ghost predicate AtHome(w: World)
    requires 0 < |w.slaves|
  {
    forall s, t :: 0 <= s < |w.slaves| && t in w.slaves[s].waiting ==> s == Slot(|w.slaves|, t.id)
  }

  ghost predicate Owned(w: World, reader: nat)
    requires 0 < |w.slaves|
  {
    exists p, t :: In(w, p, t) && t.reader == reader
  }

  /** A reader is out of the pool exactly while someone owns it, and never has two owners. */
  ghost predicate OneOwner(w: World)
    requires 0 < |w.slaves|
  {
    (forall p, t, q, u :: In(w, p, t) && In(w, q, u) && t.reader == u.reader ==> p == q && t == u) &&
    (forall p, t :: In(w, p, t) ==> Used(w, t.reader)) &&
    (forall r: nat :: Used(w, r) ==> Owned(w, r)) &&
    (forall r :: r in w.free ==> r < w.made)
  }

  ghost predicate Held(w: World, fd: int)
    requires 0 < |w.slaves|
  {
    (exists p, t :: In(w, p, t) && t.fd == fd) || (exists k :: k in w.knocks && k.fd == fd)
  }

  /** A descriptor is open exactly while a client has it, and never two clients have it. Only a worker closes the
      descriptor of a client that goes on. */
  ghost predicate OneHolder(w: World)
    requires 0 < |w.slaves|
  {
    (forall p, t, q, u :: In(w, p, t) && In(w, q, u) && t.fd == u.fd && 0 < t.fd ==> p == q && t == u) &&
    (forall k, p, t :: k in w.knocks && In(w, p, t) ==> k.fd != t.fd) &&
    (forall k, l :: k in w.knocks && l in w.knocks && k.fd == l.fd ==> k == l) &&
    (forall k :: k in w.knocks ==> 0 < k.fd && k.fd in w.open) &&
    (forall p, t :: In(w, p, t) ==> if 0 < t.fd then t.fd in w.open else p == Back) &&
    (forall fd :: fd in w.open ==> 0 < fd && Held(w, fd))
  }

  /** Those of slave s, of n. */
  function Of(n: nat, ts: set<Ticket>, s: nat): (r: set<Ticket>)
    requires 0 < n
  {
    set t | t in ts && Slot(n, t.id) == s
  }

  /** The counter of a slave is the number of its clients that wait, are out at a worker or are on their way back. */
  ghost predicate Counted(w: World, s: nat)
    requires s < |w.slaves|
  {
    w.slaves[s].count == |w.slaves[s].waiting| + |Of(|w.slaves|, w.out, s)| + |Of(|w.slaves|, w.back, s)|
  }

  ghost predicate AllCounted(w: World) { forall s :: 0 <= s < |w.slaves| ==> Counted(w, s) }

  ghost predicate Inv(w: World) { 0 < |w.slaves| && AtHome(w) && OneOwner(w) && OneHolder(w) && AllCounted(w) }

  // ---------------------------------------------------------------- one client changes

  /** What a step does to the clients: one may go, one may come. */
  datatype Change = Nobody | Somebody(p: Place, t: Ticket)

  ghost predicate Changed(w: World, v: World, gone: Change, come: Change) {
    0 < |w.slaves| == |v.slaves| &&
    (gone.Somebody? ==> In(w, gone.p, gone.t)) &&
    forall p, t :: In(v, p, t) <==> (In(w, p, t) && Somebody(p, t) != gone) || Somebody(p, t) == come
  }

  lemma OwnersKept(w: World, v: World, gone: Change, come: Change)
    requires Changed(w, v, gone, come) && OneOwner(w)
    requires come.Somebody? ==> (gone.Somebody? && come.t.reader == gone.t.reader) || !Used(w, come.t.reader)
    requires forall r: nat :: Used(v, r) <==>
      (Used(w, r) && !(gone.Somebody? && gone.t.reader == r)) || (come.Somebody? && come.t.reader == r)
    requires forall r :: r in v.free ==> r < v.made
    ensures OneOwner(v)
  {
    forall r: nat | Used(v, r) ensures Owned(v, r) {
      if come.Somebody? && come.t.reader == r {
        assert In(v, come.p, come.t);
      } else {
        assert Owned(w, r);
        var p, t :| In(w, p, t) && t.reader == r;
        assert In(v, p, t);
      }
    }
  }

  /** Someone goes and frees what it holds, or comes with its descriptor and the reader of the one who goes. */
  lemma HoldersKept(w: World, v: World, gone: Change, come: Change)
    requires Changed(w, v, gone, come) && OneHolder(w) && v.knocks == w.knocks
    requires come.Somebody? ==> gone.Somebody? && (come.t.fd == gone.t.fd || (come.t.fd <= 0 && come.p == Back))
    requires come.Somebody? ==> come.t.fd <= 0 ==> come.p == Back
    requires v.open == if gone.Somebody? && !(come.Somebody? && come.t.fd == gone.t.fd) then w.open - {gone.t.fd}
                       else w.open
    ensures OneHolder(v)
  {
    forall fd | fd in v.open ensures 0 < fd && Held(v, fd) {
      assert Held(w, fd);
      if k :| k in w.knocks && k.fd == fd {
      } else {
        var p, t :| In(w, p, t) && t.fd == fd;
        if Somebody(p, t) == gone { assert In(v, come.p, come.t); } else { assert In(v, p, t); }
      }
    }
  }

  // ---------------------------------------------------------------- the counters

  /** A client more or less counts for its own slave only. */
  lemma OfAdd(n: nat, ts: set<Ticket>, t: Ticket, s: nat)
    requires 0 < n && t !in ts
    ensures |Of(n, ts + {t}, s)| == |Of(n, ts, s)| + if Slot(n, t.id) == s then 1 else 0
  {
    if Slot(n, t.id) == s {
      assert Of(n, ts + {t}, s) == Of(n, ts, s) + {t};
    } else {
      assert Of(n, ts + {t}, s) == Of(n, ts, s);
    }
  }

  lemma OfRemove(n: nat, ts: set<Ticket>, t: Ticket, s: nat)
    requires 0 < n && t in ts
    ensures |Of(n, ts - {t}, s)| == |Of(n, ts, s)| - if Slot(n, t.id) == s then 1 else 0
  {
    assert ts - {t} + {t} == ts;
    OfAdd(n, ts - {t}, t, s);
  }

  lemma BackCounted(w: World, t: Ticket, timeleft: int, registered: bool, s: nat)
    requires 0 < |w.slaves| && s < |w.slaves| && Counted(w, s) && In(w, Back, t) && !In(w, Waiting, t)
    ensures Counted(Next(w, TakeBack(t, timeleft, registered)), s)
  {
    OfRemove(|w.slaves|, w.back, t, s);
  }

  lemma ReadyCounted(w: World, t: Ticket, turn: Turn, s: nat)
    requires 0 < |w.slaves| && s < |w.slaves| && Counted(w, s) && In(w, Waiting, t) && !In(w, Out, t)
    ensures Counted(Next(w, Ready(t, turn)), s)
  {
    OfAdd(|w.slaves|, w.out, t, s);
  }

  lemma FinishCounted(w: World, t: Ticket, u: Ticket, s: nat)
    requires 0 < |w.slaves| && s < |w.slaves| && Counted(w, s) && In(w, Out, t) && !In(w, Back, u) && u.id == t.id
    ensures Counted(w.(out := w.out - {t}, back := w.back + {u}), s)
  {
    OfRemove(|w.slaves|, w.out, t, s);
    OfAdd(|w.slaves|, w.back, u, s);
  }

  lemma CountKept(w: World, step: Step, s: nat)
    requires 0 < |w.slaves| && OneOwner(w) && s < |w.slaves| && Counted(w, s) && Enabled(w, step)
    ensures Counted(Next(w, step), s)
  {
    match step
    case Accept(_) =>
    case TakeKnock(k, reader, _) =>
      assert !In(w, Waiting, Ticket(k.id, k.fd, reader));
    case TakeBack(t, timeleft, registered) =>
      assert In(w, Back, t);
      BackCounted(w, t, timeleft, registered, s);
    case Ready(t, turn) =>
      assert In(w, Waiting, t);
      ReadyCounted(w, t, turn, s);
    case Expire(t) =>
    case Finish(t, closed) =>
      assert In(w, Out, t);
      FinishCounted(w, t, if closed then t.(fd := -1) else t, s);
  }

  // ---------------------------------------------------------------- the steps

  /** What each step does to the clients. */
  function Gone(step: Step): (c: Change) {
    match step
    case Accept(_) => Nobody
    case TakeKnock(_, _, _) => Nobody
    case TakeBack(t, _, _) => Somebody(Back, t)
    case Ready(t, turn) => if turn.More? then Nobody else Somebody(Waiting, t)
    case Expire(t) => Somebody(Waiting, t)
    case Finish(t, _) => Somebody(Out, t)
  }

  function Come(step: Step): (c: Change) {
    match step
    case Accept(_) => Nobody
    case TakeKnock(k, reader, registered) =>
      if registered then Somebody(Waiting, Ticket(k.id, k.fd, reader)) else Nobody
    case TakeBack(t, timeleft, registered) =>
      if 0 < t.fd && 0 < timeleft && registered then Somebody(Waiting, t) else Nobody
    case Ready(t, turn) => if turn == Complete(true) then Somebody(Out, t) else Nobody
    case Expire(t) => Nobody
    case Finish(t, closed) => Somebody(Back, if closed then t.(fd := -1) else t)
  }

  lemma StepChanges(w: World, step: Step)
    requires Inv(w) && Enabled(w, step)
    ensures Changed(w, Next(w, step), Gone(step), Come(step))
    ensures Next(w, step).knocks == if step.Accept? then w.knocks + {step.k}
                                    else if step.TakeKnock? then w.knocks - {step.k} else w.knocks
  {
  }

  lemma HomesKept(w: World, step: Step)
    requires Inv(w) && Enabled(w, step)
    ensures AtHome(Next(w, step))
  {
  }

  lemma KnockEnters(w: World, v: World, k: Knock, t: Ticket)
    requires Changed(w, v, Nobody, Somebody(Waiting, t)) && OneHolder(w) && k in w.knocks && t.fd == k.fd
    requires v.knocks == w.knocks - {k} && v.open == w.open
    ensures OneHolder(v)
  {
    assert In(v, Waiting, t);
    forall fd | fd in v.open ensures 0 < fd && Held(v, fd) {
      assert Held(w, fd);
      if l :| l in w.knocks && l.fd == fd {
        if l != k { assert l in v.knocks; }
      } else {
        var p, u :| In(w, p, u) && u.fd == fd;
        assert In(v, p, u);
      }
    }
  }

  lemma KnockFails(w: World, v: World, k: Knock)
    requires Changed(w, v, Nobody, Nobody) && OneHolder(w) && k in w.knocks
    requires v.knocks == w.knocks - {k} && v.open == w.open - {k.fd}
    ensures OneHolder(v)
  {
    forall fd | fd in v.open ensures 0 < fd && Held(v, fd) {
      assert Held(w, fd);
      if l :| l in w.knocks && l.fd == fd {
        assert l in v.knocks;
      } else {
        var p, u :| In(w, p, u) && u.fd == fd;
        assert In(v, p, u);
      }
    }
  }

  lemma Knocks(w: World, v: World, k: Knock)
    requires Changed(w, v, Nobody, Nobody) && OneHolder(w) && 0 < k.fd && k.fd !in w.open
    requires v.knocks == w.knocks + {k} && v.open == w.open + {k.fd}
    ensures OneHolder(v)
  {
    forall fd | fd in v.open ensures 0 < fd && Held(v, fd) {
      if fd == k.fd {
        assert k in v.knocks;
      } else {
        assert Held(w, fd);
        if l :| l in w.knocks && l.fd == fd {
          assert l in v.knocks;
        } else {
          var p, u :| In(w, p, u) && u.fd == fd;
          assert In(v, p, u);
        }
      }
    }
  }

  /** Every step keeps every client and every reader with exactly one owner, and every counter right. */
  lemma StepKeeps(w: World, step: Step)
    requires Inv(w) && Enabled(w, step)
    ensures Inv(Next(w, step))
  {
    var v, gone, come := Next(w, step), Gone(step), Come(step);
    StepChanges(w, step);
    HomesKept(w, step);
    forall s | 0 <= s < |w.slaves| ensures Counted(v, s) { CountKept(w, step, s); }
    OwnersKept(w, v, gone, come);
    match step
    case Accept(k) => Knocks(w, v, k);
    case TakeKnock(k, reader, registered) =>
      if registered { KnockEnters(w, v, k, come.t); } else { KnockFails(w, v, k); }
    case _ => HoldersKept(w, v, gone, come);
  }

  // ---------------------------------------------------------------- every run

  ghost predicate CanRun(w: World, steps: seq<Step>)
    decreases |steps|
  {
    0 < |w.slaves| && (steps == [] || (Enabled(w, steps[0]) && CanRun(Next(w, steps[0]), steps[1..])))
  }

  function After(w: World, steps: seq<Step>): (v: World)
    requires 0 < |w.slaves|
    decreases |steps|
  {
    if steps == [] then w
    else
      var v := Next(w, steps[0]);
      if 0 < |v.slaves| then After(v, steps[1..]) else v
  }

  lemma {:induction false} RunKeeps(w: World, steps: seq<Step>)
    requires Inv(w) && CanRun(w, steps)
    ensures Inv(After(w, steps))
    decreases |steps|
  {
    if steps != [] {
      StepKeeps(w, steps[0]);
      RunKeeps(Next(w, steps[0]), steps[1..]);
    }
  }

  lemma StartsWell(w: World)
    requires Init(w)
    ensures Inv(w)
  {
    forall p, t ensures !In(w, p, t) {
      if p.Waiting? { assert w.slaves[Slot(|w.slaves|, t.id)] == Slave(0, {}); }
    }
    forall s | 0 <= s < |w.slaves| ensures Counted(w, s) {
      assert Of(|w.slaves|, {}, s) == {};
    }
  }

  /** In every state of every run each slave counts exactly its clients, and each reader out of the pool and each open
      descriptor belongs to exactly one client. */
  lemma Ownership(w: World, steps: seq<Step>)
    requires Init(w) && CanRun(w, steps)
    ensures var v := After(w, steps); 0 < |v.slaves| && AllCounted(v) && OneOwner(v) && OneHolder(v) && AtHome(v)
  {
    StartsWell(w);
    RunKeeps(w, steps);
  }

  /** A client is registered only when no event of any slave has its descriptor. */
  lemma RegisteredFresh(w: World, step: Step, s: nat, t: Ticket)
    requires Inv(w) && Enabled(w, step) && Gone(step) != Come(step) && Come(step).Somebody? && Come(step).p == Waiting
    requires s < |w.slaves| && t in w.slaves[s].waiting
    ensures t.fd != Come(step).t.fd
  {
    assert In(w, Waiting, t);
    if step.TakeBack? { assert In(w, Back, step.t); }
  }

  /** Once all clients have gone, the counters are 0, all readers are in the pool and no descriptor is open. */
  lemma NothingLeft(w: World)
    requires Inv(w) && w.knocks == {} && w.out == {} && w.back == {}
    requires forall s :: 0 <= s < |w.slaves| ==> w.slaves[s].waiting == {}
    ensures forall s :: 0 <= s < |w.slaves| ==> w.slaves[s].count == 0
    ensures w.open == {} && forall r: nat :: r < w.made ==> r in w.free
  {
    forall s | 0 <= s < |w.slaves| ensures w.slaves[s].count == 0 {
      assert Counted(w, s);
      assert Of(|w.slaves|, {}, s) == {};
    }
    forall r: nat | r < w.made ensures r in w.free {
      assert !Used(w, r);
    }
    assert forall fd :: fd in w.open <==> fd in {};
  }
}
