/** The client side of an AgentSlave as an object. Its handlers are the steps that module Clients proves to keep every
    counter right and every reader and descriptor with exactly one owner. */
module ClientsObject {
  import opened Clients

  /** What a handler did with a client: it waits, it went to a worker, or it was closed and its reader freed. */
  datatype Fate = Kept | Handed | Freed

  class AgentSlave {
    const me: nat                     // which of the slaves
    var numClientsKeepalive: int
    var waiting: set<Ticket>
    ghost var w: World                // all slaves, messages and workers

    /** This slave's part of a world in order. */
    ghost predicate Valid()
      reads this
    {
      me < |w.slaves| && Inv(w) && w.slaves[me] == Slave(numClientsKeepalive, waiting)
    }

    constructor (me: nat, n: nat)
      requires me < n
      ensures Valid() && this.me == me && |w.slaves| == n && Init(w)
    {
      this.me := me;
      numClientsKeepalive, waiting := 0, {};
      w := World(seq(n, _ => Slave(0, {})), {}, {}, {}, {}, 0, {});
      new;
      StartsWell(w);
    }

    /** Clients of this slave that are out at a worker or on their way back. */
    ghost function Away(): (ts: set<Ticket>)
      requires 0 < |w.slaves|
      reads this
    {
      Of(|w.slaves|, w.out, me) + Of(|w.slaves|, w.back, me)
    }

    /** The counter is the number of clients of this slave, wherever they are. */
    method GetNumClientsKeepalive() returns (n: int)
      requires Valid()
      ensures n == |waiting + Away()| && waiting !! Away()
    {
      n := numClientsKeepalive;
      Apart(w, me);
    }

    /** The world moves on. */
    ghost method Take(step: Step)
      requires 0 < |w.slaves| && Inv(w) && Enabled(w, step)
      modifies this`w
      ensures Inv(w) && w == Next(old(w), step)
    {
      StepKeeps(w, step);
      w := Next(w, step);
    }

    /** A step elsewhere: a client accepted, a request finished, or something at another slave. */
    ghost method Elsewhere(step: Step)
      requires Valid() && Enabled(w, step) && (Site(w, step).Somewhere? ==> Site(w, step).slave != me)
      modifies this`w
      ensures Valid() && w == Next(old(w), step)
    {
      Take(step);
    }

    /** A new client waits for its request, if its event can be registered; otherwise nothing of it is left. */
    method HandleMsgReadReq(k: Knock, reader: nat, registered: bool) returns (fate: Fate)
      requires Valid() && Enabled(w, TakeKnock(k, reader, registered)) && Slot(|w.slaves|, k.id) == me
      modifies this
      ensures Valid() && w == Next(old(w), TakeKnock(k, reader, registered))
      ensures fate == (if registered then Kept else Freed) && Settled(w, Ticket(k.id, k.fd, reader), fate)
      ensures numClientsKeepalive == old(numClientsKeepalive) + if registered then 1 else 0
    {
      Take(TakeKnock(k, reader, registered));
      numClientsKeepalive := numClientsKeepalive + 1;
      if registered {
        waiting := waiting + {Ticket(k.id, k.fd, reader)};
        return Kept;
      }
      CloseFdClient();
      return Freed;
    }

    /** A client that comes back from a worker waits for its next request for what is left of its connection's time;
        otherwise nothing of it is left. */
    method HandleMsgDestruct(t: Ticket, startSec: int, keepaliveSec: int, nowSec: int, rtimeoMs: int, registered: bool)
      returns (fate: Fate)
      requires Valid() && In(w, Back, t) && Slot(|w.slaves|, t.id) == me
      modifies this
      ensures Valid()
      ensures w == Next(old(w), TakeBack(t, TimeLeft(startSec, keepaliveSec, nowSec, rtimeoMs), registered))
      ensures Settled(w, t, fate) && numClientsKeepalive == old(numClientsKeepalive) - if fate == Freed then 1 else 0
      ensures fate == if 0 < t.fd && nowSec <= startSec + keepaliveSec && 0 < rtimeoMs && registered then Kept
                      else Freed
    {
      var left := TimeLeft(startSec, keepaliveSec, nowSec, rtimeoMs);
      Take(TakeBack(t, left, registered));
      if t.fd <= 0 {
        numClientsKeepalive := numClientsKeepalive - 1;
        return Freed;
      }
      if left <= 0 || !registered {
        CloseFdClient();
        return Freed;
      }
      waiting := waiting + {t};
      return Kept;
    }

    /** An event of a waiting client: it goes on waiting, its request goes to a worker, or nothing of it is left. */
    method HandleReadReq(t: Ticket, turn: Turn) returns (fate: Fate)
      requires Valid() && t in waiting
      modifies this
      ensures Valid() && w == Next(old(w), Ready(t, turn))
      ensures Settled(w, t, fate) && numClientsKeepalive == old(numClientsKeepalive) - if fate == Freed then 1 else 0
      ensures fate == if turn.More? then Kept else if turn == Complete(true) then Handed else Freed
    {
      assert In(w, Waiting, t);
      Take(Ready(t, turn));
      if turn.More? { return Kept; }
      waiting := waiting - {t};
      if turn == Complete(true) { return Handed; }
      CloseFdClient();
      return Freed;
    }

    /** A waiting client whose timer has expired: nothing of it is left. */
    method CleanTimeout(t: Ticket)
      requires Valid() && t in waiting
      modifies this
      ensures Valid() && w == Next(old(w), Expire(t)) && Settled(w, t, Freed)
      ensures numClientsKeepalive == old(numClientsKeepalive) - 1
    {
      assert In(w, Waiting, t);
      Take(Expire(t));
      waiting := waiting - {t};
      CloseFdClient();
    }

    method CloseFdClient()
      modifies this`numClientsKeepalive
      ensures numClientsKeepalive == old(numClientsKeepalive) - 1
    {
      numClientsKeepalive := numClientsKeepalive - 1;
    }
  }

  datatype Where = Anywhere | Somewhere(slave: nat)

  /** The slave a step happens at, if it happens at one. */
  function Site(w: World, step: Step): (s: Where)
    requires 0 < |w.slaves|
  {
    match step
    case Accept(_) => Anywhere
    case Finish(_, _) => Anywhere
    case TakeKnock(k, _, _) => Somewhere(Slot(|w.slaves|, k.id))
    case TakeBack(t, _, _) => Somewhere(Slot(|w.slaves|, t.id))
    case Ready(t, _) => Somewhere(Slot(|w.slaves|, t.id))
    case Expire(t) => Somewhere(Slot(|w.slaves|, t.id))
  }

  /** What has become of a client, in a world in order. */
  ghost predicate Settled(w: World, t: Ticket, fate: Fate)
    requires 0 < |w.slaves|
  {
    match fate
    case Kept => In(w, Waiting, t) && !In(w, Out, t) && !In(w, Back, t)
    case Handed => In(w, Out, t) && !In(w, Waiting, t) && !In(w, Back, t)
    case Freed => t.reader in w.free && t.fd !in w.open && forall p :: !In(w, p, t)
  }

  /** A client that waits is not away, and one that is out is not on its way back. */
  lemma Apart(w: World, s: nat)
    requires Inv(w) && s < |w.slaves|
    ensures var out, back := Of(|w.slaves|, w.out, s), Of(|w.slaves|, w.back, s);
            w.slaves[s].waiting !! out + back && w.slaves[s].count == |w.slaves[s].waiting + (out + back)|
  {
    var n := |w.slaves|;
    var out, back, waiting := Of(n, w.out, s), Of(n, w.back, s), w.slaves[s].waiting;
    forall t | t in waiting ensures t !in out && t !in back {
      assert In(w, Waiting, t);
      assert !In(w, Out, t) && !In(w, Back, t);
    }
    forall t | t in out ensures t !in back {
      assert In(w, Out, t);
      assert !In(w, Back, t);
    }
    assert Counted(w, s);
    assert |out + back| == |out| + |back|;
    assert |waiting + (out + back)| == |waiting| + |out + back|;
  }

  /** Milliseconds left of a connection, at most the time to wait for a request. */
  function TimeLeft(startSec: int, keepaliveSec: int, nowSec: int, rtimeoMs: int): (ms: int)
    ensures 0 < ms <==> nowSec <= startSec + keepaliveSec && 0 < rtimeoMs
    ensures ms <= rtimeoMs && ms <= 1000 * (startSec + keepaliveSec + 1 - nowSec)
  {
    var left := (startSec + keepaliveSec - nowSec + 1) * 1000;
    if left < rtimeoMs then left else rtimeoMs
  }
}
