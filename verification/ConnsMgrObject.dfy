/** The connection manager as the object an agent updates. */
module ConnsMgrObject {
  import opened Options
  import opened Machine
  import C = ConnsMgr

  /** The pools with a new one for every remote that had none. */
  ghost function Added(conns: map<C.Addr, nat>, remotes: set<C.Addr>): (r: map<C.Addr, nat>) {
    map a | a in conns.Keys + remotes :: if a in conns then conns[a] else C.FULL_MARK
  }

  lemma AddedNone(conns: map<C.Addr, nat>)
    ensures Added(conns, {}) == conns
  {
  }

  lemma AddedOne(conns: map<C.Addr, nat>, done: set<C.Addr>, a: C.Addr)
    ensures Added(conns, done + {a}) ==
            if a in Added(conns, done) then Added(conns, done) else Added(conns, done)[a := C.FULL_MARK]
  {
  }

  lemma DropOne(conns: map<C.Addr, nat>, gone: set<C.Addr>, a: C.Addr)
    ensures conns - gone - {a} == conns - (gone + {a})
  {
  }

  class ConnsMgr {
    var conns: map<C.Addr, nat>
    var unhealthyGuys: set<C.Addr>

    ghost function View(): (m: C.Mgr)
      reads this
    {
      C.Mgr(conns, unhealthyGuys)
    }

    ghost predicate Valid()
      reads this
    {
      C.Ok(View())
    }

    constructor ()
      ensures Valid() && View() == C.Run([])
    {
      conns, unhealthyGuys := map[], {};
    }

    /** Makes pools for the remotes configured and drops those that are not any more. */
    method ConfigRemotes(remotes: set<C.Addr>)
      requires Valid()
      modifies this
      ensures Valid() && View() == C.Configure(old(View()), remotes)
    {
      AddMissing(remotes);
      DropOthers(remotes);
      assert conns == C.Configure(old(View()), remotes).conns;
      assert unhealthyGuys == C.Configure(old(View()), remotes).unhealthy;
      C.ApplyOk(old(View()), C.DoConfigure(remotes));
    }

    method AddMissing(remotes: set<C.Addr>)
      modifies this`conns
      ensures conns == Added(old(conns), remotes)
    {
      var todo := remotes;
      ghost var done: set<C.Addr> := {};
      AddedNone(conns);
      while todo != {}
        invariant forall a :: a in remotes <==> a in done || a in todo
        invariant conns == Added(old(conns), done)
        decreases todo
      {
        var a :| a in todo;
        AddedOne(old(conns), done, a);
        if a !in conns {
          conns := conns[a := C.FULL_MARK];
        }
        done := done + {a};
        todo := todo - {a};
      }
      assert done == remotes;
    }

    method DropOthers(remotes: set<C.Addr>)
      modifies this
      ensures conns == old(conns) - (old(conns).Keys - remotes)
      ensures unhealthyGuys == old(unhealthyGuys) - (old(conns).Keys - remotes)
    {
      var todo := conns.Keys;
      ghost var gone: set<C.Addr> := {};
      assert conns - gone == conns;
      while todo != {}
        invariant forall a :: a in gone <==> a in old(conns) && a !in todo && a !in remotes
        invariant todo <= old(conns).Keys
        invariant conns == old(conns) - gone && unhealthyGuys == old(unhealthyGuys) - gone
        decreases todo
      {
        var a :| a in todo;
        if a !in remotes {
          DropOne(old(conns), gone, a);
          unhealthyGuys := unhealthyGuys - {a};
          conns := conns - {a};
          gone := gone + {a};
        }
        todo := todo - {a};
      }
      assert gone == old(conns).Keys - remotes;
    }

    method ReportStatus(a: C.Addr, status: bool)
      requires Valid()
      modifies this
      ensures Valid() && View() == C.Report(old(View()), a, status)
    {
      C.ApplyOk(View(), C.DoReport(a, status));
      if a in conns {
        var oldStatus := conns[a] == C.FULL_MARK;
        conns := conns[a := C.Marked(conns[a], status)];
        var newStatus := conns[a] == C.FULL_MARK;
        if oldStatus && !newStatus {
          unhealthyGuys := unhealthyGuys + {a};
        } else if !oldStatus && newStatus {
          unhealthyGuys := unhealthyGuys - {a};
        }
      }
    }

    /** GetFd_ without the socket: the pool it would use is there afterwards. */
    method EnsurePool(a: C.Addr)
      requires Valid()
      modifies this
      ensures Valid() && View() == C.Meet(old(View()), a) && a in conns
    {
      C.ApplyOk(View(), C.DoMeet(a));
      if a !in conns {
        conns := conns[a := C.FULL_MARK];
      }
    }

    ghost predicate Preferred(r: C.Remote, failed: seq<C.Addr>)
      reads this
    {
      r.addr !in unhealthyGuys && !C.FailedBefore(r, failed)
    }

    ghost predicate IsFirst(remotes: seq<C.Remote>, failed: seq<C.Addr>, i: nat)
      reads this
    {
      i < |remotes| && Preferred(remotes[i], failed) && forall j :: 0 <= j < i ==> !Preferred(remotes[j], failed)
    }

    /** The first healthy remote the talk has not failed on, or a random one when there is none. */
    method GetRemoteNormal(remotes: seq<C.Remote>, failed: seq<C.Addr>, rand: nat) returns (r: C.Remote)
      requires Valid() && remotes != []
      ensures (exists i: nat :: IsFirst(remotes, failed, i) && r == remotes[i]) ||
              ((forall j :: 0 <= j < |remotes| ==> !Preferred(remotes[j], failed)) && r == remotes[rand % |remotes|])
    {
      var i := 0;
      while i < |remotes|
        invariant 0 <= i <= |remotes|
        invariant forall j :: 0 <= j < i ==> !Preferred(remotes[j], failed)
      {
        if remotes[i].addr !in unhealthyGuys && !C.FailedBefore(remotes[i], failed) {
          assert IsFirst(remotes, failed, i);
          return remotes[i];
        }
        i := i + 1;
      }
      r := remotes[rand % |remotes|];
    }

    /** The selection loop; the accumulated weight is an int, which never overflows while the total fits one. */
    method Select(ws: seq<nat>, random: nat) returns (r: Option<nat>)
      requires C.Sum(ws) <= C.INT_MAX
      ensures r == C.Pick(ws, random)
    {
      var weight, i := 0, 0;
      while i < |ws|
        invariant 0 <= i <= |ws| && weight == C.Sum(ws[..i])
        invariant C.Pick(ws, random) == C.PickFrom(ws, random, i)
      {
        C.SumStep(ws, i);
        C.SumMonotone(ws, i + 1, |ws|);
        assert ws[..|ws|] == ws;
        ToIntExact(weight + ws[i]);
        weight := ToInt(weight + ws[i]);
        if weight > random {
          return Some(i);
        }
        i := i + 1;
      }
      return None;
    }

    method Total(ws: seq<nat>) returns (sum: nat)
      ensures sum == C.Sum(ws)
    {
      var i := 0;
      sum := 0;
      while i < |ws|
        invariant 0 <= i <= |ws| && sum == C.Sum(ws[..i])
      {
        C.SumStep(ws, i);
        sum := sum + ws[i];
        i := i + 1;
      }
      assert ws[..|ws|] == ws;
    }

    method GetRemoteWeight(remotes: seq<C.Remote>, failed: seq<C.Addr>, rand: nat) returns (r: Option<C.Remote>)
      requires Valid() && C.Choosable(View(), remotes)
      ensures r == C.Choose(View(), remotes, failed, rand)
    {
      C.ChooseReady(View(), remotes, failed);
      if unhealthyGuys == {} {
        var ws := C.Weights(remotes);
        var weightAll := Total(ws);
        var k := Select(ws, rand % weightAll);
        return C.At(remotes, k);
      }
      var tmpRemotes: seq<C.Remote> := [];
      var i := 0;
      while i < |remotes|
        invariant 0 <= i <= |remotes| && tmpRemotes == C.Untried(remotes[..i], failed)
      {
        assert remotes[..i + 1][..i] == remotes[..i];
        if !C.FailedBefore(remotes[i], failed) {
          tmpRemotes := tmpRemotes + [remotes[i]];
        }
        i := i + 1;
      }
      assert remotes[..|remotes|] == remotes;
      if |tmpRemotes| == 0 {
        return Some(remotes[rand % |remotes|]);
      }
      C.UntriedSum(conns, remotes, failed);
      var tmpWeights := C.MarkedWeights(conns, tmpRemotes);
      var weightAll := Total(tmpWeights);
      var k := Select(tmpWeights, rand % weightAll);
      return C.At(tmpRemotes, k);
    }
  }
}
