/** The connection manager of one agent: a health mark per remote, the set of unhealthy remotes, and the choice of a
    remote for a talk. The container of pools is a finite map from addresses to health marks; sockets are left out. */
module ConnsMgr {
  import opened Options

  type Addr = nat

  /** A remote of a service; two remotes are the same when their addresses are. */
  datatype Remote = Remote(addr: Addr, weight: nat)

  const FULL_MARK: nat := 100
  const INT_MAX: nat := 0x7FFF_FFFF

  // ---------------------------------------------------------------- health marks

  /** PoolConnsPerRemote::ReportStatus */
  function Marked(mark: nat, status: bool): (r: nat)
  {
    if status then (if 2 * mark < FULL_MARK then 2 * mark else FULL_MARK)
    else (if mark / 2 > 1 then mark / 2 else 1)
  }

  function Successes(mark: nat, n: nat): (r: nat) {
    if n == 0 then mark else Marked(Successes(mark, n - 1), true)
  }

  function Power2(n: nat): (r: nat)
    ensures 1 <= r
  {
    if n == 0 then 1 else 2 * Power2(n - 1)
  }

  /** n successes in a row bring any mark to the full mark, or to 2 to the n at least; the lowest mark exactly there. */
  lemma {:induction false} SuccessesDouble(mark: nat, n: nat)
    requires 1 <= mark <= FULL_MARK
    ensures Successes(mark, n) <= FULL_MARK && (Successes(mark, n) == FULL_MARK || Power2(n) <= Successes(mark, n))
    ensures Power2(n) < FULL_MARK ==> Successes(1, n) == Power2(n)
  {
    if 0 < n { SuccessesDouble(mark, n - 1); }
  }

  function Failures(mark: nat, n: nat): (r: nat) {
    if n == 0 then mark else Marked(Failures(mark, n - 1), false)
  }

  function Halved(mark: nat, n: nat): (r: nat) {
    if mark / Power2(n) < 1 then 1 else mark / Power2(n)
  }

  /** n failures in a row divide a mark by 2 to the n, down to 1 and no further. */
  lemma {:induction false} FailuresHalve(mark: nat, n: nat)
    requires 1 <= mark
    ensures Failures(mark, n) == Halved(mark, n)
  {
    if 0 < n {
      FailuresHalve(mark, n - 1);
      HalvedOnce(mark, Power2(n - 1));
    }
  }

  lemma HalvedOnce(m: nat, p: nat)
    requires 0 < p
    ensures m / (2 * p) == m / p / 2
  {
    var q, r := m / p, m % p;
    assert m == q * p + r && q == 2 * (q / 2) + q % 2;
    assert m == (q / 2) * (2 * p) + (q % 2) * p + r;
    assert 0 <= (q % 2) * p + r < 2 * p;
    QuotientIs(m, 2 * p, q / 2, (q % 2) * p + r);
  }

  lemma QuotientIs(m: nat, d: nat, q: nat, r: nat)
    requires 0 < d && m == q * d + r && r < d
    ensures m / d == q
  {
    var k := m / d;
    assert m == k * d + m % d;
    if k < q { Further(k, q, d); } else if q < k { Further(q, k, d); }
  }

  lemma Further(a: nat, b: nat, d: nat)
    requires a < b
    ensures a * d + d <= b * d
  {
    assert (a + 1) * d <= b * d;
  }

  /** n successes in a row multiply a mark by 2 to the n, up to the full mark and no further. */
  lemma {:induction false} SuccessesMultiply(mark: nat, n: nat)
    requires 1 <= mark <= FULL_MARK
    ensures Successes(mark, n) == if mark * Power2(n) < FULL_MARK then mark * Power2(n) else FULL_MARK
  {
    if 0 < n {
      SuccessesMultiply(mark, n - 1);
      Doubled(mark, Power2(n - 1));
    }
  }

  lemma Doubled(m: nat, p: nat)
    ensures m * (2 * p) == 2 * (m * p)
  {
  }

  /** Seven successes restore any mark, and six do not restore the lowest. */
  lemma SevenRecover(mark: nat)
    requires 1 <= mark <= FULL_MARK
    ensures Successes(mark, 7) == FULL_MARK
    ensures Successes(1, 6) < FULL_MARK
  {
    SuccessesDouble(mark, 7);
    SuccessesDouble(1, 6);
    assert Power2(1) == 2 && Power2(2) == 4 && Power2(3) == 8 && Power2(4) == 16;
    assert Power2(5) == 32 && Power2(6) == 64 && Power2(7) == 128;
  }

  // ---------------------------------------------------------------- the manager

  datatype Mgr = Mgr(conns: map<Addr, nat>, unhealthy: set<Addr>)

  /** The unhealthy set is exactly the remotes whose mark is not full; marks stay between 1 and full. */
  ghost predicate Ok(m: Mgr) {
    (forall a :: a in m.conns ==> 1 <= m.conns[a] <= FULL_MARK) &&
    m.unhealthy == set a | a in m.conns && m.conns[a] != FULL_MARK
  }

  /** ReportStatus: the set is touched only when the remote changes sides. */
  function Report(m: Mgr, a: Addr, status: bool): (r: Mgr) {
    if a !in m.conns then m
    else
      var mark := Marked(m.conns[a], status);
      Mgr(m.conns[a := mark],
          if m.conns[a] == FULL_MARK && mark != FULL_MARK then m.unhealthy + {a}
          else if m.conns[a] != FULL_MARK && mark == FULL_MARK then m.unhealthy - {a}
          else m.unhealthy)
  }

  /** GetFd_ makes a pool for a remote it has not seen. */
  function Meet(m: Mgr, a: Addr): (r: Mgr) {
    if a in m.conns then m else m.(conns := m.conns[a := FULL_MARK])
  }

  /** ConfigRemotes */
  function Configure(m: Mgr, remotes: set<Addr>): (r: Mgr) {
    Mgr(map a | a in remotes :: if a in m.conns then m.conns[a] else FULL_MARK, m.unhealthy - (m.conns.Keys - remotes))
  }

  datatype Op = DoReport(a: Addr, status: bool) | DoMeet(a: Addr) | DoConfigure(remotes: set<Addr>)

  function Apply(m: Mgr, op: Op): (r: Mgr) {
    match op
    case DoReport(a, status) => Report(m, a, status)
    case DoMeet(a) => Meet(m, a)
    case DoConfigure(remotes) => Configure(m, remotes)
  }

  function Run(ops: seq<Op>): (m: Mgr) {
    if ops == [] then Mgr(map[], {}) else Apply(Run(ops[..|ops| - 1]), ops[|ops| - 1])
  }

  lemma ApplyOk(m: Mgr, op: Op)
    requires Ok(m)
    ensures Ok(Apply(m, op))
  {
  }

  /** Through any reports, new remotes and reconfigurations, the unhealthy set is exact. */
  lemma {:induction false} UnhealthyExact(ops: seq<Op>)
    ensures Ok(Run(ops))
  {
    if ops != [] {
      UnhealthyExact(ops[..|ops| - 1]);
      ApplyOk(Run(ops[..|ops| - 1]), ops[|ops| - 1]);
    }
  }

  /** A report doubles or halves the mark of the remote it is about, if there is a pool for it, and touches no other. */
  lemma ReportExactly(m: Mgr, a: Addr, status: bool, b: Addr)
    ensures var r := Report(m, a, status);
            (b in r.conns <==> b in m.conns) && (b != a && b in m.conns ==> r.conns[b] == m.conns[b]) &&
            (b != a ==> (b in r.unhealthy <==> b in m.unhealthy)) &&
            (b == a && a in m.conns ==>
             r.conns[a] == if status then Successes(m.conns[a], 1) else Failures(m.conns[a], 1))
  {
    assert Successes(1, 0) == 1;
  }

  /** Configuring leaves exactly the remotes configured: known ones keep their marks, new ones have a full one. */
  lemma ConfigureExactly(m: Mgr, remotes: set<Addr>, b: Addr)
    ensures var r := Configure(m, remotes);
            (b in r.conns <==> b in remotes) &&
            (b in remotes ==> r.conns[b] == if b in m.conns then m.conns[b] else FULL_MARK) &&
            (b in remotes ==> (b in r.unhealthy <==> b in m.unhealthy))
  {
  }

  /** A remote met for the first time is healthy; nothing else changes. */
  lemma MeetExactly(m: Mgr, a: Addr, b: Addr)
    ensures var r := Meet(m, a);
            r.unhealthy == m.unhealthy && (b in r.conns <==> b in m.conns || b == a) &&
            (b in r.conns ==> r.conns[b] == if b in m.conns then m.conns[b] else FULL_MARK)
  {
  }

  // ---------------------------------------------------------------- weighted choice

  function Sum(ws: seq<nat>): (n: nat) { if ws == [] then 0 else Sum(ws[..|ws| - 1]) + ws[|ws| - 1] }

  /** The selection loop: the first index at which the accumulated weight exceeds the random value. */
  function PickFrom(ws: seq<nat>, random: nat, i: nat): (r: Option<nat>)
    requires i <= |ws|
    decreases |ws| - i
  {
    if i == |ws| then None else if Sum(ws[..i + 1]) > random then Some(i) else PickFrom(ws, random, i + 1)
  }

  function Pick(ws: seq<nat>, random: nat): (r: Option<nat>) { PickFrom(ws, random, 0) }

  lemma SumStep(ws: seq<nat>, i: nat)
    requires i < |ws|
    ensures Sum(ws[..i + 1]) == Sum(ws[..i]) + ws[i]
  {
    assert ws[..i + 1][..i] == ws[..i];
  }

  lemma {:induction false} SumMonotone(ws: seq<nat>, i: nat, j: nat)
    requires i <= j <= |ws|
    ensures Sum(ws[..i]) <= Sum(ws[..j])
    decreases j - i
  {
    if i < j {
      SumStep(ws, i);
      SumMonotone(ws, i + 1, j);
    }
  }

  lemma {:induction false} PickFromIs(ws: seq<nat>, random: nat, i: nat, k: nat)
    requires i <= k < |ws| && Sum(ws[..i]) <= random
    ensures PickFrom(ws, random, i) == Some(k) <==> Sum(ws[..k]) <= random < Sum(ws[..k + 1])
    decreases |ws| - i
  {
    SumStep(ws, i);
    if Sum(ws[..i + 1]) > random {
      if i < k { SumMonotone(ws, i + 1, k); }
    } else if i < k {
      PickFromIs(ws, random, i + 1, k);
    } else {
      NotBack(ws, random, i + 1);
    }
  }

  lemma {:induction false} NotBack(ws: seq<nat>, random: nat, i: nat)
    requires i <= |ws|
    ensures PickFrom(ws, random, i).Some? ==> i <= PickFrom(ws, random, i).value < |ws|
    decreases |ws| - i
  {
    if i < |ws| && Sum(ws[..i + 1]) <= random { NotBack(ws, random, i + 1); }
  }

  /** Index k is picked for exactly the random values in its stretch of the line. */
  lemma PickIs(ws: seq<nat>, random: nat, k: nat)
    requires k < |ws|
    ensures Pick(ws, random) == Some(k) <==> Sum(ws[..k]) <= random < Sum(ws[..k + 1])
  {
    PickFromIs(ws, random, 0, k);
  }

  /** A random value below the total always picks something: no NULL. */
  lemma {:induction false} PickSome(ws: seq<nat>, random: nat, i: nat)
    requires i <= |ws| && Sum(ws[..i]) <= random < Sum(ws)
    ensures PickFrom(ws, random, i).Some? && PickFrom(ws, random, i).value < |ws|
    decreases |ws| - i
  {
    assert ws[..|ws|] == ws;
    if i < |ws| && Sum(ws[..i + 1]) <= random { PickSome(ws, random, i + 1); }
  }

  function Interval(lo: nat, hi: nat): (s: set<nat>)
    requires lo <= hi
    ensures forall x :: x in s <==> lo <= x < hi
    ensures |s| == hi - lo
    decreases hi - lo
  {
    if lo == hi then {} else Interval(lo, hi - 1) + {hi - 1}
  }

  /** The values below the total that pick index k. */
  ghost function Pickers(ws: seq<nat>, k: nat): (xs: set<nat>) { set x: nat | x < Sum(ws) && Pick(ws, x) == Some(k) }

  /** Of the values below the total, as many pick index k as its weight says. */
  lemma PickedExactly(ws: seq<nat>, k: nat)
    requires k < |ws|
    ensures |Pickers(ws, k)| == ws[k]
  {
    var lo, hi := Sum(ws[..k]), Sum(ws[..k + 1]);
    SumStep(ws, k);
    SumMonotone(ws, k + 1, |ws|);
    assert ws[..|ws|] == ws;
    forall x: nat ensures x < Sum(ws) && Pick(ws, x) == Some(k) <==> x in Interval(lo, hi) {
      PickIs(ws, x, k);
    }
    assert Pickers(ws, k) == Interval(lo, hi);
  }

  // ---------------------------------------------------------------- choosing a remote

  function Weights(remotes: seq<Remote>): (ws: seq<nat>)
    ensures |ws| == |remotes|
  {
    seq(|remotes|, i requires 0 <= i < |remotes| => remotes[i].weight)
  }

  function MarkedWeights(conns: map<Addr, nat>, remotes: seq<Remote>): (ws: seq<nat>)
    requires forall i :: 0 <= i < |remotes| ==> remotes[i].addr in conns
    ensures |ws| == |remotes|
  {
    seq(|remotes|, i requires 0 <= i < |remotes| => remotes[i].weight * conns[remotes[i].addr])
  }

  predicate FailedBefore(r: Remote, failed: seq<Addr>) { r.addr in failed }

  /** The remotes of the service the talk has not failed on. */
  function Untried(remotes: seq<Remote>, failed: seq<Addr>): (r: seq<Remote>)
    ensures forall x :: x in r ==> x in remotes && !FailedBefore(x, failed)
    ensures forall x :: x in remotes && !FailedBefore(x, failed) ==> x in r
  {
    if remotes == [] then []
    else
      var front, last := Untried(remotes[..|remotes| - 1], failed), remotes[|remotes| - 1];
      if FailedBefore(last, failed) then front else front + [last]
  }

  /** What GetRemoteWeight_ needs: a service with remotes, all configured, of positive weight, and a total of the
      weights it adds up that an int can hold. */
  ghost predicate Choosable(m: Mgr, remotes: seq<Remote>) {
    remotes != [] &&
    (forall i :: 0 <= i < |remotes| ==> remotes[i].addr in m.conns && 0 < remotes[i].weight) &&
    if m.unhealthy == {} then Sum(Weights(remotes)) <= INT_MAX else Sum(MarkedWeights(m.conns, remotes)) <= INT_MAX
  }

  /** What is added up for some of the remotes is no more than what is added up for all. */
  lemma {:induction false} UntriedSum(conns: map<Addr, nat>, remotes: seq<Remote>, failed: seq<Addr>)
    requires forall i :: 0 <= i < |remotes| ==> remotes[i].addr in conns
    ensures forall i :: 0 <= i < |Untried(remotes, failed)| ==> Untried(remotes, failed)[i].addr in conns
    ensures Sum(MarkedWeights(conns, Untried(remotes, failed))) <= Sum(MarkedWeights(conns, remotes))
    decreases |remotes|
  {
    if remotes != [] {
      var front, last := remotes[..|remotes| - 1], remotes[|remotes| - 1];
      UntriedSum(conns, front, failed);
      MarkedAppend(conns, front, last);
      assert remotes == front + [last];
      if !FailedBefore(last, failed) { MarkedAppend(conns, Untried(front, failed), last); }
    }
  }

  lemma MarkedAppend(conns: map<Addr, nat>, front: seq<Remote>, last: Remote)
    requires (forall i :: 0 <= i < |front| ==> front[i].addr in conns) && last.addr in conns
    ensures forall i :: 0 <= i < |front + [last]| ==> (front + [last])[i].addr in conns
    ensures Sum(MarkedWeights(conns, front + [last])) ==
            Sum(MarkedWeights(conns, front)) + last.weight * conns[last.addr]
  {
    var ws := MarkedWeights(conns, front + [last]);
    assert ws[..|front|] == MarkedWeights(conns, front);
  }

  /** GetRemoteWeight_, given the value rand_r returns. None stands for NULL. */
  function Choose(m: Mgr, remotes: seq<Remote>, failed: seq<Addr>, rand: nat): (r: Option<Remote>)
    requires Ok(m) && Choosable(m, remotes)
  {
    ChooseReady(m, remotes, failed);
    if m.unhealthy == {} then
      At(remotes, Pick(Weights(remotes), rand % Sum(Weights(remotes))))
    else
      var left := Untried(remotes, failed);
      if left == [] then Some(remotes[rand % |remotes|])
      else
        var ws := MarkedWeights(m.conns, left);
        At(left, Pick(ws, rand % Sum(ws)))
  }

  function At(remotes: seq<Remote>, i: Option<nat>): (r: Option<Remote>) {
    if i.Some? && i.value < |remotes| then Some(remotes[i.value]) else None
  }

  lemma {:induction false} SumPositive(ws: seq<nat>)
    requires ws != [] && forall i :: 0 <= i < |ws| ==> 0 < ws[i]
    ensures 0 < Sum(ws)
  {
  }

  /** The demands of Choose, from what the configuration guarantees. */
  lemma ChooseReady(m: Mgr, remotes: seq<Remote>, failed: seq<Addr>)
    requires Ok(m) && Choosable(m, remotes)
    ensures 0 < Sum(Weights(remotes))
    ensures var left := Untried(remotes, failed);
            (forall i :: 0 <= i < |left| ==> left[i].addr in m.conns) &&
            (left != [] ==> 0 < Sum(MarkedWeights(m.conns, left)))
  {
    SumPositive(Weights(remotes));
    var left := Untried(remotes, failed);
    forall i | 0 <= i < |left| ensures left[i].addr in m.conns && 0 < left[i].weight * m.conns[left[i].addr] {
      assert left[i] in remotes;
      var j :| 0 <= j < |remotes| && remotes[j] == left[i];
      Positive(left[i].weight, m.conns[left[i].addr]);
    }
    if left != [] { SumPositive(MarkedWeights(m.conns, left)); }
  }

  lemma Positive(a: nat, b: nat)
    requires 0 < a && 0 < b
    ensures 0 < a * b
  {
  }

  /** A remote of the service is always chosen, never NULL. While some remote is unhealthy, a remote the talk has failed
      on is chosen only when it has failed on all of them. */
  lemma ChosenIsRight(m: Mgr, remotes: seq<Remote>, failed: seq<Addr>, rand: nat)
    requires Ok(m) && Choosable(m, remotes)
    ensures Choose(m, remotes, failed, rand).Some? && Choose(m, remotes, failed, rand).value in remotes
    ensures m.unhealthy != {} && FailedBefore(Choose(m, remotes, failed, rand).value, failed) ==>
              forall x :: x in remotes ==> FailedBefore(x, failed)
  {
    ChooseReady(m, remotes, failed);
    if m.unhealthy == {} {
      PickSome(Weights(remotes), rand % Sum(Weights(remotes)), 0);
    } else {
      var left := Untried(remotes, failed);
      if left != [] {
        var ws := MarkedWeights(m.conns, left);
        PickSome(ws, rand % Sum(ws), 0);
        var i := Pick(ws, rand % Sum(ws)).value;
        assert left[i] in left;
      } else {
        forall x | x in remotes ensures FailedBefore(x, failed) {
          assert x !in left;
        }
      }
    }
  }

  predicate Distinct(remotes: seq<Remote>) { forall i, j :: 0 <= i < j < |remotes| ==> remotes[i] != remotes[j] }

  lemma {:induction false} UntriedDistinct(remotes: seq<Remote>, failed: seq<Addr>)
    requires Distinct(remotes)
    ensures Distinct(Untried(remotes, failed))
    decreases |remotes|
  {
    if remotes != [] {
      var front, last := remotes[..|remotes| - 1], remotes[|remotes| - 1];
      UntriedDistinct(front, failed);
      assert last !in front;
    }
  }

  /** In a list without repetitions, picking an element is picking its index. */
  lemma AtIndex(remotes: seq<Remote>, i: Option<nat>, k: nat)
    requires Distinct(remotes) && k < |remotes|
    ensures At(remotes, i) == Some(remotes[k]) <==> i == Some(k)
  {
  }

  /** The values below n that make GetRemoteWeight_ choose r. */
  ghost function Choosers(m: Mgr, remotes: seq<Remote>, failed: seq<Addr>, n: nat, r: Remote): (xs: set<nat>)
    requires Ok(m) && Choosable(m, remotes)
  {
    set x: nat | x < n && Choose(m, remotes, failed, x) == Some(r)
  }

  /** Exact weighted choice while all are healthy: of the values below the total, as many choose a remote as its weight
      says, whether or not the talk has failed on it. */
  lemma ChosenByWeight(m: Mgr, remotes: seq<Remote>, failed: seq<Addr>, k: nat)
    requires Ok(m) && Choosable(m, remotes) && Distinct(remotes) && m.unhealthy == {} && k < |remotes|
    ensures |Choosers(m, remotes, failed, Sum(Weights(remotes)), remotes[k])| == remotes[k].weight
  {
    var ws := Weights(remotes);
    PickedExactly(ws, k);
    forall x: nat | x < Sum(ws) ensures Choose(m, remotes, failed, x) == Some(remotes[k]) <==> Pick(ws, x) == Some(k) {
      SmallMod(x, Sum(ws));
      AtIndex(remotes, Pick(ws, x), k);
    }
    assert Choosers(m, remotes, failed, Sum(ws), remotes[k]) == Pickers(ws, k);
  }

  lemma MarkPicks(m: Mgr, remotes: seq<Remote>, failed: seq<Addr>, k: nat, x: nat)
    requires Ok(m) && Choosable(m, remotes) && m.unhealthy != {} && k < |Untried(remotes, failed)|
    requires Distinct(Untried(remotes, failed))
    requires forall i :: 0 <= i < |Untried(remotes, failed)| ==> Untried(remotes, failed)[i].addr in m.conns
    requires x < Sum(MarkedWeights(m.conns, Untried(remotes, failed)))
    ensures Choose(m, remotes, failed, x) == Some(Untried(remotes, failed)[k]) <==>
            Pick(MarkedWeights(m.conns, Untried(remotes, failed)), x) == Some(k)
  {
    var left := Untried(remotes, failed);
    var ws := MarkedWeights(m.conns, left);
    SmallMod(x, Sum(ws));
    AtIndex(left, Pick(ws, x), k);
  }

  /** Exact weighted choice while something is unhealthy: of the values below the total of the remotes the talk has not
      failed on, as many choose one of them as its weight times its health mark. */
  lemma ChosenByMark(m: Mgr, remotes: seq<Remote>, failed: seq<Addr>, k: nat)
    requires Ok(m) && Choosable(m, remotes) && Distinct(remotes) && m.unhealthy != {} && k < |Untried(remotes, failed)|
    ensures var left := Untried(remotes, failed);
            (forall i :: 0 <= i < |left| ==> left[i].addr in m.conns) &&
            |Choosers(m, remotes, failed, Sum(MarkedWeights(m.conns, left)), left[k])| ==
            left[k].weight * m.conns[left[k].addr]
  {
    ChooseReady(m, remotes, failed);
    var left := Untried(remotes, failed);
    var ws := MarkedWeights(m.conns, left);
    PickedExactly(ws, k);
    MarkChoosers(m, remotes, failed, k, left, ws);
  }

  lemma MarkChoosers(m: Mgr, remotes: seq<Remote>, failed: seq<Addr>, k: nat, left: seq<Remote>, ws: seq<nat>)
    requires Ok(m) && Choosable(m, remotes) && Distinct(remotes) && m.unhealthy != {}
    requires left == Untried(remotes, failed) && k < |left| && forall i :: 0 <= i < |left| ==> left[i].addr in m.conns
    requires ws == MarkedWeights(m.conns, left)
    ensures Choosers(m, remotes, failed, Sum(ws), left[k]) == Pickers(ws, k)
  {
    UntriedDistinct(remotes, failed);
    forall x: nat | x < Sum(ws) ensures Choose(m, remotes, failed, x) == Some(left[k]) <==> Pick(ws, x) == Some(k) {
      MarkPicks(m, remotes, failed, k, x);
    }
  }

  lemma {:induction false} UntriedNone(remotes: seq<Remote>, failed: seq<Addr>)
    requires forall x :: x in remotes ==> FailedBefore(x, failed)
    ensures Untried(remotes, failed) == []
    decreases |remotes|
  {
    if remotes != [] {
      assert remotes[|remotes| - 1] in remotes;
      UntriedNone(remotes[..|remotes| - 1], failed);
    }
  }

  /** When the talk has failed on all remotes, weights do not count: each is chosen for one of as many values. */
  lemma ChosenAlike(m: Mgr, remotes: seq<Remote>, failed: seq<Addr>, k: nat)
    requires Ok(m) && Choosable(m, remotes) && Distinct(remotes) && m.unhealthy != {} && k < |remotes|
    requires forall x :: x in remotes ==> FailedBefore(x, failed)
    ensures Choosers(m, remotes, failed, |remotes|, remotes[k]) == {k}
  {
    UntriedNone(remotes, failed);
    forall x: nat | x < |remotes| ensures Choose(m, remotes, failed, x) == Some(remotes[k]) <==> x == k {
      SmallMod(x, |remotes|);
    }
  }

  /** Avoids: whatever rand_r returns, no remote the talk has failed on is chosen. */
  ghost predicate Avoids(m: Mgr, remotes: seq<Remote>, failed: seq<Addr>)
    requires Ok(m) && Choosable(m, remotes)
  {
    forall rand: nat :: Choose(m, remotes, failed, rand).Some? ==>
      !FailedBefore(Choose(m, remotes, failed, rand).value, failed)
  }

  /** With an untried remote in the service, failed remotes are avoided exactly when some configured remote is unhealthy
      (or the talk has not failed on any remote of the service). */
  lemma AvoidsExactly(m: Mgr, remotes: seq<Remote>, failed: seq<Addr>)
    requires Ok(m) && Choosable(m, remotes) && exists x :: x in remotes && !FailedBefore(x, failed)
    ensures Avoids(m, remotes, failed) <==> m.unhealthy != {} || forall x :: x in remotes ==> !FailedBefore(x, failed)
  {
    var good :| good in remotes && !FailedBefore(good, failed);
    if m.unhealthy != {} || forall x :: x in remotes ==> !FailedBefore(x, failed) {
      forall rand: nat | Choose(m, remotes, failed, rand).Some?
        ensures !FailedBefore(Choose(m, remotes, failed, rand).value, failed)
      {
        ChosenIsRight(m, remotes, failed, rand);
      }
    } else {
      var k :| 0 <= k < |remotes| && FailedBefore(remotes[k], failed);
      var rand := AnyoneChosen(m, remotes, failed, k);
      assert Choose(m, remotes, failed, rand) == Some(remotes[k]);
    }
  }

  /** While all are healthy, every remote of the service is chosen for some random value, failed on or not. */
  lemma AnyoneChosen(m: Mgr, remotes: seq<Remote>, failed: seq<Addr>, k: nat) returns (rand: nat)
    requires Ok(m) && Choosable(m, remotes) && m.unhealthy == {} && k < |remotes|
    ensures Choose(m, remotes, failed, rand) == Some(remotes[k])
  {
    var ws := Weights(remotes);
    rand := Sum(ws[..k]);
    SumStep(ws, k);
    SumMonotone(ws, k + 1, |ws|);
    assert ws[..|ws|] == ws;
    PickIs(ws, rand, k);
    SmallMod(rand, Sum(ws));
  }

  lemma SmallMod(a: nat, n: nat)
    requires a < n
    ensures a % n == a
  {
  }

  /** A failed attempt on a configured remote is reported before the retry chooses, so the retry keeps away from every
      remote its talk has failed on while an untried one is left. */
  lemma RetryAvoidsFailed(m: Mgr, a: Addr, remotes: seq<Remote>, failed: seq<Addr>)
    requires Ok(m) && Choosable(Report(m, a, false), remotes) && a in m.conns
    requires exists x :: x in remotes && !FailedBefore(x, failed + [a])
    ensures Ok(Report(m, a, false)) && a in Report(m, a, false).unhealthy
    ensures Avoids(Report(m, a, false), remotes, failed + [a])
  {
    ApplyOk(m, DoReport(a, false));
    var r := Report(m, a, false);
    assert a in r.conns && r.conns[a] != FULL_MARK;
    assert a in r.unhealthy;
    AvoidsExactly(r, remotes, failed + [a]);
  }
}
