/** EventsDriver: the table from descriptors to registered contexts, and the heap of their timers.
    epoll_ctl is foreign: whether it succeeds is a parameter of each call, and so is the clock. */
module Events {
  import opened Options
  import opened Heap

  /** EventTimeo */
  datatype Timer = Timer(expire: int, fd: nat)

  /** One row of fd_to_event_ctx_. A sign of 0 means the descriptor has no timer. */
  datatype Row = Row(context: Option<Context>, sign: nat)

  /** A registered context, named by its address. */
  type Context = nat

  datatype Op = AddEvent | ModEvent

  const ByExpiry: Order<Timer> := Order(true, (t: Timer) => t.expire)

  /** A row with a sign names a heap node that carries its descriptor. */
  predicate RowOk(table: seq<Row>, heap: map<nat, Timer>, fd: nat)
    requires fd < |table|
  {
    table[fd].sign != 0 ==> table[fd].sign in heap && heap[table[fd].sign].fd == fd
  }

  /** A heap node is named by the row of the descriptor it carries. */
  predicate NodeOk(table: seq<Row>, heap: map<nat, Timer>, h: nat)
    requires h in heap
  {
    h != 0 && heap[h].fd < |table| && table[heap[h].fd].sign == h
  }

  ghost predicate Agree(table: seq<Row>, heap: map<nat, Timer>) {
    (forall fd :: 0 <= fd < |table| ==> RowOk(table, heap, fd)) &&
    (forall h {:trigger NodeOk(table, heap, h)} :: h in heap ==> NodeOk(table, heap, h))
  }

  function ExpiryOf(heap: map<nat, Timer>, sign: nat): (t: int) {
    if sign in heap then heap[sign].expire else 0
  }

  /** Descriptor to expiry, for the descriptors with a timer. */
  ghost function TimersOf(table: seq<Row>, heap: map<nat, Timer>): (m: map<nat, int>) {
    map fd | 0 <= fd < |table| && table[fd].sign != 0 :: ExpiryOf(heap, table[fd].sign)
  }

  ghost function ContextsOf(table: seq<Row>): (m: map<nat, Context>) {
    map fd | 0 <= fd < |table| && table[fd].context.Some? :: table[fd].context.value
  }

  /** A descriptor has a timer exactly when a heap node carries it, and then exactly one does. */
  lemma OneNodePerTimer(table: seq<Row>, heap: map<nat, Timer>, fd: nat)
    requires Agree(table, heap)
    ensures fd in TimersOf(table, heap) <==> exists h :: h in heap && heap[h].fd == fd
    ensures forall h, k :: h in heap && k in heap && heap[h].fd == fd && heap[k].fd == fd ==> h == k
    ensures forall h :: h in heap && heap[h].fd == fd ==> TimersOf(table, heap)[fd] == heap[h].expire
  {
    forall h | h in heap && heap[h].fd == fd ensures fd < |table| && table[fd].sign == h != 0 {
      assert NodeOk(table, heap, h);
    }
    if fd < |table| { assert RowOk(table, heap, fd); }
  }

  // ---------------------------------------------------------------- changes of table and heap

  function SetSign(table: seq<Row>, fd: nat, sign: nat): (r: seq<Row>)
    requires fd < |table|
  {
    table[fd := table[fd].(sign := sign)]
  }

  /** A timer entered under a new handle, or an old one given a new expiry. */
  lemma TimerSet(table: seq<Row>, heap: map<nat, Timer>, fd: nat, sign: nat, expire: int)
    requires Agree(table, heap) && fd < |table| && sign != 0
    requires table[fd].sign == sign || (table[fd].sign == 0 && sign !in heap)
    ensures Agree(SetSign(table, fd, sign), heap[sign := Timer(expire, fd)])
    ensures TimersOf(SetSign(table, fd, sign), heap[sign := Timer(expire, fd)]) == TimersOf(table, heap)[fd := expire]
  {
    var table', heap' := SetSign(table, fd, sign), heap[sign := Timer(expire, fd)];
    assert RowOk(table, heap, fd);
    forall f | 0 <= f < |table|
      ensures RowOk(table', heap', f) && (f != fd ==> table[f].sign == 0 || table[f].sign != sign)
    {
      assert RowOk(table, heap, f);
    }
    forall h | h in heap' ensures NodeOk(table', heap', h) {
      if h != sign { assert NodeOk(table, heap, h); }
    }
  }

  lemma TimerErased(table: seq<Row>, heap: map<nat, Timer>, fd: nat)
    requires Agree(table, heap) && fd < |table|
    ensures var heap' := if table[fd].sign == 0 then heap else heap - {table[fd].sign};
            Agree(SetSign(table, fd, 0), heap') &&
            TimersOf(SetSign(table, fd, 0), heap') == TimersOf(table, heap) - {fd}
  {
    var table' := SetSign(table, fd, 0);
    var heap' := if table[fd].sign == 0 then heap else heap - {table[fd].sign};
    assert RowOk(table, heap, fd);
    forall f | 0 <= f < |table|
      ensures RowOk(table', heap', f) && (f != fd ==> table[f].sign == 0 || table[f].sign != table[fd].sign)
    {
      assert RowOk(table, heap, f);
    }
    forall h | h in heap' ensures NodeOk(table', heap', h) {
      assert NodeOk(table, heap, h);
    }
  }

  /** Rows change their contexts, and empty rows are added; signs stay. */
  lemma SignsKept(table: seq<Row>, table': seq<Row>, heap: map<nat, Timer>)
    requires Agree(table, heap) && |table| <= |table'|
    requires forall i :: 0 <= i < |table| ==> table'[i].sign == table[i].sign
    requires forall i :: |table| <= i < |table'| ==> table'[i].sign == 0
    ensures Agree(table', heap) && TimersOf(table', heap) == TimersOf(table, heap)
  {
    forall f | 0 <= f < |table'| ensures RowOk(table', heap, f) {
      if f < |table| { assert RowOk(table, heap, f); }
    }
    forall h | h in heap ensures NodeOk(table', heap, h) {
      assert NodeOk(table, heap, h);
    }
  }

  // ---------------------------------------------------------------- the order of expiry

  ghost predicate InExpiryOrder(fds: seq<nat>, timers: map<nat, int>) {
    (forall i :: 0 <= i < |fds| ==> fds[i] in timers) &&
    (forall i, j :: 0 <= i < j < |fds| ==> fds[i] != fds[j] && timers[fds[i]] <= timers[fds[j]])
  }

  /** The contexts of the descriptors listed, in that order, skipping rows without one. */
  ghost function ContextsIn(fds: seq<nat>, contexts: map<nat, Context>): (cs: seq<Context>) {
    if fds == [] then []
    else
      var last := fds[|fds| - 1];
      var front := ContextsIn(fds[..|fds| - 1], contexts);
      if last in contexts then front + [contexts[last]] else front
  }

  ghost function Expired(timers: map<nat, int>, now: int): (s: set<nat>) {
    set fd | fd in timers && timers[fd] < now
  }

  ghost predicate NoneBefore(timers: map<nat, int>, now: int) { forall fd :: fd in timers ==> now <= timers[fd] }

  // ---------------------------------------------------------------- the class

  class EventsDriver {
    const heapTimeo: HeapBase<Timer>
    var fdToEventCtx: seq<Row>

    ghost predicate Valid()
      reads this, heapTimeo
    {
      heapTimeo.Valid() && heapTimeo.ord == ByExpiry && Agree(fdToEventCtx, heapTimeo.Contents())
    }

    ghost function Timers(): (m: map<nat, int>)
      requires Valid()
      reads this, heapTimeo
    {
      TimersOf(fdToEventCtx, heapTimeo.Contents())
    }

    ghost function Contexts(): (m: map<nat, Context>)
      reads this
    {
      ContextsOf(fdToEventCtx)
    }

    constructor ()
      ensures Valid() && fresh(heapTimeo) && Timers() == map[] && Contexts() == map[]
    {
      heapTimeo := new HeapBase<Timer>(ByExpiry, 1024, Timer(0, 0));
      fdToEventCtx := [];
    }

    /** Registers a descriptor, or re-arms a registered one. A descriptor is added only when it has no timer. */
    method RegEvent(fd: nat, op: Op, context: Context, timeoMs: int, now: int, epollOk: bool, delOk: bool)
      returns (ok: bool)
      requires Valid() && (op.AddEvent? ==> fd !in Timers())
      modifies this, heapTimeo
      ensures Valid() && ok == epollOk
      ensures Timers() == if !ok then old(Timers()) - {fd}
                          else if timeoMs >= 0 then old(Timers())[fd := now + timeoMs] else old(Timers())
      ensures var during := if op.AddEvent? then old(Contexts())[fd := context] else old(Contexts());
              Contexts() == if ok || !delOk then during else during - {fd}
    {
      Enter(fd, op, context, timeoMs, now);
      ok := epollOk;
      if !ok {
        var _ := RegEventDel(fd, delOk);
      }
    }

    /** The table and the heap as they are when epoll is asked. */
    method Enter(fd: nat, op: Op, context: Context, timeoMs: int, now: int)
      requires Valid() && (op.AddEvent? ==> fd !in Timers())
      modifies this, heapTimeo
      ensures Valid() && fd < |fdToEventCtx|
      ensures Timers() == if timeoMs >= 0 then old(Timers())[fd := now + timeoMs] else old(Timers())
      ensures Contexts() == if op.AddEvent? then old(Contexts())[fd := context] else old(Contexts())
    {
      Grow(fd);
      if op.AddEvent? {
        SetContext(fd, Some(context));
      }
      if timeoMs >= 0 {
        Arm(fd, now + timeoMs);
      }
    }

    /** Gives the descriptor a timer, or its timer a new expiry. */
    method Arm(fd: nat, expire: int)
      requires Valid() && fd < |fdToEventCtx|
      modifies this, heapTimeo
      ensures Valid() && |fdToEventCtx| == old(|fdToEventCtx|)
      ensures Timers() == old(Timers())[fd := expire] && Contexts() == old(Contexts())
    {
      ghost var table, heap := fdToEventCtx, heapTimeo.Contents();
      var sign := fdToEventCtx[fd].sign;
      assert RowOk(table, heap, fd);
      if sign != 0 {
        heapTimeo.Update(sign, Timer(expire, fd));
      } else {
        sign := heapTimeo.Insert(Timer(expire, fd));
      }
      TimerSet(table, heap, fd, sign, expire);
      fdToEventCtx := SetSign(fdToEventCtx, fd, sign);
    }

    method SetContext(fd: nat, c: Option<Context>)
      requires Valid() && fd < |fdToEventCtx|
      modifies this
      ensures Valid() && |fdToEventCtx| == old(|fdToEventCtx|) && Timers() == old(Timers())
      ensures Contexts() == if c.Some? then old(Contexts())[fd := c.value] else old(Contexts()) - {fd}
    {
      ghost var table := fdToEventCtx;
      fdToEventCtx := fdToEventCtx[fd := fdToEventCtx[fd].(context := c)];
      SignsKept(table, fdToEventCtx, heapTimeo.Contents());
    }

    method Grow(fd: nat)
      requires Valid()
      modifies this
      ensures Valid() && fd < |fdToEventCtx| && Timers() == old(Timers()) && Contexts() == old(Contexts())
      ensures heapTimeo.Contents() == old(heapTimeo.Contents())
    {
      if fd >= |fdToEventCtx| {
        ghost var table := fdToEventCtx;
        fdToEventCtx := fdToEventCtx + seq(fd + 1 - |fdToEventCtx|, _ => Row(None, 0));
        SignsKept(table, fdToEventCtx, heapTimeo.Contents());
      }
    }

    method RegEventDel(fd: nat, epollOk: bool) returns (ok: bool)
      requires Valid() && fd < |fdToEventCtx|
      modifies this, heapTimeo
      ensures Valid() && ok == epollOk && |fdToEventCtx| == old(|fdToEventCtx|)
      ensures Timers() == old(Timers()) - {fd}
      ensures Contexts() == if ok then old(Contexts()) - {fd} else old(Contexts())
    {
      Disarm(fd);
      ok := epollOk;
      if ok {
        SetContext(fd, None);
      }
    }

    method Disarm(fd: nat)
      requires Valid() && fd < |fdToEventCtx|
      modifies this, heapTimeo
      ensures Valid() && |fdToEventCtx| == old(|fdToEventCtx|)
      ensures Timers() == old(Timers()) - {fd} && Contexts() == old(Contexts())
    {
      ghost var table, heap := fdToEventCtx, heapTimeo.Contents();
      var sign := fdToEventCtx[fd].sign;
      assert RowOk(table, heap, fd);
      if sign != 0 {
        heapTimeo.Erase(sign);
      }
      assert heapTimeo.Contents() == if sign == 0 then heap else heap - {sign};
      TimerErased(table, heap, fd);
      fdToEventCtx := SetSign(fdToEventCtx, fd, 0);
    }

    /** Takes out every timer that expired before now: once each, earliest first, and no other. `stuck` are the
        descriptors whose epoll deletion fails; they lose their timer all the same. */
    method RemoveTimeouts(now: int, stuck: set<nat>) returns (contexts: seq<Context>, ghost fds: seq<nat>)
      requires Valid()
      modifies this, heapTimeo
      ensures Valid()
      ensures InExpiryOrder(fds, old(Timers())) && Gone(fds) == Expired(old(Timers()), now)
      ensures contexts == ContextsIn(fds, old(Contexts()))
      ensures Timers() == old(Timers()) - Expired(old(Timers()), now)
      ensures Contexts() == old(Contexts()) - (Expired(old(Timers()), now) - stuck)
    {
      ghost var timers0, contexts0 := Timers(), Contexts();
      contexts, fds := RemoveWhileExpired(now, stuck);
      RemovedAll(timers0, contexts0, now, stuck, fds, Timers(), Contexts(), contexts);
    }

    /** The loop. */
    method RemoveWhileExpired(now: int, stuck: set<nat>) returns (contexts: seq<Context>, ghost fds: seq<nat>)
      requires Valid()
      modifies this, heapTimeo
      ensures Valid() && NoneBefore(Timers(), now)
      ensures Removed(old(Timers()), old(Contexts()), now, stuck, fds, Timers(), Contexts(), contexts)
    {
      ghost var timers0, contexts0 := Timers(), Contexts();
      contexts, fds := [], [];
      RemovedNone(timers0, contexts0, now, stuck);
      var more := true;
      while more
        invariant Valid()
        invariant Removed(timers0, contexts0, now, stuck, fds, Timers(), Contexts(), contexts)
        invariant !more ==> NoneBefore(Timers(), now)
        decreases more, |Timers()|
      {
        more, contexts, fds := RemoveNext(now, stuck, contexts, fds, timers0, contexts0);
      }
    }

    /** Takes out the earliest timer, if it has expired, and adds its context to those found so far. */
    method RemoveNext(now: int, stuck: set<nat>, contexts: seq<Context>, ghost fds: seq<nat>,
                      ghost timers0: map<nat, int>, ghost contexts0: map<nat, Context>)
      returns (more: bool, contexts': seq<Context>, ghost fds': seq<nat>)
      requires Valid() && Removed(timers0, contexts0, now, stuck, fds, Timers(), Contexts(), contexts)
      modifies this, heapTimeo
      ensures Valid() && Removed(timers0, contexts0, now, stuck, fds', Timers(), Contexts(), contexts')
      ensures if more then |Timers()| < |old(Timers())| else NoneBefore(Timers(), now)
    {
      ghost var timers, rest := Timers(), Contexts();
      var fd, context := RemoveEarliest(now, stuck);
      more, contexts', fds' := fd.Some?, contexts, fds;
      if more {
        RemovedOne(timers0, contexts0, now, stuck, fds, timers, rest, contexts, fd.value);
        if context.Some? {
          contexts' := contexts + [context.value];
        }
        fds' := fds + [fd.value];
        Smaller(timers, fd.value);
      }
    }

    /** One round of the removal loop. */
    method RemoveEarliest(now: int, stuck: set<nat>) returns (fd: Option<nat>, context: Option<Context>)
      requires Valid()
      modifies this, heapTimeo
      ensures Valid()
      ensures fd.None? ==> Timers() == old(Timers()) && Contexts() == old(Contexts()) &&
                           NoneBefore(Timers(), now)
      ensures fd.Some? ==> fd.value in old(Timers()) && old(Timers())[fd.value] < now
      ensures fd.Some? ==> forall g :: g in old(Timers()) ==> old(Timers())[fd.value] <= old(Timers())[g]
      ensures fd.Some? ==> Timers() == old(Timers()) - {fd.value} &&
                           Contexts() == if fd.value in stuck then old(Contexts()) else old(Contexts()) - {fd.value}
      ensures fd.Some? ==> context == if fd.value in old(Contexts()) then Some(old(Contexts())[fd.value]) else None
    {
      var top := heapTimeo.Top();
      if top.None? || top.value.expire >= now {
        AllLate(fdToEventCtx, heapTimeo.Contents(), now);
        return None, None;
      }
      TopTimer(fdToEventCtx, heapTimeo.Contents(), heapTimeo.heapItems[1]);
      fd := Some(top.value.fd);
      context := fdToEventCtx[fd.value].context;
      var _ := RegEventDel(fd.value, fd.value !in stuck);
    }
  }

  lemma Smaller(m: map<nat, int>, k: nat)
    requires k in m
    ensures |m - {k}| < |m|
  {
    assert (m - {k}).Keys == m.Keys - {k};
    assert |m.Keys - {k}| == |m.Keys| - 1;
    assert |m| == |m.Keys| && |m - {k}| == |(m - {k}).Keys|;
  }

  // ---------------------------------------------------------------- the removal loop, on maps

  ghost function Gone(fds: seq<nat>): (s: set<nat>) { set fd | fd in fds }

  /** Part way through the removal: `fds` have been taken out, `left` and `rest` are what the driver still has. */
  ghost predicate Removed(timers: map<nat, int>, contexts: map<nat, Context>, now: int, stuck: set<nat>,
                          fds: seq<nat>, left: map<nat, int>, rest: map<nat, Context>, out: seq<Context>)
  {
    InExpiryOrder(fds, timers) && Earlier(timers, fds, left, now) &&
    left == timers - Gone(fds) && rest == contexts - (Gone(fds) - stuck) && out == ContextsIn(fds, contexts)
  }

  /** What was taken out expired before now, and no later than what is left. */
  ghost predicate Earlier(timers: map<nat, int>, fds: seq<nat>, left: map<nat, int>, now: int)
    requires InExpiryOrder(fds, timers)
  {
    (forall i :: 0 <= i < |fds| ==> timers[fds[i]] < now) &&
    (forall i, g :: 0 <= i < |fds| && g in left ==> timers[fds[i]] <= left[g])
  }

  lemma GoneGrows(fds: seq<nat>, fd: nat)
    ensures Gone(fds + [fd]) == Gone(fds) + {fd}
  {
  }

  lemma OrderGrows(timers: map<nat, int>, fds: seq<nat>, left: map<nat, int>, now: int, fd: nat)
    requires InExpiryOrder(fds, timers) && Earlier(timers, fds, left, now) && left == timers - Gone(fds)
    requires fd in left && left[fd] < now && forall g :: g in left ==> left[fd] <= left[g]
    ensures InExpiryOrder(fds + [fd], timers) && Earlier(timers, fds + [fd], left - {fd}, now)
  {
    assert fd !in fds && timers[fd] == left[fd];
  }

  lemma ContextsInGrows(fds: seq<nat>, contexts: map<nat, Context>, fd: nat)
    ensures ContextsIn(fds + [fd], contexts) ==
            if fd in contexts then ContextsIn(fds, contexts) + [contexts[fd]] else ContextsIn(fds, contexts)
  {
    assert (fds + [fd])[..|fds|] == fds;
  }

  lemma RemovedOne(timers: map<nat, int>, contexts: map<nat, Context>, now: int, stuck: set<nat>,
                   fds: seq<nat>, left: map<nat, int>, rest: map<nat, Context>, out: seq<Context>, fd: nat)
    requires Removed(timers, contexts, now, stuck, fds, left, rest, out)
    requires fd in left && left[fd] < now && forall g :: g in left ==> left[fd] <= left[g]
    ensures Removed(timers, contexts, now, stuck, fds + [fd], left - {fd}, if fd in stuck then rest else rest - {fd},
                    if fd in rest then out + [rest[fd]] else out)
  {
    GoneGrows(fds, fd);
    OrderGrows(timers, fds, left, now, fd);
    ContextsInGrows(fds, contexts, fd);
    TakeOne(timers, Gone(fds), fd);
    RestShrinks(contexts, Gone(fds), stuck, fd);
  }

  lemma TakeOne<V>(m: map<nat, V>, gone: set<nat>, fd: nat)
    ensures m - gone - {fd} == m - (gone + {fd})
  {
  }

  lemma RestShrinks(contexts: map<nat, Context>, gone: set<nat>, stuck: set<nat>, fd: nat)
    ensures var rest := contexts - (gone - stuck);
            (if fd in stuck then rest else rest - {fd}) == contexts - (gone + {fd} - stuck)
  {
    if fd in stuck {
      assert gone + {fd} - stuck == gone - stuck;
    } else {
      assert gone + {fd} - stuck == gone - stuck + {fd};
      TakeOne(contexts, gone - stuck, fd);
    }
  }

  lemma RemovedNone(timers: map<nat, int>, contexts: map<nat, Context>, now: int, stuck: set<nat>)
    ensures Removed(timers, contexts, now, stuck, [], timers, contexts, [])
  {
    assert Gone([]) == {};
  }

  lemma RemovedAll(timers: map<nat, int>, contexts: map<nat, Context>, now: int, stuck: set<nat>,
                   fds: seq<nat>, left: map<nat, int>, rest: map<nat, Context>, out: seq<Context>)
    requires Removed(timers, contexts, now, stuck, fds, left, rest, out)
    requires NoneBefore(left, now)
    ensures InExpiryOrder(fds, timers) && Gone(fds) == Expired(timers, now) && out == ContextsIn(fds, contexts)
    ensures left == timers - Expired(timers, now) && rest == contexts - (Expired(timers, now) - stuck)
  {
    forall fd ensures fd in fds <==> fd in Expired(timers, now) {
      if fd in timers && fd !in fds { assert fd in left && left[fd] == timers[fd]; }
    }
  }

  /** The top of the heap is the timer of its descriptor, and no timer expires earlier. */
  lemma TopTimer(table: seq<Row>, heap: map<nat, Timer>, h: nat)
    requires Agree(table, heap) && h in heap && forall k :: k in heap ==> heap[h].expire <= heap[k].expire
    ensures heap[h].fd in TimersOf(table, heap) && TimersOf(table, heap)[heap[h].fd] == heap[h].expire
    ensures forall g :: g in TimersOf(table, heap) ==> heap[h].expire <= TimersOf(table, heap)[g]
  {
    assert NodeOk(table, heap, h);
    forall g | g in TimersOf(table, heap) ensures heap[h].expire <= TimersOf(table, heap)[g] {
      assert RowOk(table, heap, g);
    }
  }

  lemma AllLate(table: seq<Row>, heap: map<nat, Timer>, now: int)
    requires Agree(table, heap) && forall h :: h in heap ==> now <= heap[h].expire
    ensures NoneBefore(TimersOf(table, heap), now)
  {
    forall g | g in TimersOf(table, heap) ensures now <= TimersOf(table, heap)[g] {
      assert RowOk(table, heap, g);
    }
  }
}
