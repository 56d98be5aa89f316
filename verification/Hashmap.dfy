/** CloseHashmap: open addressing in a fixed array. A key is looked for at its home slot and then by a fixed prime step
    round the array. Erasing leaves a tombstone that keeps its key. */
module Hashmap {
  import opened Options
  import opened Numbers

  /** Item::first of 0, -1 and 1. */
  datatype Slot<K, V> = Free | Dead(key: K) | Used(key: K, val: V)

  /** What does not change: the hash function and the table of steps. */
  datatype Layout<!K> = Layout(hash: K -> nat, primes: seq<nat>) {
    function Home(k: K, n: nat): (p: nat)
      requires 0 < n
      ensures p < n
    {
      hash(k) % n
    }

    /** The step depends on the home slot only. */
    function Step(k: K, n: nat): (s: nat)
      requires 0 < n && 0 < |primes|
    {
      primes[Home(k, n) % |primes|]
    }

    /** The i-th slot the key is looked for in. */
    function At(k: K, n: nat, i: nat): (p: nat)
      requires 0 < n && 0 < |primes|
      ensures p < n
    {
      Probe(Home(k, n), Step(k, n), n, i)
    }
  }

  /** Where a look-up stops: a slot never used, the key itself, or, at the home slot only, the key's tombstone. */
  predicate Stops<K(==), V>(slots: seq<Slot<K, V>>, p: nat, k: K, home: bool)
    requires p < |slots|
  {
    match slots[p]
    case Free => true
    case Dead(key) => home && key == k
    case Used(key, _) => key == k
  }

  /** The loop of GetItem_, from its i-th slot on. */
  function FindFrom<K(==), V>(lay: Layout<K>, slots: seq<Slot<K, V>>, k: K, i: nat): (r: Option<nat>)
    requires 0 < |slots| && 0 < |lay.primes| && i <= |slots|
    ensures r.Some? ==> r.value < |slots|
    decreases |slots| - i
  {
    if i == |slots| then None
    else if Stops(slots, lay.At(k, |slots|, i), k, i == 0) then Some(lay.At(k, |slots|, i))
    else FindFrom(lay, slots, k, i + 1)
  }

  function Find<K(==), V>(lay: Layout<K>, slots: seq<Slot<K, V>>, k: K): (r: Option<nat>)
    requires 0 < |slots| && 0 < |lay.primes|
    ensures r.Some? ==> r.value < |slots|
  {
    FindFrom(lay, slots, k, 0)
  }

  // ---------------------------------------------------------------- the invariant

  /** The key in slot p is i slots into its own search, over slots that have all been used. */
  ghost predicate Reached<K, V>(lay: Layout<K>, slots: seq<Slot<K, V>>, p: nat, i: nat)
    requires 0 < |slots| && 0 < |lay.primes| && p < |slots|
  {
    i < |slots| && !slots[p].Free? && lay.At(slots[p].key, |slots|, i) == p &&
    forall j :: 0 <= j < i ==> !slots[lay.At(slots[p].key, |slots|, j)].Free?
  }

  ghost predicate Findable<K, V>(lay: Layout<K>, slots: seq<Slot<K, V>>, p: nat)
    requires 0 < |slots| && 0 < |lay.primes| && p < |slots|
  {
    slots[p].Used? ==> exists i :: Reached(lay, slots, p, i)
  }

  /** No key is in two slots, and none is in use while its tombstone is at its home. */
  ghost predicate Single<K, V>(lay: Layout<K>, slots: seq<Slot<K, V>>)
    requires 0 < |slots| && 0 < |lay.primes|
  {
    (forall p, q :: 0 <= p < q < |slots| && slots[p].Used? && slots[q].Used? ==> slots[p].key != slots[q].key) &&
    (forall p :: 0 <= p < |slots| && slots[p].Used? ==>
       slots[lay.Home(slots[p].key, |slots|)] != Dead(slots[p].key))
  }

  /** Every step is coprime to the size. */
  ghost predicate Spread<K>(lay: Layout<K>, n: nat) {
    0 < n && 0 < |lay.primes| && forall i :: 0 <= i < |lay.primes| ==> Coprime(lay.primes[i], n)
  }

  ghost predicate Ok<K, V>(lay: Layout<K>, slots: seq<Slot<K, V>>) {
    Spread(lay, |slots|) && Single(lay, slots) && forall p :: 0 <= p < |slots| ==> Findable(lay, slots, p)
  }

  /** m is what the slots in use hold. */
  ghost predicate Holds<K, V>(slots: seq<Slot<K, V>>, m: map<K, V>) {
    (forall p :: 0 <= p < |slots| && slots[p].Used? ==> slots[p].key in m && m[slots[p].key] == slots[p].val) &&
    (forall k :: k in m ==> exists p :: 0 <= p < |slots| && slots[p] == Used(k, m[k]))
  }

  // ---------------------------------------------------------------- look-up

  /** A look-up that stops has passed no stopping slot; one that fails has passed all of its path. */
  lemma {:induction false} FindFromPath<K, V>(lay: Layout<K>, slots: seq<Slot<K, V>>, k: K, i: nat) returns (j: nat)
    requires 0 < |slots| && 0 < |lay.primes| && i <= |slots|
    ensures i <= j <= |slots|
    ensures forall h :: i <= h < j ==> !Stops(slots, lay.At(k, |slots|, h), k, h == 0)
    ensures if j == |slots| then FindFrom(lay, slots, k, i) == None
            else FindFrom(lay, slots, k, i) == Some(lay.At(k, |slots|, j)) &&
                 Stops(slots, lay.At(k, |slots|, j), k, j == 0)
    decreases |slots| - i
  {
    if i == |slots| || Stops(slots, lay.At(k, |slots|, i), k, i == 0) {
      j := i;
    } else {
      j := FindFromPath(lay, slots, k, i + 1);
    }
  }

  /** Look-up is exact: it finds the slot of a key that is in use, despite tombstones, and otherwise ends at a slot that
      is not in use, or nowhere. */
  lemma FindExact<K, V>(lay: Layout<K>, slots: seq<Slot<K, V>>, k: K)
    requires Ok(lay, slots)
    ensures forall p :: 0 <= p < |slots| && slots[p].Used? && slots[p].key == k ==> Find(lay, slots, k) == Some(p)
    ensures var r := Find(lay, slots, k);
            r.Some? ==> r.value < |slots| && (slots[r.value].Used? ==> slots[r.value].key == k) &&
                        (slots[r.value].Dead? ==> slots[r.value].key == k && r.value == lay.Home(k, |slots|))
  {
    var j := FindFromPath(lay, slots, k, 0);
    HomeFirst(lay, k, |slots|);
    forall p | 0 <= p < |slots| && slots[p].Used? && slots[p].key == k ensures Find(lay, slots, k) == Some(p) {
      assert Findable(lay, slots, p);
      var i :| Reached(lay, slots, p, i);
      assert Stops(slots, lay.At(k, |slots|, i), k, i == 0);
      assert j <= i;
      StopIsKey(lay, slots, k, p, i, j);
    }
  }

  lemma HomeFirst<K>(lay: Layout<K>, k: K, n: nat)
    requires 0 < n && 0 < |lay.primes|
    ensures lay.At(k, n, 0) == lay.Home(k, n)
  {
  }

  lemma StopIsKey<K, V>(lay: Layout<K>, slots: seq<Slot<K, V>>, k: K, p: nat, i: nat, j: nat)
    requires Ok(lay, slots) && p < |slots| && slots[p].Used? && slots[p].key == k && Reached(lay, slots, p, i) && j <= i
    requires Stops(slots, lay.At(k, |slots|, j), k, j == 0)
    ensures lay.At(k, |slots|, j) == p
  {
    HomeFirst(lay, k, |slots|);
    var q := lay.At(k, |slots|, j);
    assert j < i ==> !slots[q].Free?;
    assert slots[q].Used? && slots[q].key == k;
  }

  /** When a look-up ends nowhere, no slot is free. */
  lemma NowhereMeansFull<K, V>(lay: Layout<K>, slots: seq<Slot<K, V>>, k: K)
    requires Ok(lay, slots)
    ensures Find(lay, slots, k).None? ==> forall p :: 0 <= p < |slots| ==> !slots[p].Free?
  {
    var j := FindFromPath(lay, slots, k, 0);
    if j == |slots| {
      forall p | 0 <= p < |slots| ensures !slots[p].Free? {
        var home := lay.Home(k, |slots|);
        assert Coprime(lay.primes[home % |lay.primes|], |slots|);
        var i := EverySlotVisited(home, lay.Step(k, |slots|), |slots|, p);
        assert lay.At(k, |slots|, i) == p;
      }
    }
  }

  /** There is room for a key that is not in use: a slot never used, or its own tombstone at its home. */
  ghost predicate Room<K, V>(lay: Layout<K>, slots: seq<Slot<K, V>>, k: K)
    requires 0 < |slots|
  {
    (exists p :: 0 <= p < |slots| && slots[p].Free?) || slots[lay.Home(k, |slots|)] == Dead(k)
  }

  /** Inserting succeeds exactly when the key is not in use and there is room for it. */
  lemma InsertExactly<K, V>(lay: Layout<K>, slots: seq<Slot<K, V>>, k: K)
    requires Ok(lay, slots)
    ensures var r := Find(lay, slots, k);
            (r.Some? && !slots[r.value].Used?) <==>
            (!(exists p :: 0 <= p < |slots| && slots[p].Used? && slots[p].key == k) && Room(lay, slots, k))
  {
    FindExact(lay, slots, k);
    NowhereMeansFull(lay, slots, k);
    var r := Find(lay, slots, k);
    HomeFirst(lay, k, |slots|);
  }

  // ---------------------------------------------------------------- changing a slot

  lemma StillReached<K, V>(lay: Layout<K>, slots: seq<Slot<K, V>>, slots': seq<Slot<K, V>>, p: nat, i: nat)
    requires 0 < |slots| == |slots'| && 0 < |lay.primes| && p < |slots| && Reached(lay, slots, p, i)
    requires !slots'[p].Free? && slots'[p].key == slots[p].key
    requires forall q :: 0 <= q < |slots| && !slots[q].Free? ==> !slots'[q].Free?
    ensures Reached(lay, slots', p, i)
  {
  }

  lemma Inserted<K, V>(lay: Layout<K>, slots: seq<Slot<K, V>>, m: map<K, V>, k: K, v: V)
    requires Ok(lay, slots) && Holds(slots, m)
    requires Find(lay, slots, k).Some? && !slots[Find(lay, slots, k).value].Used?
    ensures k !in m
    ensures var p := Find(lay, slots, k).value;
            Ok(lay, slots[p := Used(k, v)]) && Holds(slots[p := Used(k, v)], m[k := v]) &&
            KeysKept(slots, slots[p := Used(k, v)]) && |m[k := v]| == |m| + 1 &&
            CountUsed(slots[p := Used(k, v)]) == CountUsed(slots) + 1
  {
    CountChanges(slots, Find(lay, slots, k).value, Used(k, v));
    InsertedOk(lay, slots, m, k, v);
    FindExact(lay, slots, k);
  }

  lemma InsertedOk<K, V>(lay: Layout<K>, slots: seq<Slot<K, V>>, m: map<K, V>, k: K, v: V)
    requires Ok(lay, slots) && Holds(slots, m)
    requires Find(lay, slots, k).Some? && !slots[Find(lay, slots, k).value].Used?
    ensures k !in m
    ensures var p := Find(lay, slots, k).value;
            Ok(lay, slots[p := Used(k, v)]) && Holds(slots[p := Used(k, v)], m[k := v])
  {
    var j := FindFromPath(lay, slots, k, 0);
    var p := Find(lay, slots, k).value;
    FindExact(lay, slots, k);
    HomeFirst(lay, k, |slots|);
    var slots' := slots[p := Used(k, v)];
    assert k !in m;
    assert Reached(lay, slots', p, j);
    forall q | 0 <= q < |slots'| ensures Findable(lay, slots', q) {
      if q != p && slots[q].Used? {
        assert Findable(lay, slots, q);
        var i :| Reached(lay, slots, q, i);
        StillReached(lay, slots, slots', q, i);
      }
    }
    InsertedHolds(slots, m, p, k, v);
  }

  lemma InsertedHolds<K, V>(slots: seq<Slot<K, V>>, m: map<K, V>, p: nat, k: K, v: V)
    requires Holds(slots, m) && p < |slots| && !slots[p].Used? && k !in m
    ensures Holds(slots[p := Used(k, v)], m[k := v])
  {
    var slots' := slots[p := Used(k, v)];
    var m' := m[k := v];
    forall x | x in m' ensures exists q :: 0 <= q < |slots'| && slots'[q] == Used(x, m'[x]) {
      if x == k {
        assert slots'[p] == Used(k, v);
      } else {
        var q :| 0 <= q < |slots| && slots[q] == Used(x, m[x]);
        assert slots'[q] == Used(x, m[x]);
      }
    }
  }

  lemma Erased<K, V>(lay: Layout<K>, slots: seq<Slot<K, V>>, m: map<K, V>, p: nat)
    requires Ok(lay, slots) && Holds(slots, m) && p < |slots| && slots[p].Used?
    ensures var k := slots[p].key;
            k in m && Ok(lay, slots[p := Dead(k)]) && Holds(slots[p := Dead(k)], m - {k}) &&
            KeysKept(slots, slots[p := Dead(k)])
  {
    var k := slots[p].key;
    var slots' := slots[p := Dead(k)];
    forall q | 0 <= q < |slots'| ensures Findable(lay, slots', q) {
      if q != p && slots[q].Used? {
        assert Findable(lay, slots, q);
        var i :| Reached(lay, slots, q, i);
        StillReached(lay, slots, slots', q, i);
      }
    }
    forall x | x in m - {k} ensures exists q :: 0 <= q < |slots'| && slots'[q] == Used(x, m[x]) {
      var q :| 0 <= q < |slots| && slots[q] == Used(x, m[x]);
      assert slots'[q] == Used(x, m[x]);
    }
  }

  /** A slot that has been used never changes its key. */
  ghost predicate KeysKept<K, V>(a: seq<Slot<K, V>>, b: seq<Slot<K, V>>) {
    |a| == |b| && forall p :: 0 <= p < |a| && !a[p].Free? ==> !b[p].Free? && b[p].key == a[p].key
  }

  /** Get agrees with the map the slots hold. */
  lemma FindsModel<K, V>(lay: Layout<K>, slots: seq<Slot<K, V>>, m: map<K, V>, k: K)
    requires Ok(lay, slots) && Holds(slots, m)
    ensures var r := Find(lay, slots, k);
            if k in m then r.Some? && slots[r.value] == Used(k, m[k]) else r.None? || !slots[r.value].Used?
  {
    FindExact(lay, slots, k);
    if k in m {
      var p :| 0 <= p < |slots| && slots[p] == Used(k, m[k]);
    }
  }

  lemma ShrinksByOne<K, V>(m: map<K, V>, k: K)
    requires k in m
    ensures |m - {k}| == |m| - 1
  {
    assert (m - {k}).Keys == m.Keys - {k};
    assert |m - {k}| == |(m - {k}).Keys| && |m| == |m.Keys|;
  }

  // ---------------------------------------------------------------- counting

  function Use<K, V>(s: Slot<K, V>): (n: nat) { if s.Used? then 1 else 0 }

  function CountUsed<K, V>(slots: seq<Slot<K, V>>): (n: nat)
    ensures n <= |slots|
  {
    if slots == [] then 0 else CountUsed(slots[..|slots| - 1]) + Use(slots[|slots| - 1])
  }

  lemma {:induction false} CountChanges<K, V>(slots: seq<Slot<K, V>>, p: nat, s: Slot<K, V>)
    requires p < |slots|
    ensures CountUsed(slots[p := s]) == CountUsed(slots) - Use(slots[p]) + Use(s)
  {
    var n := |slots| - 1;
    if p < n {
      CountChanges(slots[..n], p, s);
      assert slots[p := s][..n] == slots[..n][p := s];
    } else {
      assert slots[p := s][..n] == slots[..n];
    }
  }

  lemma {:induction false} AllUsed<K, V>(slots: seq<Slot<K, V>>, p: nat)
    requires CountUsed(slots) == |slots| && p < |slots|
    ensures slots[p].Used?
  {
    if p < |slots| - 1 { AllUsed(slots[..|slots| - 1], p); }
  }

  lemma {:induction false} NoneUsed<K, V>(slots: seq<Slot<K, V>>)
    requires forall p :: 0 <= p < |slots| ==> slots[p].Free?
    ensures CountUsed(slots) == 0
  {
    if slots != [] { NoneUsed(slots[..|slots| - 1]); }
  }

  lemma FreshOk<K, V>(lay: Layout<K>, slots: seq<Slot<K, V>>)
    requires Spread(lay, |slots|) && forall p :: 0 <= p < |slots| ==> slots[p].Free?
    ensures Ok(lay, slots) && Holds(slots, map[]) && CountUsed(slots) == 0
  {
    NoneUsed(slots);
  }

  // ---------------------------------------------------------------- the class

  /** What Insert finds decides as the map and the room do. */
  lemma InsertDecides<K, V>(lay: Layout<K>, slots: seq<Slot<K, V>>, m: map<K, V>, k: K)
    requires Ok(lay, slots) && Holds(slots, m)
    ensures var r := Find(lay, slots, k);
            (r.Some? && !slots[r.value].Used?) <==> k !in m && Room(lay, slots, k)
  {
    InsertExactly(lay, slots, k);
  }

  lemma FullRefuses<K, V>(lay: Layout<K>, slots: seq<Slot<K, V>>, k: K)
    requires Ok(lay, slots) && CountUsed(slots) == |slots|
    ensures var r := Find(lay, slots, k); r.Some? ==> slots[r.value].Used?
  {
    var r := Find(lay, slots, k);
    if r.Some? { AllUsed(slots, r.value); }
  }

  class CloseHashmap<K(==), V> {
    const lay: Layout<K>
    const items: array<Slot<K, V>>
    var numElm: nat
    ghost var model: map<K, V>

    ghost predicate Valid()
      reads this, items
    {
      Ok(lay, items[..]) && Holds(items[..], model) && numElm == |model| == CountUsed(items[..])
    }

    constructor (lay: Layout<K>, size: nat)
      requires Spread(lay, size)
      ensures Valid() && fresh(items) && model == map[] && items.Length == size && this.lay == lay
    {
      this.lay := lay;
      items := new Slot<K, V>[size](_ => Free);
      numElm := 0;
      model := map[];
      new;
      FreshOk(lay, items[..]);
    }

    /** Refuses exactly the sizes that one of the steps divides. */
    static method Init(lay: Layout<K>, size: nat) returns (h: CloseHashmap?<K, V>)
      requires 0 < |lay.primes| && forall i :: 0 <= i < |lay.primes| ==> IsPrime(lay.primes[i])
      ensures h == null <==> exists i :: 0 <= i < |lay.primes| && Divides(lay.primes[i], size)
      ensures h != null ==> h.Valid() && fresh(h) && fresh(h.items) && h.model == map[]
      ensures h != null ==> h.items.Length == size && h.lay == lay
    {
      var i := 0;
      while i < |lay.primes|
        invariant 0 <= i <= |lay.primes|
        invariant forall j :: 0 <= j < i ==> !Divides(lay.primes[j], size)
      {
        if size % lay.primes[i] == 0 {
          assert Divides(lay.primes[i], size);
          return null;
        }
        i := i + 1;
      }
      forall j | 0 <= j < |lay.primes| ensures Coprime(lay.primes[j], size) {
        assert !Divides(lay.primes[j], size);
        PrimeCoprime(lay.primes[j], size);
      }
      assert !Divides(lay.primes[0], size);
      h := new CloseHashmap<K, V>(lay, size);
    }

    method GetItem(key: K) returns (r: Option<nat>)
      requires 0 < items.Length && 0 < |lay.primes|
      ensures r == Find(lay, items[..], key)
    {
      var n := items.Length;
      ghost var slots := items[..];
      var pos := lay.hash(key) % n;
      HomeFirst(lay, key, n);
      match items[pos] {
        case Free => return Some(pos);
        case Dead(k) => if key == k { return Some(pos); }
        case Used(k, _) => if key == k { return Some(pos); }
      }
      var step := lay.primes[pos % |lay.primes|];
      var i := 0;
      while i < n - 1
        invariant 0 <= i <= n - 1 && pos == lay.At(key, n, i)
        invariant Find(lay, slots, key) == FindFrom(lay, slots, key, i + 1)
      {
        ProbeNext(lay.Home(key, n), step, n, i);
        pos := (pos + step) % n;
        assert pos == lay.At(key, n, i + 1) && items[pos] == slots[pos];
        match items[pos] {
          case Free => return Some(pos);
          case Dead(k) =>
          case Used(k, _) => if key == k { return Some(pos); }
        }
        i := i + 1;
      }
      return None;
    }

    method Get(key: K) returns (r: Option<V>)
      requires Valid()
      ensures r == if key in model then Some(model[key]) else None
    {
      var item := GetItem(key);
      FindsModel(lay, items[..], model, key);
      if item.Some? && items[item.value].Used? {
        return Some(items[item.value].val);
      }
      return None;
    }

    /** Succeeds exactly when the key is new and there is room for it. No slot that has been used changes its key. */
    method Insert(key: K, val: V) returns (ok: bool)
      requires Valid()
      modifies this, items
      ensures Valid()
      ensures ok <==> key !in old(model) && old(Room(lay, items[..], key))
      ensures model == if ok then old(model)[key := val] else old(model)
      ensures KeysKept(old(items[..]), items[..])
    {
      InsertDecides(lay, items[..], model, key);
      if items.Length == numElm {
        FullRefuses(lay, items[..], key);
        return false;
      }
      var item := GetItem(key);
      if item.Some? && !items[item.value].Used? {
        InsertAt(item.value, key, val);
        return true;
      }
      return false;
    }

    method InsertAt(p: nat, key: K, val: V)
      requires Valid() && Find(lay, items[..], key) == Some(p) && !items[p].Used?
      modifies this, items
      ensures Valid() && key !in old(model) && model == old(model)[key := val] && KeysKept(old(items[..]), items[..])
    {
      Inserted(lay, items[..], model, key, val);
      SetSlot(p, Used(key, val));
      numElm := numElm + 1;
      model := model[key := val];
    }

    method SetSlot(p: nat, s: Slot<K, V>)
      requires p < items.Length
      modifies items
      ensures items[..] == old(items[..])[p := s]
    {
      items[p] := s;
    }

    method Erase(key: K) returns (ok: bool)
      requires Valid()
      modifies this, items
      ensures Valid() && (ok <==> key in old(model)) && model == old(model) - {key}
      ensures KeysKept(old(items[..]), items[..])
    {
      var item := GetItem(key);
      FindsModel(lay, items[..], model, key);
      if item.Some? && items[item.value].Used? && items[item.value].key == key {
        EraseAt(item.value);
        return true;
      }
      assert model - {key} == model;
      return false;
    }

    method EraseAt(p: nat)
      requires Valid() && p < items.Length && items[p].Used?
      modifies this, items
      ensures Valid() && model == old(model) - {old(items[p]).key} && KeysKept(old(items[..]), items[..])
    {
      Erased(lay, items[..], model, p);
      ShrinksByOne(model, items[p].key);
      CountChanges(items[..], p, Dead(items[p].key));
      model := model - {items[p].key};
      SetSlot(p, Dead(items[p].key));
      numElm := numElm - 1;
    }

    /** Iterator: the first slot in use from `pos` on, or the capacity. */
    method NextUsed(pos: nat) returns (next: nat)
      requires Valid() && pos <= items.Length
      ensures pos <= next <= items.Length
      ensures forall p :: pos <= p < next ==> !items[p].Used?
      ensures next < items.Length ==>
              items[next].Used? && items[next].key in model && model[items[next].key] == items[next].val
    {
      next := pos;
      while next < items.Length && !items[next].Used?
        invariant pos <= next <= items.Length
        invariant forall p :: pos <= p < next ==> !items[p].Used?
      {
        next := next + 1;
      }
      if next < items.Length { assert items[..][next] == items[next]; }
    }
  }
}
