/** PoolObjsBase: free objects in rows of equal length, filled one row after the other, so that together they are one
    stack. An object is known by the order in which it was made. */
module Pool {
  import opened Options

  // ---------------------------------------------------------------- the rows

  predicate Shaped(rows: seq<seq<nat>>, row: nat, col: nat, per: nat) {
    row <= |rows| && col < per && (0 < col ==> row < |rows|) && forall i :: 0 <= i < |rows| ==> |rows[i]| == per
  }

  /** The first `row` rows, end to end. */
  function Rows(rows: seq<seq<nat>>, row: nat): (s: seq<nat>)
    requires row <= |rows|
  {
    if row == 0 then [] else Rows(rows, row - 1) + rows[row - 1]
  }

  /** The free objects, the next one to hand out last. */
  function StackOf(rows: seq<seq<nat>>, row: nat, col: nat, per: nat): (s: seq<nat>)
    requires Shaped(rows, row, col, per)
  {
    if col == 0 then Rows(rows, row) else Rows(rows, row) + rows[row][..col]
  }

  lemma {:induction false} RowsSame(a: seq<seq<nat>>, b: seq<seq<nat>>, row: nat)
    requires row <= |a| && row <= |b| && forall i :: 0 <= i < row ==> a[i] == b[i]
    ensures Rows(a, row) == Rows(b, row)
  {
    if 0 < row { RowsSame(a, b, row - 1); }
  }

  lemma {:induction false} RowsSize(rows: seq<seq<nat>>, row: nat, per: nat)
    requires row <= |rows| && forall i :: 0 <= i < |rows| ==> |rows[i]| == per
    ensures |Rows(rows, row)| == row * per
  {
    if 0 < row {
      RowsSize(rows, row - 1, per);
      assert row * per == (row - 1) * per + per;
    }
  }

  /** The place below the top: one to the left, or the last of the row before. */
  lemma BelowTop(rows: seq<seq<nat>>, row: nat, col: nat, per: nat)
    requires Shaped(rows, row, col, per) && (row != 0 || col != 0)
    ensures var r, c := if col != 0 then row else row - 1, if col != 0 then col - 1 else per - 1;
            Shaped(rows, r, c, per) && r < |rows| &&
            StackOf(rows, row, col, per) == StackOf(rows, r, c, per) + [rows[r][c]]
  {
    var r, c := if col != 0 then row else row - 1, if col != 0 then col - 1 else per - 1;
    var line: seq<nat> := rows[r];
    assert line[..c + 1] == line[..c] + [line[c]];
    if col == 0 { assert line[..per] == line; }
  }

  /** Only an empty stack has its top at the very start. */
  lemma EmptyAtStart(rows: seq<seq<nat>>, row: nat, col: nat, per: nat)
    requires Shaped(rows, row, col, per)
    ensures StackOf(rows, row, col, per) == [] <==> row == 0 && col == 0
  {
    if row != 0 || col != 0 { BelowTop(rows, row, col, per); }
  }

  /** An object written at the top, which then moves one place on. */
  lemma OnTop(was: seq<seq<nat>>, rows: seq<seq<nat>>, row: nat, col: nat, per: nat, x: nat)
    requires Shaped(was, row, col, per) && Shaped(rows, row, col, per) && row < |rows| && rows[row][col] == x
    requires forall i :: 0 <= i < row ==> was[i] == rows[i]
    requires 0 < col ==> was[row][..col] == rows[row][..col]
    ensures var r, c := if per - 1 != col then row else row + 1, if per - 1 != col then col + 1 else 0;
            Shaped(rows, r, c, per) && StackOf(rows, r, c, per) == StackOf(was, row, col, per) + [x]
  {
    var r, c := if per - 1 != col then row else row + 1, if per - 1 != col then col + 1 else 0;
    BelowTop(rows, r, c, per);
    RowsSame(was, rows, row);
  }

  // ---------------------------------------------------------------- the objects

  /** Free objects are distinct, and none of them is handed out. */
  ghost predicate Sound(stack: seq<nat>, out: set<nat>, made: nat) {
    (forall i, j :: 0 <= i < j < |stack| ==> stack[i] != stack[j]) &&
    (forall i :: 0 <= i < |stack| ==> stack[i] < made && stack[i] !in out) &&
    (forall x :: x in out ==> x < made)
  }

  function NewOnes(made: nat, n: nat): (s: seq<nat>)
    ensures |s| == n && forall i :: 0 <= i < n ==> s[i] == made + i
  {
    seq(n, i requires 0 <= i < n => made + i)
  }

  lemma SoundGrown(stack: seq<nat>, out: set<nat>, made: nat, n: nat)
    requires Sound(stack, out, made)
    ensures Sound(stack + NewOnes(made, n), out, made + n)
  {
  }

  lemma SoundTaken(stack: seq<nat>, x: nat, out: set<nat>, made: nat)
    requires Sound(stack + [x], out, made)
    ensures x !in out && Sound(stack, out + {x}, made)
  {
    var all := stack + [x];
    assert all[|stack|] == x;
    forall i | 0 <= i < |stack| ensures stack[i] < made && stack[i] !in out + {x} { assert all[i] == stack[i]; }
    forall i, j | 0 <= i < j < |stack| ensures stack[i] != stack[j] { assert all[i] != all[j]; }
  }

  lemma SoundBack(stack: seq<nat>, x: nat, out: set<nat>, made: nat)
    requires Sound(stack, out, made) && x in out
    ensures Sound(stack + [x], out - {x}, made) && Sound(stack, out - {x}, made)
  {
  }

  // ---------------------------------------------------------------- the pool

  class PoolObjs {
    const initNum: nat
    const per: nat                    // num_objs_per_block_
    const toResize: bool
    const newIfNoResize: bool
    const maxBlocks: nat
    var rows: seq<seq<nat>>           // pool_objs_, the blocks allocated
    var row: nat
    var col: nat
    var made: nat
    ghost var out: set<nat>           // objects handed out

    ghost predicate Shape()
      reads this
    {
      Shaped(rows, row, col, per) && |rows| <= maxBlocks
    }

    ghost function Stack(): (s: seq<nat>)
      requires Shape()
      reads this
    {
      StackOf(rows, row, col, per)
    }

    ghost predicate Valid()
      reads this
    {
      Shape() && Sound(Stack(), out, made)
    }

    constructor (initNum: nat, per: nat, toResize: bool, newIfNoResize: bool, maxBlocks: nat)
      requires 0 < per
      ensures Valid() && Stack() == [] && out == {} && rows == [] && row == 0 && col == 0 && made == 0
      ensures this.initNum == initNum && this.per == per && this.maxBlocks == maxBlocks
      ensures this.toResize == toResize && this.newIfNoResize == newIfNoResize
    {
      this.initNum, this.per, this.toResize := initNum, per, toResize;
      this.newIfNoResize, this.maxBlocks := newIfNoResize, maxBlocks;
      rows, row, col, made, out := [], 0, 0, 0, {};
    }

    /** A block of new objects, put in row `row`, while the stack ends at the start of that row. */
    method AllocABlock() returns (ok: bool)
      requires Valid() && col == 0
      modifies this`rows, this`row, this`made
      ensures Valid() && ok == (|old(rows)| < maxBlocks)
      ensures !ok ==> rows == old(rows) && row == old(row) && made == old(made)
      ensures ok ==> row == old(row) + 1 && made == old(made) + per && |rows| == |old(rows)| + 1
      ensures ok ==> Stack() == old(Stack()) + NewOnes(old(made), per)
    {
      ok := |rows| < maxBlocks;
      if !ok { return; }
      ghost var was, before := rows, Stack();
      var block := NewOnes(made, per);
      rows := rows + [block];
      rows := rows[row := block];
      row := row + 1;
      RowsSame(was, rows, row - 1);
      assert Stack() == before + block;
      SoundGrown(before, out, made, per);
      made := made + per;
    }

    /** Init_: blocks until there are enough objects, or no more can be had. */
    method Init() returns (ok: bool)
      requires Valid() && rows == [] && row == col == 0
      modifies this`rows, this`row, this`made
      ensures Valid() && col == 0 && row == |rows|
      ensures ok <==> 0 < maxBlocks && initNum <= maxBlocks * per
      ensures ok ==> initNum <= |Stack()| < initNum + per || |Stack()| == initNum == 0
    {
      ok := 0 < maxBlocks;
      while ok && |rows| * per < initNum
        invariant Valid() && row == |rows| && col == 0
        invariant ok ==> 0 < maxBlocks && (rows != [] ==> (|rows| - 1) * per < initNum)
        invariant !ok ==> maxBlocks == 0 || maxBlocks * per < initNum
        decreases ok, maxBlocks - |rows|
      {
        ghost var n := |rows|;
        ok := AllocABlock();
        if ok { assert |rows| - 1 == n; } else { assert n == maxBlocks; }
      }
      RowsSize(rows, row, per);
      assert ok ==> |rows| * per <= maxBlocks * per by { Times(|rows|, maxBlocks, per); }
      assert rows != [] ==> (|rows| - 1) * per + per == |rows| * per;
    }

    /** The top of a stack that is not empty. */
    method Pop() returns (x: nat)
      requires Valid() && (row != 0 || col != 0)
      modifies this`row, this`col, this`out
      ensures Valid() && old(Stack()) == Stack() + [x] && x !in old(out) && out == old(out) + {x}
    {
      BelowTop(rows, row, col, per);
      if col != 0 {
        col := col - 1;
      } else {
        col := per - 1;
        row := row - 1;
      }
      x := rows[row][col];
      SoundTaken(Stack(), x, out, made);
      out := out + {x};
    }

    /** The top of the stack; when it is empty a new object, from a new block if one may be had. */
    method Get() returns (obj: Option<nat>)
      requires Valid()
      modifies this
      ensures Valid()
      ensures obj.None? <==> old(Stack()) == [] && !(toResize && |old(rows)| < maxBlocks) && !newIfNoResize
      ensures obj.None? ==> Stack() == old(Stack()) && out == old(out)
      ensures obj.Some? ==> obj.value !in old(out) && out == old(out) + {obj.value}
      ensures old(Stack()) != [] ==> obj.Some? && old(Stack()) == Stack() + [obj.value] && made == old(made)
      ensures old(Stack()) == [] && obj.Some? ==> old(made) <= obj.value && |Stack()| < per
    {
      EmptyAtStart(rows, row, col, per);
      if col != 0 || row != 0 {
        var x := Pop();
        return Some(x);
      }
      obj := GetNew();
    }

    /** A new object, for a pool with none free. */
    method GetNew() returns (obj: Option<nat>)
      requires Valid() && row == 0 && col == 0
      modifies this
      ensures Valid()
      ensures obj.None? <==> !(toResize && |old(rows)| < maxBlocks) && !newIfNoResize
      ensures obj.None? ==> Stack() == [] && out == old(out)
      ensures obj.Some? ==> obj.value !in old(out) && out == old(out) + {obj.value}
      ensures obj.Some? ==> old(made) <= obj.value && |Stack()| < per
    {
      var ok := false;
      if toResize { ok := AllocABlock(); }
      if ok {
        ghost var full := Stack();
        var x := Pop();
        assert full[per - 1] == x;
        return Some(x);
      }
      if !newIfNoResize { return None; }
      obj := Some(made);
      out := out + {made};
      made := made + 1;
    }

    /** An object comes back to the top of the stack; it is deleted or forgotten when the pool may not grow. */
    method Free(obj: Option<nat>)
      requires Valid() && (obj.Some? ==> obj.value in out)
      modifies this
      ensures Valid() && made == old(made)
      ensures obj.None? ==> Stack() == old(Stack()) && out == old(out)
      ensures obj.Some? ==> out == old(out) - {obj.value}
      ensures obj.Some? ==>
              Stack() == if (!toResize && old(NumObjsLeft()) == initNum) || (old(row) == |old(rows)| == maxBlocks)
                         then old(Stack()) else old(Stack()) + [obj.value]
    {
      if obj.None? { return; }
      SoundBack(Stack(), obj.value, out, made);
      out := out - {obj.value};
      if !toResize && NumObjsLeft() == initNum { return; }
      if |rows| == row && |rows| == maxBlocks { return; }
      Push(obj.value);
    }

    method Push(x: nat)
      requires Shape() && (|rows| == row ==> |rows| < maxBlocks)
      modifies this`rows, this`row, this`col
      ensures Shape() && Stack() == old(Stack()) + [x]
    {
      ghost var was := rows;
      if |rows| == row { rows := rows + [NewOnes(0, per)]; }
      var line: seq<nat> := rows[row];
      line := line[col := x];
      rows := rows[row := line];
      OnTop(was, rows, row, col, per, x);
      if per - 1 != col {
        col := col + 1;
      } else {
        row := row + 1;
        col := 0;
      }
    }

    function NumObjsLeft(): (n: nat)
      reads this
    {
      row * |rows| + col
    }

    /** The number NumObjsLeft gives is that of the free objects exactly when no row is full, or there are as many rows
        as objects in a row. */
    lemma LeftExactly()
      requires Shape()
      ensures NumObjsLeft() == |Stack()| <==> row == 0 || |rows| == per
    {
      RowsSize(rows, row, per);
      if NumObjsLeft() == |Stack()| && row != 0 { Cancel(row, |rows|, per); }
    }
  }

  lemma Times(a: nat, b: nat, c: nat)
    requires a <= b
    ensures a * c <= b * c
  {
  }

  lemma Cancel(a: nat, b: nat, c: nat)
    requires 0 < a && a * b == a * c
    ensures b == c
  {
  }

  /** A pool of three objects, in one row of three, just made: NumObjsLeft says 1. */
  method LeftWrong() returns (p: PoolObjs)
    ensures fresh(p) && p.Valid() && |p.Stack()| == 3 && p.NumObjsLeft() == 1
  {
    p := new PoolObjs(3, 3, false, true, 5);
    var ok := p.Init();
    RowsSize(p.rows, p.row, p.per);
  }
}
