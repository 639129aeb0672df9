// MemoryPool of app/android/blurcore/stub.cpp: a table of at most 32 byte buffers, each
// with an in-use flag, handed out first-fit and grown by one 4 MiB-or-larger block when no
// free block is large enough. A buffer is identified here by the index of its block in the
// table (the source hands out the address of the block's vector); a null buffer is None.

module BufferPool {

  datatype Option<T> = None | Some(value: T)

  /** One entry of the table: the length of its data vector, whether it is handed out, and
      the size that was requested when it was created. */
  datatype Block = Block(dataLen: nat, inUse: bool, size: nat)

  const MaxPoolSize: nat := 32
  const BlockSize: nat := 1024 * 1024 * 4

  function Max(a: nat, b: nat): nat
  {
    if a >= b then a else b
  }

  /** The block can serve a request of `required` bytes: it is free and large enough. */
  predicate Fits(b: Block, required: nat)
  {
    !b.inUse && b.dataLen >= required
  }

  /** The table invariant: at most 32 blocks, each at least 4 MiB long and at least as long
      as the size it was created for. */
  ghost predicate WellFormed(pool: seq<Block>)
  {
    |pool| <= MaxPoolSize &&
    forall i :: 0 <= i < |pool| ==> pool[i].size <= pool[i].dataLen && BlockSize <= pool[i].dataLen
  }

  /** The index of the first block, from i on, that fits the request. */
  function FirstFitFrom(pool: seq<Block>, required: nat, i: nat): (r: Option<nat>)
    ensures r.Some? ==> i <= r.value < |pool| && Fits(pool[r.value], required)
    ensures r.Some? ==> forall j :: i <= j < r.value ==> !Fits(pool[j], required)
    ensures r.None? ==> forall j :: i <= j < |pool| ==> !Fits(pool[j], required)
    decreases |pool| - i
  {
    if i >= |pool| then None
    else if Fits(pool[i], required) then Some(i)
    else FirstFitFrom(pool, required, i + 1)
  }

  /** The scan of lines 1122-1127: the earliest block in table order that fits. */
  function FirstFit(pool: seq<Block>, required: nat): (r: Option<nat>)
    ensures r.Some? ==> r.value < |pool| && Fits(pool[r.value], required)
    ensures r.Some? ==> forall j :: 0 <= j < r.value ==> !Fits(pool[j], required)
    ensures r.None? <==> forall j :: 0 <= j < |pool| ==> !Fits(pool[j], required)
  {
    FirstFitFrom(pool, required, 0)
  }

  /** The table after acquireBuffer and the buffer it returns. */
  datatype Acquisition = Acquisition(pool: seq<Block>, buffer: Option<nat>)

  /** acquireBuffer(required_size): mark the first fitting block in use and return it;
      otherwise, while the table holds fewer than 32 blocks, append a new in-use block of
      max(required_size, 4 MiB) bytes and return it; otherwise return null. */
  function Acquire(pool: seq<Block>, required: nat): (a: Acquisition)
  {
    match FirstFit(pool, required)
    case Some(i) => Acquisition(pool[i := pool[i].(inUse := true)], Some(i))
    case None =>
      if |pool| < MaxPoolSize then
        Acquisition(pool + [Block(Max(required, BlockSize), true, required)], Some(|pool|))
      else Acquisition(pool, None)
  }

  /** releaseBuffer(buffer): clear the in-use flag of the block the buffer belongs to; a
      buffer that belongs to no block, null among them, changes nothing. */
  function Release(pool: seq<Block>, buffer: Option<nat>): (r: seq<Block>)
  {
    if buffer.Some? && buffer.value < |pool| then pool[buffer.value := pool[buffer.value].(inUse := false)]
    else pool
  }

  /** A returned buffer is a block of the new table, marked in use, at least as long as the
      request, and it was not in use before: a block is never handed out twice. */
  lemma AcquireGivesFreeFittingBlock(pool: seq<Block>, required: nat)
    ensures var a := Acquire(pool, required);
      a.buffer.Some? ==>
        a.buffer.value < |a.pool| && a.pool[a.buffer.value].inUse &&
        a.pool[a.buffer.value].dataLen >= required &&
        (a.buffer.value < |pool| ==> !pool[a.buffer.value].inUse)
  {
  }

  /** First fit: when some free block is large enough, the earliest such block is the one
      handed out, and the table keeps its length. */
  lemma AcquireFirstFit(pool: seq<Block>, required: nat, k: nat)
    requires k < |pool| && Fits(pool[k], required)
    ensures var a := Acquire(pool, required);
      a.buffer.Some? && a.buffer.value <= k && Fits(pool[a.buffer.value], required) &&
      (forall j :: 0 <= j < a.buffer.value ==> !Fits(pool[j], required)) &&
      |a.pool| == |pool|
  {
  }

  /** Acquiring touches only the block it returns: every other block keeps its entry, and
      the table grows by at most one block. */
  lemma AcquireChangesOneBlock(pool: seq<Block>, required: nat)
    ensures var a := Acquire(pool, required);
      |pool| <= |a.pool| <= |pool| + 1 &&
      (|a.pool| == |pool| + 1 ==> a.buffer == Some(|pool|) && |pool| < MaxPoolSize) &&
      forall j :: 0 <= j < |pool| && Some(j) != a.buffer ==> a.pool[j] == pool[j]
  {
  }

  /** When the table is full and no block fits, acquireBuffer returns null and leaves the
      table as it was. */
  lemma AcquireFullPool(pool: seq<Block>, required: nat)
    requires |pool| >= MaxPoolSize
    requires forall j :: 0 <= j < |pool| ==> !Fits(pool[j], required)
    ensures Acquire(pool, required) == Acquisition(pool, None)
  {
  }

  /** A new block is appended only when none fits and the table has room; it is in use,
      max(required, 4 MiB) long, and records the requested size. */
  lemma AcquireAppendsBlock(pool: seq<Block>, required: nat)
    requires |pool| < MaxPoolSize
    requires forall j :: 0 <= j < |pool| ==> !Fits(pool[j], required)
    ensures var a := Acquire(pool, required);
      a.buffer == Some(|pool|) && |a.pool| == |pool| + 1 && a.pool[..|pool|] == pool &&
      a.pool[|pool|].inUse && a.pool[|pool|].size == required &&
      a.pool[|pool|].dataLen >= required && a.pool[|pool|].dataLen >= BlockSize &&
      (a.pool[|pool|].dataLen == required || a.pool[|pool|].dataLen == BlockSize)
  {
  }

  /** Releasing the buffer just acquired undoes the acquisition: a reused block is free
      again and the table is what it was; an appended block stays in the table, free. */
  lemma ReleaseUndoesAcquire(pool: seq<Block>, required: nat)
    ensures var a := Acquire(pool, required);
      a.buffer.Some? ==>
        Release(a.pool, a.buffer) ==
          if a.buffer.value < |pool| then pool
          else pool + [Block(Max(required, BlockSize), false, required)]
  {
    var a := Acquire(pool, required);
    if a.buffer.Some? && a.buffer.value < |pool| {
      var i := a.buffer.value;
      assert !pool[i].inUse;
      assert Release(a.pool, a.buffer) == pool[i := pool[i].(inUse := false)];
      assert pool[i].(inUse := false) == pool[i];
    }
  }

  /** Releasing never adds or removes blocks and changes only the released block's flag. */
  lemma ReleaseKeepsTable(pool: seq<Block>, buffer: Option<nat>)
    ensures |Release(pool, buffer)| == |pool|
    ensures forall j :: 0 <= j < |pool| ==>
      Release(pool, buffer)[j].dataLen == pool[j].dataLen && Release(pool, buffer)[j].size == pool[j].size &&
      (Release(pool, buffer)[j].inUse <==> pool[j].inUse && Some(j) != buffer)
  {
  }

  /** The table operations, for reasoning about any sequence of calls. */
  datatype Op = AcquireOp(required: nat) | ReleaseOp(buffer: Option<nat>) | CleanupOp

  function Step(pool: seq<Block>, op: Op): seq<Block>
  {
    match op
    case AcquireOp(required) => Acquire(pool, required).pool
    case ReleaseOp(buffer) => Release(pool, buffer)
    case CleanupOp => []
  }

  function Run(pool: seq<Block>, ops: seq<Op>): seq<Block>
    decreases |ops|
  {
    if |ops| == 0 then pool else Run(Step(pool, ops[0]), ops[1..])
  }

  /** Each operation keeps the table invariant. */
  lemma StepWellFormed(pool: seq<Block>, op: Op)
    requires WellFormed(pool)
    ensures WellFormed(Step(pool, op))
  {
    if op.AcquireOp? {
      var a := Acquire(pool, op.required);
      if FirstFit(pool, op.required).None? && |pool| < MaxPoolSize {
        assert a.pool == pool + [Block(Max(op.required, BlockSize), true, op.required)];
      }
    }
  }

  /** Whatever sequence of acquire, release and cleanup calls runs, the table never holds
      more than MAX_POOL_SIZE = 32 blocks, and every block stays at least 4 MiB and at least
      its requested size. */
  lemma {:induction false} RunWellFormed(pool: seq<Block>, ops: seq<Op>)
    requires WellFormed(pool)
    ensures WellFormed(Run(pool, ops))
    ensures |Run(pool, ops)| <= MaxPoolSize
    decreases |ops|
  {
    if |ops| > 0 {
      StepWellFormed(pool, ops[0]);
      RunWellFormed(Step(pool, ops[0]), ops[1..]);
    }
  }

  /** The pool object: the table behind a mutex that only serialises callers. */
  class MemoryPool {

    var pool: seq<Block>

    ghost predicate Valid()
      reads this
    {
      WellFormed(pool)
    }

    constructor()
      ensures Valid() && pool == []
    {
      pool := [];
    }

    /** acquireBuffer(required_size), lines 1118-1141. */
    method AcquireBuffer(required: nat) returns (buffer: Option<nat>)
      requires Valid()
      modifies this
      ensures Valid()
      ensures Acquisition(pool, buffer) == Acquire(old(pool), required)
    {
      StepWellFormed(pool, AcquireOp(required));
      var i := 0;
      while i < |pool|
        invariant 0 <= i <= |pool| && pool == old(pool)
        invariant forall j :: 0 <= j < i ==> !Fits(pool[j], required)
      {
        if !pool[i].inUse && pool[i].dataLen >= required {
          pool := pool[i := pool[i].(inUse := true)];
          return Some(i);
        }
        i := i + 1;
      }
      if |pool| < MaxPoolSize {
        pool := pool + [Block(Max(required, BlockSize), true, required)];
        return Some(|pool| - 1);
      }
      return None;
    }

    /** releaseBuffer(buffer), lines 1143-1152: the scan stops at the matching block. */
    method ReleaseBuffer(buffer: Option<nat>)
      requires Valid()
      modifies this
      ensures Valid()
      ensures pool == Release(old(pool), buffer)
    {
      StepWellFormed(pool, ReleaseOp(buffer));
      var i := 0;
      while i < |pool|
        invariant 0 <= i <= |pool| && pool == old(pool)
        invariant forall j :: 0 <= j < i ==> Some(j) != buffer
      {
        if Some(i) == buffer {
          pool := pool[i := pool[i].(inUse := false)];
          break;
        }
        i := i + 1;
      }
    }

    /** cleanup(), lines 1154-1157: every block dropped. */
    method Cleanup()
      requires Valid()
      modifies this
      ensures Valid() && pool == [] && GetPoolSize() == 0
    {
      pool := [];
    }

    /** getPoolSize(), lines 1159-1162: the number of blocks, never above 32. */
    function GetPoolSize(): (n: nat)
      reads this
      requires Valid()
      ensures n <= MaxPoolSize
      ensures n == 0 <==> pool == []
    {
      |pool|
    }
  }
}
