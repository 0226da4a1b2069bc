/** The agent's experience replay buffer: a fixed-capacity circular store of
    transitions kept as five parallel columns (state, action, reward, next
    state, terminal flag), a write cursor `ptr` and a logical `size`.

    States and actions are opaque (type parameters `S` and `A`): their
    tensor shape and device play no part in the bookkeeping. */
module Replay {
  import opened Arith

  /** One experience tuple as the driver hands it to `add`; `dw` is the
      "terminated without truncation" flag. */
  datatype Transition<S, A> = Transition(s: S, a: A, r: real, sNext: S, dw: bool)

  /** The content of a slot that has never been written: every column of the
      buffer starts out zero-filled and the terminal flag starts out false. */
  function Blank<S, A>(zeroState: S, zeroAction: A): Transition<S, A>
  {
    Transition(zeroState, zeroAction, 0.0, zeroState, false)
  }

  datatype ReplayBuffer<S, A> = ReplayBuffer(
    maxSize: nat,
    ptr: nat,
    size: nat,
    s: seq<S>,
    a: seq<A>,
    r: seq<real>,
    sNext: seq<S>,
    dw: seq<bool>)
  {
    /** The representation invariant every constructed buffer keeps: a
        positive capacity, five columns of that length, the cursor on a
        slot and the logical size within capacity. */
    predicate Valid()
    {
      && maxSize >= 1
      && ptr < maxSize
      && size <= maxSize
      && |s| == maxSize && |a| == maxSize && |r| == maxSize
      && |sNext| == maxSize && |dw| == maxSize
    }

    /** The transition stored at row `i`, read across the five columns. */
    function Slot(i: nat): Transition<S, A>
      requires Valid() && i < maxSize
    {
      Transition(s[i], a[i], r[i], sNext[i], dw[i])
    }

    /** All rows in slot order. */
    function Contents(): (c: seq<Transition<S, A>>)
      requires Valid()
      ensures |c| == maxSize
      ensures forall i :: 0 <= i < maxSize ==> c[i] == Slot(i)
    {
      seq(maxSize, i requires 0 <= i < maxSize => Slot(i))
    }
  }

  /** The state construction leaves a buffer in: cursor and size at zero,
      every row blank. */
  ghost predicate Fresh<S, A>(b: ReplayBuffer<S, A>, zeroState: S, zeroAction: A)
  {
    && b.Valid()
    && b.ptr == 0
    && b.size == 0
    && forall i :: 0 <= i < b.maxSize ==> b.Slot(i) == Blank(zeroState, zeroAction)
  }

  /** Construct an empty buffer of the given capacity. */
  function Init<S, A>(maxSize: nat, zeroState: S, zeroAction: A): (b: ReplayBuffer<S, A>)
    requires maxSize >= 1
    ensures Fresh(b, zeroState, zeroAction) && b.maxSize == maxSize
  {
    ReplayBuffer(maxSize, 0, 0,
      seq(maxSize, _ => zeroState), seq(maxSize, _ => zeroAction), seq(maxSize, _ => 0.0),
      seq(maxSize, _ => zeroState), seq(maxSize, _ => false))
  }

  /** Store one transition at the cursor, advance the cursor circularly and
      grow the size until it saturates at the capacity. */
  function Add<S, A>(b: ReplayBuffer<S, A>, t: Transition<S, A>): (b': ReplayBuffer<S, A>)
    requires b.Valid()
    ensures b'.Valid() && b'.maxSize == b.maxSize
    // the cursor moves one slot forward, wrapping from the last slot to the first
    ensures b.ptr + 1 < b.maxSize ==> b'.ptr == b.ptr + 1
    ensures b.ptr + 1 == b.maxSize ==> b'.ptr == 0
    // the size grows by exactly one until it saturates, and never shrinks
    ensures b.size < b.maxSize ==> b'.size == b.size + 1
    ensures b.size == b.maxSize ==> b'.size == b.maxSize
    // until the buffer first fills, the cursor sits just past the stored rows
    ensures (b.size < b.maxSize ==> b.ptr == b.size) ==> (b'.size < b'.maxSize ==> b'.ptr == b'.size)
    // the old cursor slot receives the transition, and no other slot changes
    ensures b'.Slot(b.ptr) == t
    ensures forall i :: 0 <= i < b.maxSize && i != b.ptr ==> b'.Slot(i) == b.Slot(i)
  {
    assert (b.ptr + 1) % b.maxSize == (if b.ptr + 1 < b.maxSize then b.ptr + 1 else 0) by {
      if b.ptr + 1 < b.maxSize {
        ModOfMultiplePlus(0, b.ptr + 1, b.maxSize);
      } else {
        ModOfMultiplePlus(1, 0, b.maxSize);
      }
    }
    b.(ptr := (b.ptr + 1) % b.maxSize,
       size := Min(b.size + 1, b.maxSize),
       s := b.s[b.ptr := t.s],
       a := b.a[b.ptr := t.a],
       r := b.r[b.ptr := t.r],
       sNext := b.sNext[b.ptr := t.sNext],
       dw := b.dw[b.ptr := t.dw])
  }

  /** The buffer after adding `ts` in order; `ts[k]` is insertion number `k`. */
  function AddAll<S, A>(b: ReplayBuffer<S, A>, ts: seq<Transition<S, A>>): (b': ReplayBuffer<S, A>)
    requires b.Valid()
    ensures b'.Valid() && b'.maxSize == b.maxSize
    decreases |ts|
  {
    if |ts| == 0 then b else Add(AddAll(b, ts[..|ts| - 1]), ts[|ts| - 1])
  }

  /** The slot that insertion number `k` goes to, counting from the cursor of `b`. */
  function WriteSlot<S, A>(b: ReplayBuffer<S, A>, k: nat): (i: nat)
    requires b.Valid()
    ensures i < b.maxSize
  {
    (b.ptr + k) % b.maxSize
  }

  /** After `n` adds the cursor has moved `n` slots (modulo the capacity)
      and the size has grown by `n`, saturating at the capacity. */
  lemma {:induction false} AddAllCursor<S, A>(b: ReplayBuffer<S, A>, ts: seq<Transition<S, A>>)
    requires b.Valid()
    ensures AddAll(b, ts).ptr == WriteSlot(b, |ts|)
    ensures AddAll(b, ts).size == Min(b.size + |ts|, b.maxSize)
    decreases |ts|
  {
    if |ts| > 0 {
      var n := |ts|;
      AddAllCursor(b, ts[..n - 1]);
      ModSucc(b.ptr + (n - 1), b.maxSize);
    }
  }

  /** Among the last `maxSize` insertions, insertion `k` sits in its write
      slot; the slots that the insertions have not reached are unchanged. */
  lemma {:induction false} AddAllContents<S, A>(b: ReplayBuffer<S, A>, ts: seq<Transition<S, A>>)
    requires b.Valid()
    ensures forall k :: 0 <= k < |ts| && |ts| - b.maxSize <= k ==>
      AddAll(b, ts).Slot(WriteSlot(b, k)) == ts[k]
    ensures forall j :: |ts| <= j < b.maxSize ==>
      AddAll(b, ts).Slot(WriteSlot(b, j)) == b.Slot(WriteSlot(b, j))
    decreases |ts|
  {
    if |ts| > 0 {
      var n := |ts|;
      var front := ts[..n - 1];
      var prev := AddAll(b, front);
      assert prev.ptr == WriteSlot(b, n - 1) by {
        AddAllCursor(b, front);
      }
      AddAllContents(b, front);
      assert forall k :: 0 <= k < n - 1 ==> front[k] == ts[k];
      AddContents(b, ts, prev);
      assert AddAll(b, ts) == Add(prev, ts[n - 1]);
    }
  }

  /** The inductive step of `AddAllContents`: if `prev` holds the first
      `n - 1` insertions in their write slots, adding insertion `n - 1` at
      its write slot keeps every other recent insertion and every untouched
      slot in place. */
  lemma AddContents<S, A>(b: ReplayBuffer<S, A>, ts: seq<Transition<S, A>>, prev: ReplayBuffer<S, A>)
    requires b.Valid() && prev.Valid() && prev.maxSize == b.maxSize && |ts| > 0
    requires prev.ptr == WriteSlot(b, |ts| - 1)
    requires forall k :: 0 <= k < |ts| - 1 && |ts| - 1 - b.maxSize <= k ==>
      prev.Slot(WriteSlot(b, k)) == ts[k]
    requires forall j :: |ts| - 1 <= j < b.maxSize ==>
      prev.Slot(WriteSlot(b, j)) == b.Slot(WriteSlot(b, j))
    ensures forall k :: 0 <= k < |ts| && |ts| - b.maxSize <= k ==>
      Add(prev, ts[|ts| - 1]).Slot(WriteSlot(b, k)) == ts[k]
    ensures forall j :: |ts| <= j < b.maxSize ==>
      Add(prev, ts[|ts| - 1]).Slot(WriteSlot(b, j)) == b.Slot(WriteSlot(b, j))
  {
    var n := |ts|;
    var last := Add(prev, ts[n - 1]);
    forall k | 0 <= k < n && n - b.maxSize <= k
      ensures last.Slot(WriteSlot(b, k)) == ts[k]
    {
      if k < n - 1 {
        assert WriteSlot(b, k) != WriteSlot(b, n - 1) by {
          DistinctResidues(b.ptr + k, b.ptr + (n - 1), b.maxSize);
        }
      }
    }
    forall j | n <= j < b.maxSize
      ensures last.Slot(WriteSlot(b, j)) == b.Slot(WriteSlot(b, j))
    {
      assert WriteSlot(b, n - 1) != WriteSlot(b, j) by {
        DistinctResidues(b.ptr + (n - 1), b.ptr + j, b.maxSize);
      }
    }
  }

  /** A slot that none of the insertions reaches keeps its content. */
  lemma Untouched<S, A>(b: ReplayBuffer<S, A>, ts: seq<Transition<S, A>>, j: nat)
    requires b.Valid() && |ts| <= j < b.maxSize
    ensures AddAll(b, ts).Slot(WriteSlot(b, j)) == b.Slot(WriteSlot(b, j))
  {
    AddAllContents(b, ts);
  }

  /** Adding `n` transitions to a freshly constructed buffer leaves the
      cursor at `n % maxSize` and the size at `min(n, maxSize)`. */
  lemma FreshCursor<S, A>(b0: ReplayBuffer<S, A>, zeroState: S, zeroAction: A, ts: seq<Transition<S, A>>)
    requires Fresh(b0, zeroState, zeroAction)
    ensures AddAll(b0, ts).ptr == |ts| % b0.maxSize
    ensures AddAll(b0, ts).size == Min(|ts|, b0.maxSize)
  {
    assert WriteSlot(b0, |ts|) == |ts| % b0.maxSize;
    AddAllCursor(b0, ts);
  }

  /** Each of the last `maxSize` insertions `ts[k]` sits in slot `k % maxSize`. */
  ghost predicate RecentInSlots<S, A>(b: ReplayBuffer<S, A>, ts: seq<Transition<S, A>>)
    requires b.Valid()
  {
    forall k :: 0 <= k < |ts| && |ts| - b.maxSize <= k ==> b.Slot(k % b.maxSize) == ts[k]
  }

  /** In a buffer filled from scratch, insertion `k` of the last `maxSize`
      lives in slot `k % maxSize`. */
  lemma FreshRecent<S, A>(b0: ReplayBuffer<S, A>, zeroState: S, zeroAction: A, ts: seq<Transition<S, A>>)
    requires Fresh(b0, zeroState, zeroAction)
    ensures RecentInSlots(AddAll(b0, ts), ts)
  {
    assert forall k :: 0 <= k < |ts| ==> WriteSlot(b0, k) == k % b0.maxSize;
    AddAllContents(b0, ts);
  }

  /** In a buffer filled from scratch with `n` insertions, the slots from
      `n` onwards have never been written and are still blank. */
  lemma FreshUnwritten<S, A>(b0: ReplayBuffer<S, A>, zeroState: S, zeroAction: A, ts: seq<Transition<S, A>>)
    requires Fresh(b0, zeroState, zeroAction)
    ensures forall i :: |ts| <= i < b0.maxSize ==>
      AddAll(b0, ts).Slot(i) == Blank(zeroState, zeroAction)
  {
    var b := AddAll(b0, ts);
    forall i | |ts| <= i < b0.maxSize
      ensures b.Slot(i) == Blank(zeroState, zeroAction)
    {
      assert WriteSlot(b0, i) == i by {
        ModOfMultiplePlus(0, i, b0.maxSize);
      }
      assert b.Slot(i) == b0.Slot(i) by {
        Untouched(b0, ts, i);
      }
    }
  }

  /** If the row at `k % m` holds `ts[k]` for each of the first `n < m`
      insertions, the first `n` rows are exactly `ts`. */
  lemma UnrotatedPrefix<T>(c: seq<T>, ts: seq<T>)
    requires |ts| < |c|
    requires forall k :: 0 <= k < |ts| ==> c[k % |c|] == ts[k]
    ensures c[..|ts|] == ts
  {
    forall k | 0 <= k < |ts|
      ensures c[k] == ts[k]
    {
      ModOfMultiplePlus(0, k, |c|);
    }
  }

  /** If the row at `k % m` holds `ts[k]` for each of the last `m` insertions,
      the rows read from `|ts| % m` onwards, wrapping round, are those
      insertions in order. */
  lemma RotatedSuffix<T>(c: seq<T>, ts: seq<T>)
    requires 1 <= |c| <= |ts|
    requires forall k :: |ts| - |c| <= k < |ts| ==> c[k % |c|] == ts[k]
    ensures c[|ts| % |c|..] + c[..|ts| % |c|] == ts[|ts| - |c|..]
  {
    var n, m := |ts|, |c|;
    var p := n % m;
    var q := n / m;
    assert n == m * q + p;
    forall i | 0 <= i < m
      ensures (c[p..] + c[..p])[i] == ts[n - m + i]
    {
      if i < m - p {
        ModOfMultiplePlus(q - 1, p + i, m);
        assert m * (q - 1) + (p + i) == n - m + i;
      } else {
        ModOfMultiplePlus(q, i - (m - p), m);
        assert m * q + (i - (m - p)) == n - m + i;
      }
    }
  }

  /** Before the buffer first fills, its first `n` rows are the insertions in
      order and every later row is still blank. */
  lemma BeforeWrap<S, A>(b0: ReplayBuffer<S, A>, zeroState: S, zeroAction: A, ts: seq<Transition<S, A>>)
    requires Fresh(b0, zeroState, zeroAction) && |ts| < b0.maxSize
    ensures AddAll(b0, ts).size == |ts|
    ensures AddAll(b0, ts).Contents()[..|ts|] == ts
    ensures forall i :: |ts| <= i < b0.maxSize ==> AddAll(b0, ts).Slot(i) == Blank(zeroState, zeroAction)
  {
    FreshCursor(b0, zeroState, zeroAction, ts);
    FreshRecent(b0, zeroState, zeroAction, ts);
    FreshUnwritten(b0, zeroState, zeroAction, ts);
    UnrotatedPrefix(AddAll(b0, ts).Contents(), ts);
  }

  /** Once `n >= maxSize` insertions have been made, the buffer is full and
      holds exactly the last `maxSize` insertions: reading the rows from the
      cursor onwards and wrapping round gives them oldest first, so the slot
      under the cursor, the next to be overwritten, holds the oldest. */
  lemma AfterWrap<S, A>(b0: ReplayBuffer<S, A>, zeroState: S, zeroAction: A, ts: seq<Transition<S, A>>)
    requires Fresh(b0, zeroState, zeroAction) && b0.maxSize <= |ts|
    ensures AddAll(b0, ts).size == b0.maxSize
    ensures var b := AddAll(b0, ts);
      b.Contents()[b.ptr..] + b.Contents()[..b.ptr] == ts[|ts| - b0.maxSize..]
    ensures AddAll(b0, ts).Slot(AddAll(b0, ts).ptr) == ts[|ts| - b0.maxSize]
    ensures multiset(AddAll(b0, ts).Contents()) == multiset(ts[|ts| - b0.maxSize..])
  {
    FreshCursor(b0, zeroState, zeroAction, ts);
    FreshRecent(b0, zeroState, zeroAction, ts);
    FullRotation(AddAll(b0, ts), ts, b0.maxSize);
  }

  /** A buffer of capacity `m <= n` whose cursor is at `n % m` and whose
      slot `k % m` holds `ts[k]` for each of the last `m` insertions holds
      exactly those insertions, oldest first from the cursor. */
  lemma FullRotation<S, A>(b: ReplayBuffer<S, A>, ts: seq<Transition<S, A>>, m: nat)
    requires b.Valid() && b.maxSize == m && m <= |ts| && b.ptr == |ts| % m
    requires RecentInSlots(b, ts)
    ensures b.Contents()[b.ptr..] + b.Contents()[..b.ptr] == ts[|ts| - m..]
    ensures b.Slot(b.ptr) == ts[|ts| - m]
    ensures multiset(b.Contents()) == multiset(ts[|ts| - m..])
  {
    var c := b.Contents();
    var w := ts[|ts| - m..];
    assert c[|ts| % |c|..] + c[..|ts| % |c|] == w by {
      RotatedSuffix(c, ts);
    }
    RotationFacts(c, b.ptr, w);
  }

  /** A rotation of `c` starts with the element at the rotation point and
      holds the same elements as `c`. */
  lemma RotationFacts<T>(c: seq<T>, p: nat, w: seq<T>)
    requires p < |c| && c[p..] + c[..p] == w
    ensures w[0] == c[p]
    ensures multiset(w) == multiset(c)
  {
    assert c == c[..p] + c[p..];
  }

  /** A sampled batch: five parallel columns read at one shared index list. */
  datatype Batch<S, A> = Batch(s: seq<S>, a: seq<A>, r: seq<real>, sNext: seq<S>, dw: seq<bool>)
  {
    predicate Aligned(n: nat)
    {
      |s| == n && |a| == n && |r| == n && |sNext| == n && |dw| == n
    }

    /** Row `j` of the batch, read across the five columns. */
    function Row(j: nat): Transition<S, A>
      requires j < |s| && j < |a| && j < |r| && j < |sNext| && j < |dw|
    {
      Transition(s[j], a[j], r[j], sNext[j], dw[j])
    }
  }

  /** Read the rows at `ind` from every column. The indices would be drawn
      uniformly from `[0, size)`; here the caller supplies them. */
  function Sample<S, A>(b: ReplayBuffer<S, A>, ind: seq<nat>): (batch: Batch<S, A>)
    requires b.Valid() && b.size >= 1
    requires forall j :: 0 <= j < |ind| ==> ind[j] < b.size
    ensures batch.Aligned(|ind|)
    ensures forall j :: 0 <= j < |ind| ==> batch.Row(j) == b.Slot(ind[j])
  {
    Batch(
      seq(|ind|, j requires 0 <= j < |ind| => b.s[ind[j]]),
      seq(|ind|, j requires 0 <= j < |ind| => b.a[ind[j]]),
      seq(|ind|, j requires 0 <= j < |ind| => b.r[ind[j]]),
      seq(|ind|, j requires 0 <= j < |ind| => b.sNext[ind[j]]),
      seq(|ind|, j requires 0 <= j < |ind| => b.dw[ind[j]]))
  }

  /** Every row sampled from a buffer filled from scratch is one of the most
      recent `min(n, maxSize)` insertions: never a slot that was not
      written, never an insertion that has been overwritten. */
  lemma SampleIsRecent<S, A>(b0: ReplayBuffer<S, A>, zeroState: S, zeroAction: A,
                             ts: seq<Transition<S, A>>, ind: seq<nat>)
    requires Fresh(b0, zeroState, zeroAction) && 1 <= |ts|
    requires forall j :: 0 <= j < |ind| ==> ind[j] < Min(|ts|, b0.maxSize)
    ensures AddAll(b0, ts).size == Min(|ts|, b0.maxSize)
    ensures forall j :: 0 <= j < |ind| ==>
      Sample(AddAll(b0, ts), ind).Row(j) in ts[|ts| - Min(|ts|, b0.maxSize)..]
  {
    var b := AddAll(b0, ts);
    var n := |ts|;
    FreshCursor(b0, zeroState, zeroAction, ts);
    var batch := Sample(b, ind);
    if n < b0.maxSize {
      BeforeWrap(b0, zeroState, zeroAction, ts);
      forall j | 0 <= j < |ind|
        ensures batch.Row(j) in ts[n - b.size..]
      {
        assert b.Contents()[..n][ind[j]] == ts[ind[j]];
      }
    } else {
      AfterWrap(b0, zeroState, zeroAction, ts);
      forall j | 0 <= j < |ind|
        ensures batch.Row(j) in ts[n - b.size..]
      {
        assert b.Contents()[ind[j]] in multiset(b.Contents());
      }
    }
  }
}
