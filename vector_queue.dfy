/**
 * The queue adapter that turns a `std::vector` of tasks into a max-heap
 * priority queue: `Empty`, `Emplace` (append, then sift up) and `Pop`
 * (exchange front and back, sift down, then take the back off).
 */
module VectorQueue {
  import opened PriorityTask
  import opened Heap

  /**
   * A vector of tasks kept in max-heap order. `data` is the vector's storage
   * (its length is the capacity) and `size` is how many slots are in use.
   */
  class TaskVector {
    var data: array<Task>
    var size: nat
    ghost var Repr: set<object>

    /** The object invariant: the used prefix of the storage is a max-heap. */
    ghost predicate Valid()
      reads this, Repr
      ensures Valid() ==> this in Repr
    {
      && this in Repr && data in Repr
      && size <= data.Length
      && IsHeap(data[..size])
    }

    /** The tasks in the vector, as a multiset: the queue's abstract value. */
    ghost function Contents(): multiset<Task>
      reads this, data
      requires size <= data.Length
    {
      multiset(data[..size])
    }

    /** A default-constructed vector: no elements and no storage. */
    constructor ()
      ensures Valid() && fresh(Repr)
      ensures Contents() == multiset{} && size == 0
    {
      data := new Task[0];
      size := 0;
      Repr := {this, data};
    }

    /** `empty(queue)`: whether the queue holds no task. */
    predicate Empty()
      reads this, Repr
      requires Valid()
      ensures Empty() <==> Contents() == multiset{}
    {
      size == 0
    }

    /** `emplace(queue, t)`: `emplace_back` the task, then `std::push_heap` over the whole vector. */
    method Emplace(t: Task)
      requires Valid()
      modifies Repr
      ensures Valid() && fresh(Repr - old(Repr))
      ensures size == old(size) + 1
      ensures Contents() == old(Contents()) + multiset{t}
    {
      ghost var s := data[..size];
      EmplaceBack(t);
      assert data[..size] == s + [t] && data[..size - 1] == s;
      PushHeap(size);
    }

    /**
     * `emplace_back`: put `t` in the first unused slot, moving the elements
     * into storage of twice the capacity (one slot when the capacity was 0)
     * when there is none.
     */
    method EmplaceBack(t: Task)
      requires Valid()
      modifies Repr
      ensures this in Repr && data in Repr && fresh(Repr - old(Repr))
      ensures size == old(size) + 1 <= data.Length
      ensures data[..size] == old(data[..size]) + [t]
    {
      if size == data.Length {
        var storage := new Task[if size == 0 then 1 else 2 * size];
        forall k | 0 <= k < size {
          storage[k] := data[k];
        }
        assert storage[..size] == data[..size];
        data := storage;
        Repr := {this, data};
      }
      data[size] := t;
      size := size + 1;
    }

    /** `std::push_heap` over the first `n` slots: sift the element in slot `n - 1` up past every parent it outranks. */
    method PushHeap(n: nat)
      requires 0 < n <= data.Length && IsHeap(data[..n - 1])
      modifies data
      ensures IsHeap(data[..n])
      ensures multiset(data[..n]) == multiset(old(data[..n]))
      ensures data[n..] == old(data[n..])
    {
      assert data[..n] == data[..n - 1] + [data[n - 1]];
      PushStart(data[..n - 1], data[n - 1]);
      var i: nat := n - 1;
      while 0 < i && Less(data[Parent(i)], data[i])
        invariant i < n
        invariant HeapExceptUp(data[..n], i)
        invariant multiset(data[..n]) == multiset(old(data[..n]))
        invariant data[n..] == old(data[n..])
        decreases i
      {
        var p := Parent(i);
        SiftUpStep(data[..n], i);
        Exchange(n, i, p);
        i := p;
      }
      SiftUpDone(data[..n], i);
    }

    /**
     * `pop(queue)`: `std::pop_heap` moves a maximum to the back, which is
     * then moved out and removed. Popping an empty vector is undefined, so
     * callers test `Empty` first.
     */
    method Pop() returns (t: Task)
      requires Valid() && size > 0
      modifies Repr
      ensures Valid() && Repr == old(Repr) && data == old(data)
      ensures size == old(size) - 1
      ensures PopsMax(old(Contents()), t, Contents())
    {
      ghost var s := data[..size];
      HeapFrontIsMax(s);
      PopHeap(size);
      t := data[size - 1];
      size := size - 1;
    }

    /**
     * `std::pop_heap` on the first `n` slots: exchange the front with slot
     * `n - 1`, then sift the new front down over the first `n - 1` slots.
     */
    method PopHeap(n: nat)
      requires 0 < n <= data.Length && IsHeap(data[..n])
      modifies data
      ensures IsHeap(data[..n - 1])
      ensures data[n - 1] == old(data[0])
      ensures multiset(old(data[..n])) == multiset(data[..n - 1]) + multiset{old(data[0])}
      ensures data[n..] == old(data[n..])
    {
      ghost var s, rest := data[..n], data[n..];
      Exchange(n, 0, n - 1);
      ghost var r, h, tail := data[..n], data[..n - 1], data[n - 1..];
      assert h == r[..n - 1] && tail == [r[n - 1]] + rest;
      PopStart(s, r, n);
      SiftDown(n - 1);
      assert data[n - 1..] == tail;
      assert data[n..] == tail[1..];
    }

    /**
     * The sift-down of `std::pop_heap` over the first `n` slots: exchange the
     * front with its larger child for as long as that child outranks it.
     */
    method SiftDown(n: nat)
      requires n <= data.Length && HeapExceptDown(data[..n], 0)
      modifies data
      ensures IsHeap(data[..n])
      ensures multiset(data[..n]) == multiset(old(data[..n]))
      ensures data[n..] == old(data[n..])
    {
      var i := 0;
      while 2 * i + 1 < n
        invariant HeapExceptDown(data[..n], i)
        invariant multiset(data[..n]) == multiset(old(data[..n]))
        invariant data[n..] == old(data[n..])
        decreases n - i
      {
        var c := 2 * i + 1;
        if c + 1 < n && Less(data[c], data[c + 1]) {
          c := c + 1;
        }
        if !Less(data[i], data[c]) {
          SiftDownDone(data[..n], i);
          break;
        }
        SiftDownStep(data[..n], i, c);
        Exchange(n, i, c);
        i := c;
      }
      if 2 * i + 1 >= n {
        SiftDownDone(data[..n], i);
      }
    }

    /** `std::iter_swap` of slots `i` and `j` among the first `n`; the slots from `n` on keep their values. */
    method Exchange(n: nat, i: nat, j: nat)
      requires i < n <= data.Length && j < n
      modifies data
      ensures data[..n] == Swap(old(data[..n]), i, j)
      ensures data[n..] == old(data[n..])
    {
      data[i], data[j] := data[j], data[i];
    }
  }
}
