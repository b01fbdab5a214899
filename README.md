# poolparty priority queue adapter, modelled in Dafny

poolparty is a thread pool that is generic over its queue. The pool header
declares an `interface<queue>` through which it reaches its queue
(include/poolparty/pool.hpp:25-26, 32). The priority test plugs a queue in by
specialising `poolparty::traits` with three operations: `empty`, `emplace`
and `pop`. The link between `traits` and `interface` is made in `pool.inl`,
which is not part of this model. The priority test gives the pool a
`std::vector<priority_task>` and a specialisation that keeps the vector in
max-heap order:

- `emplace` appends with `emplace_back` and then calls `std::push_heap`;
- `pop` calls `std::pop_heap`, moves the back element out and calls `pop_back`.

The heap order is `priority_task::operator<`, which looks only at the
`priority` field. The test submits tasks with priorities 1, 2, 3, 6, 4, 5
while the pool is paused. After `resume`, the single worker runs them in the
order 6, 5, 4, 3, 2, 1.

The model has four modules, one per file:

- `PriorityTask` (`task.dfy`): a task is a record of an opaque payload `id`
  (standing for the callback) and a `std::size_t` priority. `Less` is
  `operator<`.
- `Heap` (`heap.dfy`): what the heap algorithms guarantee, stated on
  sequences:
  - the max-heap property and the states partway through sift-up and
    sift-down;
  - the front of a heap being a maximum;
  - what a run of "remove a maximum" steps yields.
- `VectorQueue` (`vector_queue.dfy`): the vector as a class over an `array`
  (the storage, whose length is the capacity) and a `size`.
  - `Emplace` is `EmplaceBack` followed by `PushHeap`, a sift-up loop.
  - `Pop` is `PopHeap`, an exchange followed by a sift-down loop, and then
    taking the back element off.
  - Each method is proved against the abstract multiset `Contents()` and the
    heap invariant `Valid()`.
- `PriorityTest` (`priority_test.dfy`): the test scenario. `Drain` is the one
  worker popping until the queue is empty. `PriorityOrderScenario` is the
  whole test, and it proves the order 6, 5, 4, 3, 2, 1 and an empty queue
  at the end.

The C++ standard (ISO/IEC 14882:2020, section 25.8.8 [alg.heap.operations])
promises only three things:

- the range is a max-heap under `<`;
- `pop_heap` puts the front at the back and re-heapifies the rest;
- the elements are rearranged and not changed.

The contracts state exactly that, and no particular arrangement of the array.
The loops are the textbook binary-heap ones, laid out with children `2i + 1`
and `2i + 2`.

## Model

| member | source | states |
|---|---|---|
| PriorityTask.Less | tests/priority.test.cpp:21-24 | Compares the priority fields and nothing else. Its properties are stated by `LessIsStrictWeakOrder` and `LessIgnoresPayload`. |
| PriorityTask.LessIsStrictWeakOrder | tests/priority.test.cpp:21-24 | `operator<` on tasks is irreflexive and transitive. Two tasks are unordered exactly when their priorities are equal, and that relation is transitive: a strict weak ordering, as the heap algorithms require. |
| PriorityTask.LessIgnoresPayload | tests/priority.test.cpp:21-24 | The comparison depends only on the priorities: replacing the payloads never changes its outcome. |
| VectorQueue.TaskVector.constructor | include/poolparty/pool.hpp:35 | The pool's queue starts as an empty vector with no storage, which is trivially a heap. |
| VectorQueue.TaskVector.Empty | tests/priority.test.cpp:35-38 | `empty` is true if and only if the queue holds no task. |
| VectorQueue.TaskVector.Emplace | tests/priority.test.cpp:41-45 | The size grows by one, the contents become the old contents plus the new task, and the vector is still a max-heap. |
| VectorQueue.TaskVector.EmplaceBack | tests/priority.test.cpp:43 | The used prefix becomes the old prefix with the task appended. When storage is full it is reallocated and the old elements are copied over. |
| VectorQueue.TaskVector.PushHeap | tests/priority.test.cpp:44 | If all but the last of the first `n` slots form a heap, afterwards all `n` do, and they hold the same multiset of tasks. The slots from `n` on keep their values. |
| VectorQueue.TaskVector.Pop | tests/priority.test.cpp:47-55 | It needs a non-empty queue. The size drops by one and the result was in the queue. The contents become the old contents without it, no task left has higher priority, and the vector is still a max-heap. |
| VectorQueue.TaskVector.PopHeap | tests/priority.test.cpp:49 | On a heap of `n` slots, the old front ends up in slot `n - 1`, the first `n - 1` slots form a heap, and together they hold the old tasks minus the front. The slots from `n` on keep their values. |
| VectorQueue.TaskVector.SiftDown | tests/priority.test.cpp:49 | A heap whose only defect is at the root becomes a heap with the same tasks, and the slots from `n` on keep their values. |
| VectorQueue.TaskVector.Exchange | tests/priority.test.cpp:49 | Exchanging two slots gives the swapped prefix, and the slots from `n` on keep their values. |
| Heap.HeapFrontIsMaxAt | tests/priority.test.cpp:49-54 | In a heap, no element has a higher priority than the front. |
| Heap.HeapFrontIsMax | tests/priority.test.cpp:49-54 | The front of a non-empty heap has at least the priority of every task in it. |
| Heap.PushStart | tests/priority.test.cpp:43-44 | Appending to a heap leaves a heap, except possibly at the new element. |
| Heap.SiftUpStep | tests/priority.test.cpp:44 | Swapping an element with a parent it outranks moves the only defect up to the parent and keeps the tasks. |
| Heap.SiftUpDone | tests/priority.test.cpp:44 | When sift-up stops, at the root or under a parent that is not lower, the whole is a heap. |
| Heap.PopStart | tests/priority.test.cpp:49 | Exchanging front and back and dropping the back leaves a heap with a defect only at the root. The dropped back is the old front, and the rest is the old tasks minus it. |
| Heap.SiftDownStep | tests/priority.test.cpp:49 | Swapping an element with its larger child, when that child outranks it, moves the only defect down to the child and keeps the tasks. |
| Heap.SiftDownDone | tests/priority.test.cpp:49 | When no child outranks the defect, the whole is a heap. |
| Heap.RepeatedPopsNonIncreasing | tests/priority.test.cpp:47-55 | In any run of pops, each of which removes a maximum of what is left, the priorities come out non-increasing. |
| Heap.PopChainContents | tests/priority.test.cpp:47-55 | Such a run loses and invents nothing: the starting contents are what came out plus what is left. |
| Heap.NonIncreasingPrioritiesDetermined | tests/priority.test.cpp:86-91 | Two non-increasing orderings of the same tasks have the same length and the same priority at every position. Only equal-priority tasks can trade places. |
| PriorityTest.Drain | tests/priority.test.cpp:77-84 | The one worker popping until the queue is empty runs every queued task exactly once, in non-increasing priority order, and leaves the queue empty. |
| PriorityTest.RunsAppendAlike | tests/priority.test.cpp:70-91 | When each callback appends its own task's priority, any two non-increasing runs of the same tasks append the same values. |
| PriorityTest.SubmittedRunHighestFirst | tests/priority.test.cpp:70-91 | Run in any non-increasing order, the six submitted tasks append exactly 6, 5, 4, 3, 2, 1. |
| PriorityTest.SubmitWhilePaused | tests/priority.test.cpp:61-75 | A fresh pool holds no tasks. After the six submissions, the queue is a heap holding exactly the six tasks. |
| PriorityTest.PriorityOrderScenario | tests/priority.test.cpp:59-94 | Before submission the pool has 0 tasks, the callbacks run in the order 6, 5, 4, 3, 2, 1, and 0 tasks are left afterwards. |

## Left out

- The pool itself is not part of this model:
  - worker threads, the queue mutex, the condition variable, the atomic pause flag and stop tokens;
  - `pause`, `resume`, `submit`, `add_thread`, `cleanup`, `size` and `tasks`.
  
  Their implementation file, `pool.inl`, is not part of this model either. `Drain` stands for the single worker of `pool{1}` after `resume`. `tasks()` is read as the size of the queue.
- `pool.size() == 1` (tests/priority.test.cpp:63) is about thread count and is not modelled.
- Callbacks are an opaque `id`:
  - `std::move_only_function`, `operator()` and the futures are not modelled;
  - running a task is modelled only as appending its `id` to `order`; `Ids` defines that sequence of appended values and has no contract of its own. What is proved about it is stated by `RunsAppendAlike`, `SubmittedRunHighestFirst` and `PriorityOrderScenario`.
- `submit<false, N>` builds a `priority_task` from its template argument; this is not modelled. `SubmitWhilePaused` calls `Emplace` with the finished task.
- The test's six consecutive `submit` calls are written as one loop over the list of submitted tasks, in submission order.
- Move semantics are not modelled; tasks are copied as values.
- The concrete arrangement produced by libstdc++ or libc++ is not modelled.
  - libstdc++'s `pop_heap` moves the hole down to a leaf and then sifts up (`__adjust_heap`); the model uses the textbook sift-down.
  - Both meet the same guarantees, and no contract fixes the arrangement.
  - The relative order of equal priorities is therefore unspecified, as in the source.
- The vector's growth:
  - the capacity starts at 0 and becomes 1, then twice the size, when full, following libstdc++;
  - allocation failure and `max_size` are not modelled.
- Indices are unbounded `nat` rather than `std::size_t`. Priorities are a `std::size_t` range; they are only compared, so wrap-around never arises.
- `pop` on an empty vector is undefined behaviour in C++. The model makes it a precondition, which the worker meets by testing `empty` first.
