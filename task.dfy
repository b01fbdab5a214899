/**
 * The element type of the priority queue: a task carrying an opaque payload
 * (standing for its move-only callback) and a `std::size_t` priority, ordered
 * by priority alone.
 */
module PriorityTask {

  /** The values of `std::size_t` on a 64-bit target. Priorities are only compared, never computed with. */
  newtype SizeT = x: int | 0 <= x < 0x1_0000_0000_0000_0000

  /**
   * A queued task. `id` stands for the callback: it is carried along and
   * never consulted by the ordering.
   */
  datatype Task = Task(id: nat, priority: SizeT)

  /** `a < b` for tasks: compares the priority fields and nothing else. */
  predicate Less(a: Task, b: Task) {
    a.priority < b.priority
  }

  /**
   * The heap algorithms require their comparison to be a strict weak ordering:
   * irreflexive, transitive, and with "neither is less" an equivalence. For
   * `Less` that equivalence is "equal priority", so the payload plays no part.
   */
  lemma LessIsStrictWeakOrder(a: Task, b: Task, c: Task)
    ensures !Less(a, a)
    ensures Less(a, b) && Less(b, c) ==> Less(a, c)
    ensures (!Less(a, b) && !Less(b, a)) <==> a.priority == b.priority
    ensures (!Less(a, b) && !Less(b, a)) && (!Less(b, c) && !Less(c, b)) ==> !Less(a, c) && !Less(c, a)
  {
  }

  /** Two tasks with the same priorities compare alike whatever their payloads. */
  lemma LessIgnoresPayload(a: Task, b: Task, a': Task, b': Task)
    requires a.priority == a'.priority && b.priority == b'.priority
    ensures Less(a, b) <==> Less(a', b')
  {
  }
}
