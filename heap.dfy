/**
 * What the heap operations promise, stated on sequences of tasks: the
 * max-heap property under `Less`, the maximum at the front, and what a run
 * of successive "pop the maximum" steps yields.
 */
module Heap {
  import opened PriorityTask

  /** Index of the parent of node `j` in the implicit binary tree of a heap. */
  function Parent(j: nat): (p: nat)
    requires j > 0
    ensures p < j && (2 * p + 1 == j || 2 * p + 2 == j)
  {
    (j - 1) / 2
  }

  /** The edge from `i` down to `j`, if `j` is a child `2i + 1` or `2i + 2` of `i` in `s`, is in heap order. */
  ghost predicate OrderedEdge(s: seq<Task>, i: int, j: int) {
    0 <= i < j < |s| && (j == 2 * i + 1 || j == 2 * i + 2) ==> !Less(s[i], s[j])
  }

  /** If `k` is a child of `i` and `j` a child of `k` in `s`, then `s[j]` does not outrank `s[i]`. */
  ghost predicate OrderedAcross(s: seq<Task>, i: int, k: int, j: int) {
    0 <= i < k < j < |s| && (k == 2 * i + 1 || k == 2 * i + 2) && (j == 2 * k + 1 || j == 2 * k + 2) ==> !Less(s[i], s[j])
  }

  /** Max-heap under `Less`: no element is less than one of its children. */
  ghost predicate IsHeap(s: seq<Task>) {
    forall i, j :: OrderedEdge(s, i, j)
  }

  /** Every element of a heap has at most the priority of the element at its front. */
  lemma {:induction false} HeapFrontIsMaxAt(s: seq<Task>, k: nat)
    requires IsHeap(s) && k < |s|
    ensures s[k].priority <= s[0].priority
    decreases k
  {
    if k > 0 {
      var p := Parent(k);
      assert OrderedEdge(s, p, k);
      HeapFrontIsMaxAt(s, p);
    }
  }

  /** The front of a non-empty heap is a maximum of its multiset of elements. */
  lemma HeapFrontIsMax(s: seq<Task>)
    requires IsHeap(s) && |s| > 0
    ensures forall x :: x in multiset(s) ==> x.priority <= s[0].priority
  {
    forall x | x in multiset(s) ensures x.priority <= s[0].priority {
      var k :| 0 <= k < |s| && s[k] == x;
      HeapFrontIsMaxAt(s, k);
    }
  }

  /** `s` with the elements at `i` and `j` exchanged. */
  function Swap(s: seq<Task>, i: nat, j: nat): seq<Task>
    requires i < |s| && j < |s|
  {
    s[i := s[j]][j := s[i]]
  }

  /** A swap rearranges the elements and never changes them. */
  lemma SwapKeepsElements(s: seq<Task>, i: nat, j: nat)
    requires i < |s| && j < |s|
    ensures multiset(Swap(s, i, j)) == multiset(s)
  {
  }

  /**
   * The state sift-up works in: a heap except that `s[k]` may outrank its
   * parent, while the children of `k` are still bounded by that parent.
   */
  ghost predicate HeapExceptUp(s: seq<Task>, k: nat) {
    && k < |s|
    && (forall i, j :: j != k ==> OrderedEdge(s, i, j))
    && (forall i, j :: OrderedAcross(s, i, k, j))
  }

  /**
   * The state sift-down works in: a heap except that `s[k]` may be outranked
   * by its children, while those children are still bounded by its parent.
   */
  ghost predicate HeapExceptDown(s: seq<Task>, k: nat) {
    && (forall i, j :: i != k ==> OrderedEdge(s, i, j))
    && (forall i, j :: OrderedAcross(s, i, k, j))
  }

  /** Appending to a heap leaves a heap except at the new last element. */
  lemma PushStart(s: seq<Task>, t: Task)
    requires IsHeap(s)
    ensures HeapExceptUp(s + [t], |s|)
  {
    var r := s + [t];
    forall i, j | j != |s| ensures OrderedEdge(r, i, j) {
      if 0 <= i < j < |s| {
        assert r[i] == s[i] && r[j] == s[j] && OrderedEdge(s, i, j);
      }
    }
  }

  /** Exchanging an element with a parent that it outranks moves the defect one level up. */
  lemma SiftUpStep(s: seq<Task>, k: nat)
    requires HeapExceptUp(s, k) && 0 < k && Less(s[Parent(k)], s[k])
    ensures HeapExceptUp(Swap(s, k, Parent(k)), Parent(k))
    ensures multiset(Swap(s, k, Parent(k))) == multiset(s)
  {
    SwapKeepsElements(s, k, Parent(k));
    var p := Parent(k);
    var r := Swap(s, k, p);
    forall i, j | j != p ensures OrderedEdge(r, i, j) {
      if 0 <= i < j < |r| && (j == 2 * i + 1 || j == 2 * i + 2) {
        if j == k {
        } else if i == k {
          assert r[j] == s[j] && OrderedAcross(s, p, k, j);
        } else if i == p {
          assert r[j] == s[j] && OrderedEdge(s, p, j);
        } else {
          assert r[i] == s[i] && r[j] == s[j] && OrderedEdge(s, i, j);
        }
      }
    }
    forall i, j ensures OrderedAcross(r, i, p, j) {
      if 0 <= i < p < j < |r| && (p == 2 * i + 1 || p == 2 * i + 2) && (j == 2 * p + 1 || j == 2 * p + 2) {
        assert r[i] == s[i] && OrderedEdge(s, i, p);
        if j != k {
          assert r[j] == s[j] && OrderedEdge(s, p, j);
        }
      }
    }
  }

  /** Sift-up stops at the root or below a parent that is not outranked: the whole is a heap. */
  lemma SiftUpDone(s: seq<Task>, k: nat)
    requires HeapExceptUp(s, k) && (k == 0 || !Less(s[Parent(k)], s[k]))
    ensures IsHeap(s)
  {
    forall i, j ensures OrderedEdge(s, i, j) {
      if j != k {
        assert OrderedEdge(s, i, j);
      }
    }
  }

  /** Exchanging the front and the back of a heap and dropping the back leaves a heap except at the front. */
  lemma PopStart(s: seq<Task>, r: seq<Task>, n: nat)
    requires IsHeap(s) && 0 < n == |s| && r == Swap(s, 0, n - 1)
    ensures r[n - 1] == s[0]
    ensures HeapExceptDown(r[..n - 1], 0)
    ensures multiset(s) == multiset(r[..n - 1]) + multiset{s[0]}
  {
    SwapKeepsElements(s, 0, n - 1);
    assert r == r[..n - 1] + [s[0]];
    var h := r[..n - 1];
    forall i, j | i != 0 ensures OrderedEdge(h, i, j) {
      if 0 <= i < j < |h| {
        assert h[i] == s[i] && h[j] == s[j] && OrderedEdge(s, i, j);
      }
    }
  }

  /** Exchanging an element with its larger child, when that child outranks it, moves the defect one level down. */
  lemma SiftDownStep(s: seq<Task>, k: nat, c: nat)
    requires HeapExceptDown(s, k) && c < |s| && (c == 2 * k + 1 || c == 2 * k + 2)
    requires 2 * k + 1 < |s| ==> !Less(s[c], s[2 * k + 1])
    requires 2 * k + 2 < |s| ==> !Less(s[c], s[2 * k + 2])
    requires Less(s[k], s[c])
    ensures HeapExceptDown(Swap(s, k, c), c)
    ensures multiset(Swap(s, k, c)) == multiset(s)
  {
    SwapKeepsElements(s, k, c);
    var r := Swap(s, k, c);
    forall i, j | i != c ensures OrderedEdge(r, i, j) {
      if 0 <= i < j < |r| && (j == 2 * i + 1 || j == 2 * i + 2) {
        if j == c {
        } else if i == k {
          assert r[j] == s[j];
        } else if j == k {
          assert r[i] == s[i] && OrderedAcross(s, i, k, c);
        } else {
          assert r[i] == s[i] && r[j] == s[j] && OrderedEdge(s, i, j);
        }
      }
    }
    forall i, j ensures OrderedAcross(r, i, c, j) {
      if 0 <= i < c < j < |r| && (c == 2 * i + 1 || c == 2 * i + 2) && (j == 2 * c + 1 || j == 2 * c + 2) {
        assert i == k;
        assert r[j] == s[j] && OrderedEdge(s, c, j);
      }
    }
  }

  /** Sift-down stops where no child outranks the element: the whole is a heap. */
  lemma SiftDownDone(s: seq<Task>, k: nat)
    requires HeapExceptDown(s, k)
    requires 2 * k + 1 < |s| ==> !Less(s[k], s[2 * k + 1])
    requires 2 * k + 2 < |s| ==> !Less(s[k], s[2 * k + 2])
    ensures IsHeap(s)
  {
    forall i, j ensures OrderedEdge(s, i, j) {
      if i != k {
        assert OrderedEdge(s, i, j);
      }
    }
  }

  /** One "pop the maximum" step: `t` is taken out of `before`, leaving `after`, and nothing left outranks it. */
  ghost predicate PopsMax(before: multiset<Task>, t: Task, after: multiset<Task>) {
    && t in before
    && before == after + multiset{t}
    && forall x :: x in after ==> x.priority <= t.priority
  }

  /** `out[i]` was popped from `states[i]`, leaving `states[i + 1]`, for every step `i`. */
  ghost predicate PopChain(states: seq<multiset<Task>>, out: seq<Task>) {
    && |states| == |out| + 1
    && forall i :: 0 <= i < |out| ==> PopsMax(states[i], out[i], states[i + 1])
  }

  /** Priorities never increase along `out`. */
  ghost predicate NonIncreasing(out: seq<Task>) {
    forall i, j :: 0 <= i < j < |out| ==> out[j].priority <= out[i].priority
  }

  /** Repeated pops of the maximum yield non-increasing priorities. */
  lemma {:induction false} RepeatedPopsNonIncreasing(states: seq<multiset<Task>>, out: seq<Task>)
    requires PopChain(states, out)
    ensures NonIncreasing(out)
    decreases |out|
  {
    if |out| > 1 {
      assert PopChain(states[1..], out[1..]) by {
        forall i | 0 <= i < |out| - 1 ensures PopsMax(states[1..][i], out[1..][i], states[1..][i + 1]) {
          assert PopsMax(states[i + 1], out[i + 1], states[i + 2]);
        }
      }
      RepeatedPopsNonIncreasing(states[1..], out[1..]);
      assert PopsMax(states[0], out[0], states[1]);
      assert PopsMax(states[1], out[1], states[2]);
      forall i, j | 0 <= i < j < |out| ensures out[j].priority <= out[i].priority {
        if i > 0 {
          assert out[j] == out[1..][j - 1] && out[i] == out[1..][i - 1];
        } else if j > 1 {
          assert out[j] == out[1..][j - 1] && out[1] == out[1..][0];
        }
      }
    }
  }

  /** Nothing is lost or invented by a run of pops: what was there is what came out plus what is left. */
  lemma {:induction false} PopChainContents(states: seq<multiset<Task>>, out: seq<Task>)
    requires PopChain(states, out)
    ensures states[0] == multiset(out) + states[|out|]
    decreases |out|
  {
    if |out| > 0 {
      assert PopChain(states[1..], out[1..]) by {
        forall i | 0 <= i < |out| - 1 ensures PopsMax(states[1..][i], out[1..][i], states[1..][i + 1]) {
          assert PopsMax(states[i + 1], out[i + 1], states[i + 2]);
        }
      }
      PopChainContents(states[1..], out[1..]);
      assert PopsMax(states[0], out[0], states[1]);
      assert out == [out[0]] + out[1..];
    }
  }

  /** Dropping the element at `k` keeps a sequence non-increasing and removes exactly that element. */
  lemma NonIncreasingRemove(b: seq<Task>, k: nat)
    requires NonIncreasing(b) && k < |b|
    ensures NonIncreasing(b[..k] + b[k + 1..])
    ensures multiset(b) == multiset(b[..k] + b[k + 1..]) + multiset{b[k]}
  {
    var rest := b[..k] + b[k + 1..];
    assert b == b[..k] + [b[k]] + b[k + 1..];
    forall i, l | 0 <= i < l < |rest| ensures rest[l].priority <= rest[i].priority {
      var bi := if i < k then i else i + 1;
      var bl := if l < k then l else l + 1;
      assert rest[i] == b[bi] && rest[l] == b[bl];
    }
  }

  /** Dropping the front keeps a sequence non-increasing and removes exactly the front. */
  lemma NonIncreasingTail(a: seq<Task>)
    requires NonIncreasing(a) && |a| > 0
    ensures NonIncreasing(a[1..])
    ensures multiset(a) == multiset(a[1..]) + multiset{a[0]}
  {
    assert a == [a[0]] + a[1..];
    forall i, l | 0 <= i < l < |a| - 1 ensures a[1..][l].priority <= a[1..][i].priority {
      assert a[1..][l] == a[l + 1] && a[1..][i] == a[i + 1];
    }
  }

  /**
   * If `a` without its front agrees in priorities with `b` without `b[k]`, and
   * `b[k]` has the front priority of `a` and `b`, then `a` and `b` agree.
   */
  lemma ReinsertAt(a: seq<Task>, b: seq<Task>, k: nat)
    requires NonIncreasing(b) && 0 < |a| == |b| && k < |b|
    requires b[0].priority == a[0].priority == b[k].priority
    requires forall i :: 0 <= i < |b| - 1 ==> a[1..][i].priority == (b[..k] + b[k + 1..])[i].priority
    ensures forall i :: 0 <= i < |a| ==> a[i].priority == b[i].priority
  {
    var rest := b[..k] + b[k + 1..];
    forall i | 0 < i < |a| ensures a[i].priority == b[i].priority {
      assert a[i] == a[1..][i - 1];
      if i <= k {
        assert rest[i - 1] == b[i - 1];
        assert b[i].priority <= b[i - 1].priority;
        assert b[k].priority <= b[i].priority;
      } else {
        assert rest[i - 1] == b[i];
      }
    }
  }

  /** Adding the same task to two multisets keeps them apart or together. */
  lemma UnionCancel(x: multiset<Task>, y: multiset<Task>, t: Task)
    requires x + multiset{t} == y + multiset{t}
    ensures x == y
  {
    forall z ensures x[z] == y[z] {
      assert (x + multiset{t})[z] == (y + multiset{t})[z];
    }
  }

  /**
   * Two non-increasing arrangements of the same tasks agree on the priority at
   * every position: the order of priorities is determined, and only tasks of
   * equal priority may come out in either order.
   */
  lemma {:induction false} NonIncreasingPrioritiesDetermined(a: seq<Task>, b: seq<Task>)
    requires NonIncreasing(a) && NonIncreasing(b) && multiset(a) == multiset(b)
    ensures |a| == |b|
    ensures forall i :: 0 <= i < |a| ==> a[i].priority == b[i].priority
    decreases |a|
  {
    assert |a| == |multiset(a)| == |multiset(b)| == |b|;
    if |a| > 0 {
      assert a[0] in multiset(b);
      var k :| 0 <= k < |b| && b[k] == a[0];
      assert b[0] in multiset(a);
      var j :| 0 <= j < |a| && a[j] == b[0];
      assert b[0].priority == a[0].priority;
      var rest := b[..k] + b[k + 1..];
      NonIncreasingRemove(b, k);
      NonIncreasingTail(a);
      UnionCancel(multiset(a[1..]), multiset(rest), a[0]);
      NonIncreasingPrioritiesDetermined(a[1..], rest);
      ReinsertAt(a, b, k);
    }
  }
}
