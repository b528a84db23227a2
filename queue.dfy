/**
 * The intrusive circular doubly-linked lists of source/libs/function/src/tudf.c (the
 * QUEUE macros, as in libuv). A QUEUE is a pair of pointers embedded in a task node; a
 * list is a head QUEUE whose `next` pointer leads through the members and back to the
 * head, with `prev` pointing the other way.
 *
 * Every link of one kind (the `recvTaskQueue` fields, say) lives in one `QueueLinks`
 * object: a node is a number, and `next` and `prev` map it to its neighbours. A list is
 * described by its head node and the sequence of its members (`IsList`), and each macro
 * is a method that rewrites the pointers the way the macro does and is proved to turn
 * that sequence into the expected one. The task queues of the client model are these
 * sequences.
 */
module IntrusiveQueue {

  type Node = nat

  predicate Distinct(c: seq<Node>)
  {
    forall i, j :: 0 <= i < j < |c| ==> c[i] != c[j]
  }

  /** The node after the head: the first member, or the head of an empty list. */
  function First(h: Node, c: seq<Node>): Node
  {
    if c == [] then h else c[0]
  }

  /** The node before the head: the last member, or the head of an empty list. */
  function Last(h: Node, c: seq<Node>): Node
  {
    if c == [] then h else c[|c| - 1]
  }

  /** Following `next` from h visits c in order and returns to h, and `prev` is the same
    * ring backwards. */
  ghost predicate IsList(next: map<Node, Node>, prev: map<Node, Node>, h: Node, c: seq<Node>)
  {
    && h !in c && Distinct(c)
    && h in next && h in prev
    && (forall x :: x in c ==> x in next && x in prev)
    && next[h] == First(h, c) && prev[First(h, c)] == h
    && prev[h] == Last(h, c) && next[Last(h, c)] == h
    && (forall i :: 0 <= i < |c| - 1 ==> next[c[i]] == c[i + 1] && prev[c[i + 1]] == c[i])
  }

  /** A list whose head and members keep their links is still the same list. */
  lemma ListUnaffected(next: map<Node, Node>, prev: map<Node, Node>, next': map<Node, Node>, prev': map<Node, Node>,
                       h: Node, c: seq<Node>)
    requires IsList(next, prev, h, c)
    requires forall x :: x == h || x in c ==> x in next' && next'[x] == next[x] && x in prev' && prev'[x] == prev[x]
    ensures IsList(next', prev', h, c)
  {
    forall i | 0 <= i < |c| - 1
      ensures next'[c[i]] == c[i + 1] && prev'[c[i + 1]] == c[i]
    {
      assert c[i] in c && c[i + 1] in c;
    }
    if c != [] {
      assert c[0] in c && c[|c| - 1] in c;
    }
  }

  class QueueLinks {
    var next: map<Node, Node>
    var prev: map<Node, Node>

    constructor ()
      ensures next == map[] && prev == map[]
    {
      next, prev := map[], map[];
    }

    /** QUEUE_INIT: h becomes an empty list. */
    method Init(h: Node)
      modifies this
      ensures IsList(next, prev, h, [])
      ensures next == old(next)[h := h] && prev == old(prev)[h := h]
    {
      next := next[h := h];
      prev := prev[h := h];
    }

    /** QUEUE_EMPTY: the head's successor is the head itself. */
    method IsEmpty(h: Node, ghost c: seq<Node>) returns (empty: bool)
      requires IsList(next, prev, h, c)
      ensures empty <==> c == []
    {
      if c != [] {
        assert c[0] in c;
      }
      empty := next[h] == h;
    }

    /** QUEUE_HEAD: the first member of a non-empty list. */
    method Head(h: Node, ghost c: seq<Node>) returns (first: Node)
      requires IsList(next, prev, h, c) && c != []
      ensures first == c[0]
    {
      first := next[h];
    }

    /** QUEUE_INSERT_TAIL: q joins the list after its last member. */
    method InsertTail(h: Node, q: Node, ghost c: seq<Node>)
      requires IsList(next, prev, h, c) && q != h && q !in c
      modifies this
      ensures IsList(next, prev, h, c + [q])
      ensures next == old(next)[q := h][Last(h, c) := q]
      ensures prev == old(prev)[q := Last(h, c)][h := q]
    {
      ghost var last := Last(h, c);
      if c != [] {
        assert c[|c| - 1] in c;
      }
      next := next[q := h];
      prev := prev[q := prev[h]];
      next := next[prev[q] := q];
      prev := prev[h := q];
      InsertTailShape(old(next), old(prev), h, q, c);
    }

    /** QUEUE_INSERT_HEAD: q becomes the first member. */
    method InsertHead(h: Node, q: Node, ghost c: seq<Node>)
      requires IsList(next, prev, h, c) && q != h && q !in c
      modifies this
      ensures IsList(next, prev, h, [q] + c)
      ensures next == old(next)[q := First(h, c)][h := q]
      ensures prev == old(prev)[q := h][First(h, c) := q]
    {
      if c != [] {
        assert c[0] in c;
      }
      next := next[q := next[h]];
      prev := prev[q := h];
      prev := prev[next[q] := q];
      next := next[h := q];
      InsertHeadShape(old(next), old(prev), h, q, c);
    }

    /** QUEUE_REMOVE: the member at index i is unlinked; only its two neighbours change.
      * The removed node keeps its stale pointers, as in the source. */
    method Remove(q: Node, ghost h: Node, ghost c: seq<Node>, ghost i: nat)
      requires IsList(next, prev, h, c) && i < |c| && c[i] == q
      modifies this
      ensures IsList(next, prev, h, c[..i] + c[i + 1..])
      ensures next == old(next)[Before(h, c, i) := After(h, c, i)]
      ensures prev == old(prev)[After(h, c, i) := Before(h, c, i)]
    {
      assert q in c;
      NeighboursOf(next, prev, h, c, i);
      next := next[prev[q] := next[q]];
      prev := prev[next[q] := prev[q]];
      RemoveShape(old(next), old(prev), h, c, i);
    }

    /** QUEUE_MOVE: every member of h moves, in order, to the list headed by n, and h is
      * left empty. With members this is QUEUE_SPLIT at the first member. */
    method Move(h: Node, n: Node, ghost c: seq<Node>)
      requires IsList(next, prev, h, c) && n != h && n !in c
      modifies this
      ensures IsList(next, prev, h, []) && IsList(next, prev, n, c)
      ensures forall x :: x != h && x != n && x !in c && x in old(next) ==> x in next && next[x] == old(next)[x]
      ensures forall x :: x != h && x != n && x !in c && x in old(prev) ==> x in prev && prev[x] == old(prev)[x]
    {
      if c != [] {
        assert c[0] in c;
      }
      if next[h] == h {
        Init(n);
      } else {
        var q := next[h];
        assert c != [] && q == c[0] && c[0] in c && c[|c| - 1] in c;
        // QUEUE_SPLIT(h, q, n)
        prev := prev[n := prev[h]];
        next := next[prev[n] := n];
        next := next[n := q];
        prev := prev[h := prev[q]];
        next := next[prev[h] := h];
        prev := prev[q := n];
        MoveShape(old(next), old(prev), h, n, c);
      }
    }

    /** QUEUE_ADD: the members of n are appended to h. n must have members; its head is
      * left with stale pointers. */
    method Add(h: Node, n: Node, ghost ch: seq<Node>, ghost cn: seq<Node>)
      requires IsList(next, prev, h, ch) && IsList(next, prev, n, cn) && cn != []
      requires n != h && n !in ch && h !in cn
      requires forall x :: x in ch ==> x !in cn
      modifies this
      ensures IsList(next, prev, h, ch + cn)
      ensures next == old(next)[Last(h, ch) := cn[0]][cn[|cn| - 1] := h]
      ensures prev == old(prev)[cn[0] := Last(h, ch)][h := cn[|cn| - 1]]
      ensures next[n] == old(next)[n] && prev[n] == old(prev)[n]
    {
      assert cn[0] in cn && cn[|cn| - 1] in cn;
      if ch != [] {
        assert ch[0] in ch && ch[|ch| - 1] in ch;
      }
      next := next[prev[h] := next[n]];
      prev := prev[next[n] := prev[h]];
      prev := prev[h := prev[n]];
      next := next[prev[h] := h];
      AddShape(old(next), old(prev), h, n, ch, cn);
    }
  }

  /** The queue handling of udfClientAsyncCb on the links themselves: QUEUE_MOVE takes the
    * submit list into the local list wq, and each task popped from the head of wq is
    * appended to the in-flight list, whose links are another field of the same nodes.
    * The in-flight list ends with the submitted tasks after its own, in submission
    * order, and the submit list is left empty. */
  method DrainSubmitted(recv: QueueLinks, submitHead: Node, wqHead: Node, proc: QueueLinks, procHead: Node,
                        ghost submitted: seq<Node>, ghost inFlight: seq<Node>)
    requires recv != proc
    requires IsList(recv.next, recv.prev, submitHead, submitted)
    requires wqHead != submitHead && wqHead !in submitted
    requires IsList(proc.next, proc.prev, procHead, inFlight)
    requires forall x :: x in submitted ==> x !in inFlight && x != procHead
    modifies recv, proc
    ensures IsList(recv.next, recv.prev, submitHead, [])
    ensures IsList(proc.next, proc.prev, procHead, inFlight + submitted)
  {
    recv.Move(submitHead, wqHead, submitted);
    ghost var rest, done := submitted, inFlight;
    var empty := recv.IsEmpty(wqHead, rest);
    while !empty
      invariant IsList(recv.next, recv.prev, wqHead, rest)
      invariant IsList(recv.next, recv.prev, submitHead, [])
      invariant IsList(proc.next, proc.prev, procHead, done)
      invariant done + rest == inFlight + submitted
      invariant forall x :: x in rest ==> x !in done && x != procHead
      invariant empty <==> rest == []
      decreases |rest|
    {
      var h := recv.Head(wqHead, rest);
      ghost var next0, prev0 := recv.next, recv.prev;
      recv.Remove(h, wqHead, rest, 0);
      ListUnaffected(next0, prev0, recv.next, recv.prev, submitHead, []);
      assert h in rest;
      proc.InsertTail(procHead, h, done);
      ShiftHead(done, rest);
      done, rest := done + [h], rest[1..];
      empty := recv.IsEmpty(wqHead, rest);
    }
    assert done == inFlight + submitted;
  }

  /** Moving the first element of rest to the end of done keeps their concatenation. */
  lemma ShiftHead(done: seq<Node>, rest: seq<Node>)
    requires rest != [] && Distinct(rest)
    ensures rest[..0] + rest[1..] == rest[1..]
    ensures (done + [rest[0]]) + rest[1..] == done + rest
    ensures forall x :: x in rest[1..] ==> x in rest && x != rest[0]
  {
    assert rest == [rest[0]] + rest[1..];
    forall x | x in rest[1..] ensures x in rest && x != rest[0] {
      var j :| 0 <= j < |rest[1..]| && rest[1..][j] == x;
      assert rest[j + 1] == x;
    }
  }

  /** The neighbour before and after member i. */
  function Before(h: Node, c: seq<Node>, i: nat): Node
    requires i < |c|
  {
    if i == 0 then h else c[i - 1]
  }

  function After(h: Node, c: seq<Node>, i: nat): Node
    requires i < |c|
  {
    if i == |c| - 1 then h else c[i + 1]
  }

  lemma NeighboursOf(next: map<Node, Node>, prev: map<Node, Node>, h: Node, c: seq<Node>, i: nat)
    requires IsList(next, prev, h, c) && i < |c|
    ensures prev[c[i]] == Before(h, c, i) && next[c[i]] == After(h, c, i)
  {
    if i > 0 {
      assert prev[c[i - 1 + 1]] == c[i - 1];
    }
  }

  lemma InsertTailShape(next: map<Node, Node>, prev: map<Node, Node>, h: Node, q: Node, c: seq<Node>)
    requires IsList(next, prev, h, c) && q != h && q !in c
    ensures IsList(next[q := h][Last(h, c) := q], prev[q := Last(h, c)][h := q], h, c + [q])
  {
    var next', prev' := next[q := h][Last(h, c) := q], prev[q := Last(h, c)][h := q];
    var c' := c + [q];
    assert Distinct(c') by {
      forall i, j | 0 <= i < j < |c'| ensures c'[i] != c'[j] {
        if j < |c| {
          assert c'[i] == c[i] && c'[j] == c[j];
        } else {
          assert c'[i] == c[i] && c[i] in c;
        }
      }
    }
    forall i | 0 <= i < |c'| - 1
      ensures next'[c'[i]] == c'[i + 1] && prev'[c'[i + 1]] == c'[i]
    {
      assert c'[i] == c[i] && c[i] in c;
      if i < |c| - 1 {
        assert c'[i + 1] == c[i + 1] && c[i + 1] in c;
      }
    }
  }

  lemma InsertHeadShape(next: map<Node, Node>, prev: map<Node, Node>, h: Node, q: Node, c: seq<Node>)
    requires IsList(next, prev, h, c) && q != h && q !in c
    ensures IsList(next[q := First(h, c)][h := q], prev[q := h][First(h, c) := q], h, [q] + c)
  {
    var next', prev' := next[q := First(h, c)][h := q], prev[q := h][First(h, c) := q];
    var c' := [q] + c;
    assert Distinct(c') by {
      forall i, j | 0 <= i < j < |c'| ensures c'[i] != c'[j] {
        assert c'[j] == c[j - 1] && c[j - 1] in c;
        if i > 0 {
          assert c'[i] == c[i - 1];
        }
      }
    }
    if c != [] {
      assert c[0] in c && c[|c| - 1] in c;
    }
    forall i | 0 <= i < |c'| - 1
      ensures next'[c'[i]] == c'[i + 1] && prev'[c'[i + 1]] == c'[i]
    {
      assert c'[i + 1] == c[i] && c[i] in c;
      if i > 0 {
        assert c'[i] == c[i - 1] && c[i - 1] in c;
        assert next[c[i - 1]] == c[i - 1 + 1];
      }
    }
  }

  /** The members left after taking out the one at index i: still distinct, and each
    * one of the old members other than c[i]. */
  lemma RemovedMembers(c: seq<Node>, i: nat)
    requires Distinct(c) && i < |c|
    ensures var c' := c[..i] + c[i + 1..];
      && |c'| == |c| - 1
      && (forall j :: 0 <= j < i ==> c'[j] == c[j])
      && (forall j :: i <= j < |c'| ==> c'[j] == c[j + 1])
      && (forall x :: x in c' ==> x in c && x != c[i])
      && Distinct(c')
  {
    var c' := c[..i] + c[i + 1..];
    forall x | x in c' ensures x in c && x != c[i] {
      var j :| 0 <= j < |c'| && c'[j] == x;
      if j < i { assert c[j] == x; } else { assert c[j + 1] == x; }
    }
    forall j, k | 0 <= j < k < |c'| ensures c'[j] != c'[k] {
      var j0 := if j < i then j else j + 1;
      var k0 := if k < i then k else k + 1;
      assert c'[j] == c[j0] && c'[k] == c[k0] && j0 < k0;
    }
  }

  lemma RemoveShape(next: map<Node, Node>, prev: map<Node, Node>, h: Node, c: seq<Node>, i: nat)
    requires IsList(next, prev, h, c) && i < |c|
    ensures IsList(next[Before(h, c, i) := After(h, c, i)], prev[After(h, c, i) := Before(h, c, i)],
                   h, c[..i] + c[i + 1..])
  {
    var b, a := Before(h, c, i), After(h, c, i);
    var next', prev' := next[b := a], prev[a := b];
    var c' := c[..i] + c[i + 1..];
    RemovedMembers(c, i);
    if i > 0 {
      assert c[i - 1] in c;
    }
    if i < |c| - 1 {
      assert c[i + 1] in c;
    }
    forall j | 0 <= j < |c'| - 1
      ensures next'[c'[j]] == c'[j + 1] && prev'[c'[j + 1]] == c'[j]
    {
      if j < i - 1 {
        assert c'[j] == c[j] && c'[j + 1] == c[j + 1];
        assert c[j] != b && c[j + 1] != a;
      } else if j == i - 1 {
        assert c'[j] == b && c'[j + 1] == c[i + 1] == a;
      } else {
        assert c'[j] == c[j + 1] && c'[j + 1] == c[j + 2];
        assert c[j + 1] != b && c[j + 2] != a;
      }
    }
    assert First(h, c') == (if i == 0 then a else c[0]);
    assert Last(h, c') == (if i == |c| - 1 then b else c[|c| - 1]);
  }

  lemma MoveShape(next: map<Node, Node>, prev: map<Node, Node>, h: Node, n: Node, c: seq<Node>)
    requires IsList(next, prev, h, c) && n != h && n !in c && c != []
    ensures var last, q := c[|c| - 1], c[0];
      var next' := next[last := n][n := q][h := h];
      var prev' := prev[n := last][h := h][q := n];
      && IsList(next', prev', h, []) && IsList(next', prev', n, c)
  {
    var last, q := c[|c| - 1], c[0];
    var next' := next[last := n][n := q][h := h];
    var prev' := prev[n := last][h := h][q := n];
    assert last in c && q in c;
    forall i | 0 <= i < |c| - 1
      ensures next'[c[i]] == c[i + 1] && prev'[c[i + 1]] == c[i]
    {
      assert c[i] != last && c[i + 1] != q;
    }
  }

  lemma AddShape(next: map<Node, Node>, prev: map<Node, Node>, h: Node, n: Node, ch: seq<Node>, cn: seq<Node>)
    requires IsList(next, prev, h, ch) && IsList(next, prev, n, cn) && cn != []
    requires n != h && n !in ch && h !in cn
    requires forall x :: x in ch ==> x !in cn
    ensures var lh, fn, ln := Last(h, ch), cn[0], cn[|cn| - 1];
      var next' := next[lh := fn][ln := h];
      var prev' := prev[fn := lh][h := ln];
      IsList(next', prev', h, ch + cn)
  {
    var lh, fn, ln := Last(h, ch), cn[0], cn[|cn| - 1];
    var next' := next[lh := fn][ln := h];
    var prev' := prev[fn := lh][h := ln];
    var c := ch + cn;
    assert fn in cn && ln in cn;
    if ch != [] {
      assert ch[0] in ch && ch[|ch| - 1] in ch;
    }
    assert Distinct(c) by {
      forall i, j | 0 <= i < j < |c| ensures c[i] != c[j] {
        if j < |ch| {
          assert c[i] == ch[i] && c[j] == ch[j];
        } else if i >= |ch| {
          assert c[i] == cn[i - |ch|] && c[j] == cn[j - |ch|];
        } else {
          assert c[i] == ch[i] && ch[i] in ch && c[j] == cn[j - |ch|] && cn[j - |ch|] in cn;
        }
      }
    }
    forall i | 0 <= i < |c| - 1
      ensures next'[c[i]] == c[i + 1] && prev'[c[i + 1]] == c[i]
    {
      if i < |ch| - 1 {
        assert c[i] == ch[i] && c[i + 1] == ch[i + 1] && ch[i] in ch && ch[i + 1] in ch;
        assert ch[i] != lh || i == |ch| - 1;
      } else if i == |ch| - 1 {
        assert c[i] == lh && c[i + 1] == fn;
      } else {
        var k := i - |ch|;
        assert c[i] == cn[k] && c[i + 1] == cn[k + 1] && cn[k] in cn && cn[k + 1] in cn;
        assert cn[k] != ln && cn[k + 1] != fn;
      }
    }
  }
}
