/**
 Singly linked lists threaded through a fixed pool of nodes: `next[i]` is the node
 after node i, or NONE. Frame buffers and messages are queued this way.
 */
module NodeList {
  const NONE := -1

  predicate NoDup(s: seq<nat>) {
    forall j, k :: 0 <= j < k < |s| ==> s[j] != s[k]
  }

  /** The node behind the k-th, or NONE. */
  function After(s: seq<nat>, k: nat): int
    requires k < |s|
  {
    if k + 1 < |s| then s[k + 1] else NONE
  }

  /** Following the links from head visits exactly s and then ends. */
  ghost predicate Linked(next: seq<int>, head: int, s: seq<nat>) {
    && NoDup(s)
    && (forall k :: 0 <= k < |s| ==> s[k] < |next|)
    && head == (if s == [] then NONE else s[0])
    && (forall k :: 0 <= k < |s| ==> next[s[k]] == After(s, k))
  }

  lemma LinkedTail(next: seq<int>, head: int, s: seq<nat>)
    requires Linked(next, head, s) && s != []
    ensures Linked(next, next[s[0]], s[1..])
  {
    var t := s[1..];
    assert next[s[0]] == After(s, 0);
    forall k | 0 <= k < |t| ensures next[t[k]] == After(t, k) {
      assert t[k] == s[k + 1] && next[s[k + 1]] == After(s, k + 1);
    }
  }

  /** So the links alone determine what is in the list. */
  lemma {:induction false} LinkedUnique(next: seq<int>, head: int, s: seq<nat>, t: seq<nat>)
    requires Linked(next, head, s) && Linked(next, head, t)
    ensures s == t
    decreases |s|
  {
    if s != [] && t != [] {
      assert s[0] == t[0];
      var rest := next[s[0]];
      LinkedTail(next, head, s);
      LinkedTail(next, head, t);
      LinkedUnique(next, rest, s[1..], t[1..]);
      assert s == [s[0]] + s[1..] && t == [t[0]] + t[1..];
    }
  }

  /** A list is not disturbed by changes to nodes outside it. */
  lemma LinkedElsewhere(next: seq<int>, next': seq<int>, head: int, s: seq<nat>)
    requires Linked(next, head, s) && |next| == |next'|
    requires forall i :: 0 <= i < |next| && i in s ==> next'[i] == next[i]
    ensures Linked(next', head, s)
  {
  }

  /** A node hung behind the last one. */
  lemma LinkedLonger(next: seq<int>, head: int, s: seq<nat>, p: nat)
    requires Linked(next, head, s) && s != [] && p < |next| && p !in s
    ensures s[|s| - 1] < |next| && Linked(next[s[|s| - 1] := p][p := NONE], head, s + [p])
  {
    var n := |s| - 1;
    var t, next' := s + [p], next[s[n] := p][p := NONE];
    forall k | 0 <= k < |t| ensures next'[t[k]] == After(t, k) {
      if k < n {
        assert t[k] == s[k] && s[k] != s[n] && next[s[k]] == After(s, k);
      }
    }
  }

  /** Walks to the last node. */
  method Last(next: array<int>, head: int, ghost s: seq<nat>) returns (cur: int)
    requires Linked(next[..], head, s) && head != NONE
    ensures s != [] && cur == s[|s| - 1] && cur < next.Length
  {
    cur := head;
    ghost var k := 0;
    while next[cur] != NONE
      invariant 0 <= k < |s| && cur == s[k]
      decreases |s| - k
    {
      assert next[s[k]] == After(s, k);
      cur := next[cur];
      k := k + 1;
    }
    assert next[s[k]] == After(s, k);
  }

  lemma LinkedOne(next: seq<int>, s: seq<nat>, p: nat)
    requires Linked(next, NONE, s) && p < |next|
    ensures s == [] && Linked(next[p := NONE], p, s + [p])
  {
  }

  /** Walks to the last node and hangs p behind it. */
  method Enqueue(next: array<int>, head: int, p: nat, ghost s: seq<nat>) returns (head': int)
    requires Linked(next[..], head, s) && p < next.Length && p !in s
    modifies next
    ensures Linked(next[..], head', s + [p])
    ensures forall i :: 0 <= i < next.Length && i !in s && i != p ==> next[i] == old(next[i])
  {
    hide Linked;
    ghost var before := next[..];
    if head == NONE {
      LinkedOne(before, s, p);
      next[p] := NONE;
      assert next[..] == before[p := NONE];
      return p;
    }
    var cur := Last(next, head, s);
    LinkedLonger(before, head, s, p);
    next[cur] := p;
    next[p] := NONE;
    head' := head;
    assert next[..] == before[cur := p][p := NONE];
  }

  /** Takes the first node off. */
  method Dequeue(next: array<int>, head: int, ghost s: seq<nat>) returns (head': int)
    requires Linked(next[..], head, s) && head != NONE
    modifies next
    ensures s != [] && head == s[0] && Linked(next[..], head', s[1..])
    ensures forall i :: 0 <= i < next.Length && i != head ==> next[i] == old(next[i])
  {
    LinkedTail(next[..], head, s);
    head' := next[head];
    ghost var before := next[..];
    next[head] := NONE;
    assert forall i :: 0 <= i < |s[1..]| ==> s[1..][i] != head;
    LinkedElsewhere(before, next[..], head', s[1..]);
  }
}
