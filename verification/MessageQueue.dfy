/**
 The message queue: a list threaded through a fixed pool of nodes, each marked valid
 while it holds a message, and a semaphore that is posted outside the lock.
 */
module MessageQueue {
  import opened Common
  import opened NodeList

  datatype Message = Message(messageId: int, params: seq<int>)

  /** What a post makes of a queue of at most max messages. */
  function Posted<T>(q: seq<T>, max: nat, m: T): seq<T> {
    if |q| >= max then q else q + [m]
  }

  /** What a get leaves of it. */
  function Taken<T>(q: seq<T>): seq<T> {
    if q == [] then [] else q[1..]
  }

  // ----- a free node exists

  function Below(n: nat): (s: set<int>)
    ensures |s| == n && forall i :: i in s <==> 0 <= i < n
  {
    if n == 0 then {} else Below(n - 1) + {n - 1}
  }

  function Nodes(s: seq<nat>): (t: set<int>)
    ensures |t| <= |s| && forall i :: i in s ==> i in t
  {
    if s == [] then {} else {s[0]} + Nodes(s[1..])
  }

  /** Fewer queued nodes than nodes: one of them is not queued. */
  lemma SomeNodeIsFree(s: seq<nat>, n: nat)
    requires |s| < n
    ensures exists i :: 0 <= i < n && i !in s
  {
    if forall i: nat :: 0 <= i < n ==> i in s {
      assert forall i :: i in Below(n) ==> i in Nodes(s) by {
        forall i | i in Below(n) ensures i in Nodes(s) {
          var k: nat := i;
          assert k in s;
        }
      }
      assert Below(n) <= Nodes(s);
      Subset(Below(n), Nodes(s));
    }
  }

  lemma Subset(a: set<int>, b: set<int>)
    requires a <= b
    ensures |a| <= |b|
  {
    assert b == a + (b - a);
    assert |b| == |a| + |b - a|;
  }

  /** The messages in the nodes s. */
  function At(ms: seq<Message>, s: seq<nat>): (r: seq<Message>)
    requires forall k :: 0 <= k < |s| ==> s[k] < |ms|
    ensures |r| == |s|
  {
    seq(|s|, k requires 0 <= k < |s| => ms[s[k]])
  }

  lemma AtPut(ms: seq<Message>, s: seq<nat>, i: nat, m: Message)
    requires forall k :: 0 <= k < |s| ==> s[k] < |ms|
    requires i < |ms| && i !in s
    ensures At(ms[i := m], s + [i]) == At(ms, s) + [m]
  {
  }

  lemma AtTail(ms: seq<Message>, s: seq<nat>)
    requires s != [] && NoDup(s) && forall k :: 0 <= k < |s| ==> s[k] < |ms|
    ensures At(ms, s) == [ms[s[0]]] + At(ms, s[1..])
    ensures forall i :: i in s[1..] <==> i in s && i != s[0]
  {
    assert s == [s[0]] + s[1..];
  }

  class MessageQueue {
    const next: array<int>
    const valid: array<bool>
    const msg: array<Message>
    var pHead: int
    var nCount: int
    var sem: nat
    ghost var order: seq<nat>

    /** The list visits exactly the valid nodes, and nCount is its length. */
    ghost predicate Valid()
      reads this`pHead, this`nCount, this`order, next, valid, msg
    {
      && next.Length == valid.Length == msg.Length
      && Linked(next[..], pHead, order)
      && (forall i :: 0 <= i < valid.Length ==> (valid[i] <==> i in order))
      && nCount == |order|
    }

    /** The messages in the order of posting. */
    ghost function Contents(): (s: seq<Message>)
      requires Valid()
      reads this`pHead, this`nCount, this`order, next, valid, msg
      ensures |s| == nCount
    {
      At(msg[..], order)
    }

    constructor (nMaxMessageNum: nat)
      ensures Valid() && fresh(next) && fresh(valid) && fresh(msg)
      ensures valid.Length == nMaxMessageNum && Contents() == [] && sem == 0
    {
      next := new int[nMaxMessageNum](_ => NONE);
      valid := new bool[nMaxMessageNum](_ => false);
      msg := new Message[nMaxMessageNum](_ => Message(0, []));
      pHead, nCount, sem, order := NONE, 0, 0, [];
    }

    /** The locked part of a post. The semaphore follows outside the lock. */
    method PostLocked(m: Message) returns (ok: bool)
      requires Valid()
      modifies this`pHead, this`nCount, this`order, next, valid, msg
      ensures Valid() && (ok <==> |old(Contents())| < valid.Length)
      ensures Contents() == Posted(old(Contents()), valid.Length, m)
    {
      if nCount >= valid.Length {
        return false;
      }
      var node := FindFree();
      PutBehind(node, m);
      ok := true;
    }

    /** The first node that holds no message. */
    method FindFree() returns (node: nat)
      requires Valid() && nCount < valid.Length
      ensures node < valid.Length && !valid[node] && forall i :: 0 <= i < node ==> valid[i]
    {
      assert NoDup(order) && forall k :: 0 <= k < |order| ==> order[k] < valid.Length;
      SomeNodeIsFree(order, valid.Length);
      hide Linked, NoDup;
      node := 0;
      while node < valid.Length && valid[node]
        invariant 0 <= node <= valid.Length && forall i :: 0 <= i < node ==> valid[i]
      {
        node := node + 1;
      }
    }

    method PutBehind(node: nat, m: Message)
      requires Valid() && node < valid.Length && !valid[node]
      modifies this`pHead, this`nCount, this`order, next, valid, msg
      ensures Valid() && Contents() == old(Contents()) + [m]
    {
      AtPut(msg[..], order, node, m);
      assert order + [node] != [] && forall i :: i in order + [node] <==> i in order || i == node;
      ghost var ms := msg[..];
      msg[node] := m;
      assert msg[..] == ms[node := m];
      valid[node] := true;
      pHead := Enqueue(next, pHead, node, order);
      order := order + [node];
      nCount := nCount + 1;
    }

    /** A whole post, with no other thread between its lock and its signal. */
    method Post(m: Message) returns (ok: bool)
      requires Valid()
      modifies this, next, valid, msg
      ensures Valid() && (ok <==> |old(Contents())| < valid.Length)
      ensures Contents() == Posted(old(Contents()), valid.Length, m)
      ensures sem == old(sem) + |Contents()| - |old(Contents())|
    {
      ok := PostLocked(m);
      if ok {
        sem := sem + 1;
      }
    }

    /** A whole get that does not wait: without a signal it fails, whatever is queued. */
    method TryGet() returns (m: Option<Message>)
      requires Valid()
      modifies this, valid
      ensures Valid() && (m.Some? <==> old(sem) > 0 && old(Contents()) != [])
      ensures m.Some? ==> old(Contents()) == [m.value] + Contents()
      ensures m.None? ==> Contents() == old(Contents())
      ensures sem == if old(sem) > 0 then old(sem) - 1 else 0
    {
      if sem == 0 {
        return None;
      }
      sem := sem - 1;
      m := GetLocked();
    }

    /** The locked part of a get. The signal has been taken before. */
    method GetLocked() returns (m: Option<Message>)
      requires Valid()
      modifies this`pHead, this`nCount, this`order, valid
      ensures Valid() && Contents() == Taken(old(Contents()))
      ensures m == if old(Contents()) == [] then None else Some(old(Contents())[0])
    {
      if nCount <= 0 {
        return None;
      }
      LinkedTail(next[..], pHead, order);
      AtTail(msg[..], order);
      assert pHead == order[0] && pHead < next.Length;
      hide Linked, At, NoDup;
      var node := pHead;
      pHead := next[node];
      m := Some(msg[node]);
      valid[node] := false;
      nCount := nCount - 1;
      order := order[1..];
    }

    /** No node is in use any more. */
    method ClearMarks()
      modifies valid
      ensures forall k :: 0 <= k < valid.Length ==> !valid[k]
    {
      var i := 0;
      while i < valid.Length
        invariant 0 <= i <= valid.Length && forall k :: 0 <= k < i ==> !valid[k]
      {
        valid[i] := false;
        i := i + 1;
      }
    }

    /** Empties the queue and, still under the lock, the semaphore. */
    method Flush()
      requires Valid()
      modifies this, valid
      ensures Valid() && Contents() == [] && sem == 0
    {
      pHead := NONE;
      nCount := 0;
      order := [];
      ClearMarks();
      while sem != 0
        invariant Valid() && order == []
      {
        sem := sem - 1;
      }
    }
  }
}
