/** Addresses in a ring of `size` cells, and the straight sequence read off a stretch of it. */
module Ring {

  /** n cells after a, with at most one wrap. */
  function Fwd(a: nat, n: nat, size: nat): (r: nat)
    requires a < size && n <= size
    ensures r < size
  {
    if a + n >= size then a + n - size else a + n
  }

  /** How far b lies after a. */
  function Dist(a: nat, b: nat, size: nat): (d: nat)
    requires a < size && b < size
    ensures d < size && Fwd(a, d, size) == b
  {
    if b >= a then b - a else b + size - a
  }

  /** n cells before a. */
  function Back(a: nat, n: nat, size: nat): (r: nat)
    requires a < size && n <= size
    ensures r < size && Fwd(r, n, size) == a
  {
    if a >= n then a - n else a + size - n
  }

  lemma FwdFwd(a: nat, n: nat, k: nat, size: nat)
    requires a < size && n + k <= size
    ensures Fwd(Fwd(a, n, size), k, size) == Fwd(a, n + k, size)
  {
  }

  /** Different distances below a full turn are different cells. */
  lemma FwdInjective(a: nat, n: nat, k: nat, size: nat)
    requires a < size && n < size && k < size && n != k
    ensures Fwd(a, n, size) != Fwd(a, k, size)
  {
  }

  /** The n cells from a on: one block, or two when the stretch turns around. */
  function Lin<T>(m: seq<T>, a: nat, n: nat): (r: seq<T>)
    requires a < |m| && n <= |m|
    ensures |r| == n
  {
    if a + n <= |m| then m[a..a + n] else m[a..] + m[..a + n - |m|]
  }

  lemma LinAt<T>(m: seq<T>, a: nat, n: nat)
    requires a < |m| && n <= |m|
    ensures forall i :: 0 <= i < n ==> Lin(m, a, n)[i] == m[Fwd(a, i, |m|)]
  {
  }

  lemma LinSplit<T>(m: seq<T>, a: nat, n: nat, k: nat)
    requires a < |m| && n + k <= |m|
    ensures Lin(m, a, n + k) == Lin(m, a, n) + Lin(m, Fwd(a, n, |m|), k)
  {
    hide Lin;
    var b := Fwd(a, n, |m|);
    LinAt(m, a, n + k);
    LinAt(m, a, n);
    LinAt(m, b, k);
    forall i | 0 <= i < n + k ensures Lin(m, a, n + k)[i] == (Lin(m, a, n) + Lin(m, b, k))[i] {
      if i >= n {
        FwdFwd(a, n, i - n, |m|);
      }
    }
  }

  lemma LinSlice<T>(m: seq<T>, a: nat, n: nat, i: nat, j: nat)
    requires a < |m| && i <= j <= n <= |m|
    ensures Lin(m, a, n)[i..j] == Lin(m, Fwd(a, i, |m|), j - i)
  {
    hide Lin;
    var b := Fwd(a, i, |m|);
    LinAt(m, a, n);
    LinAt(m, b, j - i);
    forall k | 0 <= k < j - i ensures Lin(m, a, n)[i..j][k] == Lin(m, b, j - i)[k] {
      FwdFwd(a, i, k, |m|);
    }
  }

  /** The first n cells from a on hold the same in both. */
  ghost predicate Agree<T>(m: seq<T>, m': seq<T>, a: nat, n: nat)
    requires |m| == |m'| && a < |m| && n <= |m|
  {
    forall i :: 0 <= i < n ==> m[Fwd(a, i, |m|)] == m'[Fwd(a, i, |m|)]
  }

  lemma LinAgree<T>(m: seq<T>, m': seq<T>, a: nat, n: nat, off: nat, k: nat)
    requires |m| == |m'| && a < |m| && off + k <= n <= |m| && Agree(m, m', a, n)
    ensures Lin(m, Fwd(a, off, |m|), k) == Lin(m', Fwd(a, off, |m|), k)
  {
    LinAt(m, Fwd(a, off, |m|), k);
    LinAt(m', Fwd(a, off, |m|), k);
    forall i | 0 <= i < k ensures m[Fwd(Fwd(a, off, |m|), i, |m|)] == m'[Fwd(Fwd(a, off, |m|), i, |m|)] {
      FwdFwd(a, off, i, |m|);
    }
  }

  /** A write at distance j or more from a is not seen in the j cells before it. */
  lemma WriteAgrees<T>(m: seq<T>, a: nat, n: nat, j: nat, x: T)
    requires a < |m| && n <= j < |m|
    ensures Agree(m, m[Fwd(a, j, |m|) := x], a, n)
  {
    forall i | 0 <= i < n ensures Fwd(a, i, |m|) != Fwd(a, j, |m|) {
      FwdInjective(a, i, j, |m|);
    }
  }
}
