/** The meaning of the replay memory's slots, stated on values.

    Pushes since the last drain are numbered 0, 1, 2, ... and push number i is
    written to slot i % capacity. This module defines, independently of how the
    buffer is updated, what a ring of a given capacity holds after a sequence of
    pushes: slot j holds the most recent push whose number is congruent to j
    modulo the capacity. The lemmas relate that definition to one push step and
    to the two regimes of the buffer (still filling, and wrapped). */
module RingSpec {

  /** Euclidean division is unique: a quotient and a remainder in [0, c) that
      rebuild x are x / c and x % c. */
  lemma DivModUnique(x: int, c: nat, q: int, r: int)
    requires 0 < c && 0 <= r < c && x == c * q + r
    ensures x / c == q && x % c == r
  {
    var k := q - x / c;
    assert c * k == x % c - r;
  }

  /** Residues modulo c: j + c*q leaves remainder j. */
  lemma ModOfShift(j: nat, q: nat, c: nat)
    requires 0 < c && j < c
    ensures (j + c * q) % c == j
  {
    DivModUnique(j + c * q, c, q, j);
  }

  /** Advancing a count by one advances its residue by one, wrapping at c. */
  lemma ModSucc(n: nat, c: nat)
    requires 0 < c
    ensures (n + 1) % c == (n % c + 1) % c
  {
    if n % c + 1 < c {
      DivModUnique(n + 1, c, n / c, n % c + 1);
      DivModUnique(n % c + 1, c, 0, n % c + 1);
    } else {
      DivModUnique(n + 1, c, n / c + 1, 0);
      DivModUnique(c, c, 1, 0);
    }
  }

  /** Two numbers less than c apart with the same remainder are equal. */
  lemma ResidueUnique(a: nat, b: nat, c: nat)
    requires 0 < c && a <= b < a + c
    requires a % c == b % c
    ensures a == b
  {
    var k := b / c - a / c;
    assert b - a == c * k;
    DivModUnique(b - a, c, 0, b - a);
    DivModUnique(b - a, c, k, 0);
  }

  /** The number of the latest of n pushes written to slot j of a ring of capacity c. */
  function LastWriter(n: nat, c: nat, j: nat): (i: nat)
    requires 0 < c && j < c && j < n
    ensures i < n && i % c == j
    ensures n <= i + c
  {
    var d := n - 1 - j;
    ModOfShift(j, d / c, c);
    n - 1 - d % c
  }

  /** No push after the last writer of slot j lands in slot j. */
  lemma NoLaterWrite(n: nat, c: nat, j: nat, k: nat)
    requires 0 < c && j < c && j < n
    requires LastWriter(n, c, j) < k < n
    ensures k % c != j
  {
    var i := LastWriter(n, c, j);
    if k % c == j {
      ResidueUnique(i, k, c);
    }
  }

  /** A push number i < n that is within c of n and lands in slot j is the last writer of j. */
  lemma LastWriterUnique(n: nat, c: nat, j: nat, i: nat)
    requires 0 < c && j < c && j < n
    requires i < n && i % c == j && n <= i + c
    ensures LastWriter(n, c, j) == i
  {
    var w := LastWriter(n, c, j);
    if w <= i {
      ResidueUnique(w, i, c);
    } else {
      ResidueUnique(i, w, c);
    }
  }

  /** The contents of a ring of capacity c after the pushes p: as many slots as
      pushes, up to c, and each slot holds the latest push written to it. */
  function Stored<T>(p: seq<T>, c: nat): (r: seq<T>)
    ensures |r| == if |p| < c then |p| else c
  {
    var len := if |p| < c then |p| else c;
    seq(len, j requires 0 <= j < len => p[LastWriter(|p|, c, j)])
  }

  /** One push step: below capacity the new record is appended, at capacity it
      overwrites the slot numbered |p| % c; no other slot changes. */
  lemma StoredPush<T>(p: seq<T>, x: T, c: nat)
    requires 0 < c
    ensures |p| < c ==> Stored(p + [x], c) == Stored(p, c) + [x]
    ensures |p| >= c ==> Stored(p + [x], c) == Stored(p, c)[|p| % c := x]
  {
    var n := |p|;
    var q := p + [x];
    var before, after := Stored(p, c), Stored(q, c);
    if n < c {
      forall j | 0 <= j < n + 1
        ensures after[j] == (before + [x])[j]
      {
        ModOfShift(j, 0, c);
        LastWriterUnique(n + 1, c, j, j);
        if j < n {
          LastWriterUnique(n, c, j, j);
        }
      }
    } else {
      var pos := n % c;
      forall j | 0 <= j < c
        ensures after[j] == before[pos := x][j]
      {
        var w := LastWriter(n + 1, c, j);
        if j == pos {
          LastWriterUnique(n + 1, c, j, n);
        } else {
          assert w != n;
          LastWriterUnique(n, c, j, w);
        }
      }
    }
  }

  /** While the ring is filling, the slots hold the pushes in push order. */
  lemma StoredWhileFilling<T>(p: seq<T>, c: nat)
    requires |p| <= c
    ensures Stored(p, c) == p
  {
    var r := Stored(p, c);
    forall j | 0 <= j < |p|
      ensures r[j] == p[j]
    {
      ModOfShift(j, 0, c);
      LastWriterUnique(|p|, c, j, j);
    }
  }

  /** Once at least c pushes were made, reading the ring from slot |p| % c
      onwards, and then from slot 0, gives exactly the last c pushes, oldest first. */
  lemma StoredOnceFull<T>(p: seq<T>, c: nat)
    requires 0 < c <= |p|
    ensures var r, pos := Stored(p, c), |p| % c;
            r[pos..] + r[..pos] == p[|p| - c..]
  {
    var n, pos := |p|, |p| % c;
    var r := Stored(p, c);
    var lhs, rhs := r[pos..] + r[..pos], p[n - c..];
    assert n == c * (n / c) + pos;
    assert n / c >= 1;
    forall k | 0 <= k < c
      ensures lhs[k] == rhs[k]
    {
      var i := n - c + k;
      if pos + k < c {
        var j := pos + k;
        assert i == j + c * (n / c - 1);
        ModOfShift(j, n / c - 1, c);
        LastWriterUnique(n, c, j, i);
        assert lhs[k] == r[j];
      } else {
        var j := pos + k - c;
        assert i == j + c * (n / c);
        ModOfShift(j, n / c, c);
        LastWriterUnique(n, c, j, i);
        assert lhs[k] == r[j];
      }
    }
  }
}
