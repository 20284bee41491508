/** The Lamport clock and the event order (s2s.go). */
module Lamport {

  datatype Clock = Clock(seq_: int, vector: map<string, int>) {
    function Entry(origin: string): int {
      if origin in vector then vector[origin] else 0
    }

    function Next(): Clock { this.(seq_ := seq_ + 1) }

    function Raise(origin: string, n: int): Clock {
      if n > Entry(origin) then this.(vector := vector[origin := n]) else this
    }

    function Merge(origin: string, n: int): Clock {
      this.(seq_ := (if n > seq_ then n else seq_) + 1).Raise(origin, n)
    }
  }

  const ZERO := Clock(0, map[])

  class LamportClock {
    var seq_: int
    var vector: map<string, int>

    function Value(): Clock
      reads this
    {
      Clock(seq_, vector)
    }

    constructor ()
      ensures Value() == ZERO
    {
      seq_ := 0;
      vector := map[];
    }

    method Next() returns (n: int)
      modifies this
      ensures Value() == old(Value()).Next() && n == Value().seq_
    {
      seq_ := seq_ + 1;
      n := seq_;
    }

    method Merge(origin: string, eventSeq: int)
      modifies this
      ensures Value() == old(Value()).Merge(origin, eventSeq)
    {
      if eventSeq > seq_ {
        seq_ := eventSeq;
      }
      seq_ := seq_ + 1;
      if eventSeq > (if origin in vector then vector[origin] else 0) {
        vector := vector[origin := eventSeq];
      }
    }

    method SetVector(origin: string, n: int)
      modifies this
      ensures Value() == old(Value()).Raise(origin, n)
    {
      if n > (if origin in vector then vector[origin] else 0) {
        vector := vector[origin := n];
      }
    }
  }

  /** Merging moves the clock past the event and past where it was, never lowers a vector entry, and
      makes the origin's entry at least the event's number. */
  lemma MergeAdvances(c: Clock, origin: string, n: int)
    ensures var d := c.Merge(origin, n);
      && d.seq_ > c.seq_ && d.seq_ > n && (d.seq_ == c.seq_ + 1 || d.seq_ == n + 1)
      && d.Entry(origin) >= n && d.Entry(origin) >= c.Entry(origin) && d.Entry(origin) in {n, c.Entry(origin)}
      && (forall o :: o != origin ==> (o in d.vector <==> o in c.vector) && d.Entry(o) == c.Entry(o))
      && (forall o :: o in c.vector ==> o in d.vector && d.vector[o] >= c.vector[o])
      && (n >= 1 ==> origin in d.vector)
  {}

  // ----- The order used to resolve conflicts -----

  /** Byte-wise string order. */
  predicate LexLess(a: string, b: string) {
    b != "" && (a == "" || a[0] < b[0] || (a[0] == b[0] && LexLess(a[1..], b[1..])))
  }

  function Compare(seqA: int, originA: string, seqB: int, originB: string): int {
    if seqA < seqB then -1
    else if seqA > seqB then 1
    else if LexLess(originA, originB) then -1
    else if LexLess(originB, originA) then 1
    else 0
  }

  lemma {:induction false} LexIrreflexive(a: string)
    ensures !LexLess(a, a)
  {
    if a != "" { LexIrreflexive(a[1..]); }
  }

  lemma {:induction false} LexTotal(a: string, b: string)
    ensures LexLess(a, b) || LexLess(b, a) || a == b
    ensures !(LexLess(a, b) && LexLess(b, a))
    decreases |a| + |b|
  {
    if a != "" && b != "" {
      LexTotal(a[1..], b[1..]);
      if a[0] == b[0] && a[1..] == b[1..] { assert a == [a[0]] + a[1..] == b; }
    }
  }

  lemma {:induction false} LexTransitive(a: string, b: string, c: string)
    requires LexLess(a, b) && LexLess(b, c)
    ensures LexLess(a, c)
    decreases |a|
  {
    if a != "" && a[0] == b[0] == c[0] { LexTransitive(a[1..], b[1..], c[1..]); }
  }

  /** At the first position where the two differ, `a` has ended or has the smaller character. */
  predicate LessAt(a: string, b: string, n: nat) {
    && n <= |a| && n < |b| && (forall i :: 0 <= i < n ==> a[i] == b[i])
    && (n == |a| || a[n] < b[n])
  }

  ghost predicate Before(a: string, b: string) { exists n: nat :: LessAt(a, b, n) }

  lemma {:induction false} LexLessAt(a: string, b: string)
    ensures LexLess(a, b) <==> Before(a, b)
    decreases |a|
  {
    if a == "" || b == "" || a[0] != b[0] {
      assert LexLess(a, b) ==> LessAt(a, b, 0);
      forall n: nat | LessAt(a, b, n) ensures LexLess(a, b) {}
    } else {
      LexLessAt(a[1..], b[1..]);
      if LexLess(a, b) {
        var n: nat :| LessAt(a[1..], b[1..], n);
        LessFurther(a, b, n);
      }
      forall n: nat | LessAt(a, b, n) ensures LexLess(a, b) {
        assert n > 0;
        LessNearer(a, b, n);
      }
    }
  }

  lemma LessFurther(a: string, b: string, n: nat)
    requires a != "" && b != "" && a[0] == b[0] && LessAt(a[1..], b[1..], n)
    ensures LessAt(a, b, n + 1)
  {
    forall i | 0 <= i < n + 1 ensures a[i] == b[i] {
      if i > 0 { assert a[1..][i - 1] == b[1..][i - 1]; }
    }
  }

  lemma LessNearer(a: string, b: string, n: nat)
    requires n > 0 && LessAt(a, b, n)
    ensures LessAt(a[1..], b[1..], n - 1)
  {}

  /** The smaller number wins, and on equal numbers the origin that is smaller at the first difference. */
  lemma CompareIff(m: int, a: string, n: int, b: string)
    ensures Compare(m, a, n, b) == -1 <==> m < n || (m == n && Before(a, b))
    ensures Compare(m, a, n, b) == 1 <==> n < m || (m == n && Before(b, a))
    ensures Compare(m, a, n, b) == 0 <==> m == n && a == b
  {
    LexLessAt(a, b);
    LexLessAt(b, a);
    LexTotal(a, b);
    LexIrreflexive(a);
  }

  /** Compare is a strict total order on (number, origin) pairs: it answers 0 for equal pairs only,
      it is antisymmetric, and it is transitive. */
  lemma CompareTotalOrder(m: int, a: string, n: int, b: string, k: int, c: string)
    ensures Compare(m, a, n, b) in {-1, 0, 1}
    ensures Compare(m, a, n, b) == 0 <==> m == n && a == b
    ensures Compare(n, b, m, a) == -Compare(m, a, n, b)
    ensures Compare(m, a, n, b) == -1 && Compare(n, b, k, c) == -1 ==> Compare(m, a, k, c) == -1
  {
    LexIrreflexive(a);
    LexTotal(a, b);
    LexTotal(a, c);
    if LexLess(a, b) && LexLess(b, c) { LexTransitive(a, b, c); }
  }
}
