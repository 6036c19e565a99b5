/** Queues and free lists: no element twice, and what goes in and comes out. */
module Queues {
  ghost predicate NoDuplicates<T>(q: seq<T>) { forall i, j :: 0 <= i < j < |q| ==> q[i] != q[j] }

  function ToSet<T(==)>(q: seq<T>): set<T> { set x | x in q }

  lemma QueueSplits<T>(q: seq<T>)
    requires q != [] && NoDuplicates(q)
    ensures q[0] in q && q[0] !in q[1..] && NoDuplicates(q[1..])
    ensures forall x :: x in q <==> x == q[0] || x in q[1..]
  {
  }

  lemma {:induction false} ListSize<T>(q: seq<T>)
    requires NoDuplicates(q)
    ensures |ToSet(q)| == |q|
    decreases |q|
  {
    if q != [] {
      QueueSplits(q);
      ListSize(q[1..]);
      assert ToSet(q) == ToSet(q[1..]) + {q[0]};
    }
  }

  /** A queue's balance over two stretches of a run adds up. */
  lemma BalanceAdds<T>(q0: seq<T>, in0: seq<T>, out0: seq<T>, q1: seq<T>, in1: seq<T>, out1: seq<T>, q2: seq<T>)
    requires q0 + in0 == out0 + q1 && q1 + in1 == out1 + q2
    ensures q0 + (in0 + in1) == (out0 + out1) + q2
  {
    calc {
      q0 + (in0 + in1);
      (q0 + in0) + in1;
      out0 + (q1 + in1);
      (out0 + out1) + q2;
    }
  }

  lemma AppendTwice<T>(a: seq<T>, b: seq<T>, c: seq<T>)
    ensures (a + b) + c == a + (b + c)
  {
  }
}
