/** Choosing positions of a list, in order. */
module Selections {

  /** `at` lists the chosen positions, each once and in increasing order. */
  ghost predicate Selects(at: seq<nat>, chosen: set<nat>) {
    && (forall k, l :: 0 <= k < l < |at| ==> at[k] < at[l])
    && (forall k :: 0 <= k < |at| ==> at[k] in chosen)
    && (forall i :: i in chosen ==> i in at)
  }

  lemma SelectsOneMore(at: seq<nat>, chosen: set<nat>, i: nat)
    requires Selects(at, chosen) && forall j :: j in chosen ==> j < i
    ensures Selects(at + [i], chosen + {i})
  {
    var more := at + [i];
    assert more[|at|] == i;
    forall j | j in chosen ensures j in more {
      var k: nat :| k < |at| && at[k] == j;
      assert more[k] == j;
    }
  }

  lemma {:induction false} SelectionSize(at: seq<nat>, chosen: set<nat>)
    requires Selects(at, chosen)
    ensures |at| == |chosen|
    decreases |at|
  {
    if at == [] {
      assert chosen == {};
    } else {
      var last := |at| - 1;
      var i := at[last];
      var fewer := chosen - {i};
      forall j | j in fewer ensures j in at[..last] {
        var k: nat :| k < |at| && at[k] == j;
        assert at[..last][k] == j;
      }
      SelectionSize(at[..last], fewer);
      assert chosen == fewer + {i};
    }
  }
}
