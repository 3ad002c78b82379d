/** Which elements of a list are kept, said by their positions. */
module Selections {

  /** `at` are the positions below `n` that are kept, each once and in order. */
  ghost predicate Picks(at: seq<nat>, n: nat, keep: nat -> bool) {
    && (forall i :: 0 <= i < |at| ==> at[i] < n && keep(at[i]))
    && (forall i, j :: 0 <= i < j < |at| ==> at[i] < at[j])
    && (forall k: nat {:trigger k in at} :: k < n && keep(k) ==> k in at)
  }

  lemma PicksNext(at: seq<nat>, n: nat, keep: nat -> bool)
    requires Picks(at, n, keep)
    ensures Picks(if keep(n) then at + [n] else at, n + 1, keep)
  {
    var next := if keep(n) then at + [n] else at;
    forall k: nat | k < n + 1 && keep(k) ensures k in next {
      assert k < n ==> k in at;
    }
  }

  /** There is only one such list. */
  lemma {:induction false} PicksIsUnique(at: seq<nat>, bt: seq<nat>, n: nat, keep: nat -> bool)
    requires Picks(at, n, keep) && Picks(bt, n, keep)
    ensures at == bt
  {
    assert at != [] ==> at[0] in bt;
    assert bt != [] ==> bt[0] in at;
    if at != [] {
      var a, b := at[|at| - 1], bt[|bt| - 1];
      assert a in bt && b in at;
      assert a == b;
      PicksFewer(at, n, keep);
      PicksFewer(bt, n, keep);
      PicksIsUnique(at[..|at| - 1], bt[..|bt| - 1], a, keep);
    }
  }

  lemma PicksFewer(at: seq<nat>, n: nat, keep: nat -> bool)
    requires Picks(at, n, keep) && at != []
    ensures Picks(at[..|at| - 1], at[|at| - 1], keep)
  {
    var last := at[|at| - 1];
    forall k: nat | k < last && keep(k) ensures k in at[..|at| - 1] {
      assert k in at;
      var i :| 0 <= i < |at| && at[i] == k;
    }
  }
}
