/** Binary search over a strictly increasing run of keys. */
module LowerBound {
  ghost predicate Increasing(ks: seq<int>) {
    forall i, j :: 0 <= i < j < |ks| ==> ks[i] < ks[j]
  }

  /** The first position whose key is not below `val`, and whether it holds `val`. */
  method FindLowerBound(ks: seq<int>, val: int) returns (first: nat, found: bool)
    requires Increasing(ks)
    ensures first <= |ks|
    ensures forall i :: 0 <= i < first ==> ks[i] < val
    ensures forall i :: first <= i < |ks| ==> val <= ks[i]
    ensures found <==> val in ks
    ensures found ==> first < |ks| && ks[first] == val
  {
    first, found := 0, false;
    var lastCount := |ks|;
    while lastCount > 0
      invariant 0 <= lastCount && first + lastCount <= |ks|
      invariant forall i :: 0 <= i < first ==> ks[i] < val
      invariant forall i :: first + lastCount <= i < |ks| ==> val < ks[i]
      invariant !found
    {
      var step := lastCount / 2;
      var iter := first + step;
      if ks[iter] == val {
        first, found := iter, true;
        break;
      }
      if ks[iter] < val {
        first := iter + 1;
        lastCount := lastCount - (step + 1);
      } else {
        lastCount := step;
      }
    }
  }
}
