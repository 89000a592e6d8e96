/** Histories of event times, and counting events in a sliding window. */
module Windows {

  predicate NonDecreasing(h: seq<int>) {
    forall i, j :: 0 <= i < j < |h| ==> h[i] <= h[j]
  }

  /** Number of times in the half-open interval [from, from + length). */
  function CountWithin(h: seq<int>, from: int, length: int): nat {
    if h == [] then 0
    else CountWithin(h[..|h| - 1], from, length) + if from <= h[|h| - 1] < from + length then 1 else 0
  }

  /** Any `most + 1` successive events span at least `length`. */
  predicate Spread(h: seq<int>, most: nat, length: int) {
    forall i :: 0 <= i < |h| - most ==> h[i] + length <= h[i + most]
  }

  lemma {:induction false} CountWithinSuffix(h: seq<int>, from: int, length: int, n: nat)
    requires n <= |h| && forall j :: 0 <= j < n ==> h[j] < from
    ensures CountWithin(h, from, length) <= |h| - n
  {
    if |h| > n {
      CountWithinSuffix(h[..|h| - 1], from, length, n);
    } else if h != [] {
      CountWithinSuffix(h[..|h| - 1], from, length, n - 1);
    }
  }

  /** A spread history has at most `most` events in any half-open interval of that length. */
  lemma {:induction false} SpreadBoundsCount(h: seq<int>, from: int, most: nat, length: int)
    requires NonDecreasing(h) && Spread(h, most, length)
    ensures CountWithin(h, from, length) <= most
  {
    if |h| <= most {
      CountWithinSuffix(h, from, length, 0);
    } else {
      var init, last := h[..|h| - 1], h[|h| - 1];
      assert Spread(init, most, length) by {
        forall i | 0 <= i < |init| - most ensures init[i] + length <= init[i + most] {
          assert h[i] + length <= h[i + most];
        }
      }
      if from <= last < from + length {
        var n := |h| - most;
        assert h[n - 1] + length <= h[n - 1 + most];
        assert forall j :: 0 <= j < n ==> h[j] <= h[n - 1];
        CountWithinSuffix(h, from, length, n);
      } else {
        SpreadBoundsCount(init, from, most, length);
      }
    }
  }
}
