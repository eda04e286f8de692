/** Sizes of finite sets. */
module Sets {

  lemma SubsetSize<T>(a: set<T>, b: set<T>)
    requires a <= b
    ensures |a| <= |b|
  {
    assert b == a + (b - a);
  }

  /** A set of slots below n has at most n elements. */
  lemma {:induction false} SlotsFit(slots: set<nat>, n: nat)
    requires forall i | i in slots :: i < n
    ensures |slots| <= n
  {
    if n == 0 {
      assert slots == {};
    } else {
      SlotsFit(slots - {n - 1}, n - 1);
      SubsetSize(slots, (slots - {n - 1}) + {n - 1});
    }
  }
}
