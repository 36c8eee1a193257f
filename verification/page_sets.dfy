/** Ranges of page and chunk numbers, and how many there are. */
module PageSets {

  /** The numbers from `first` on, `count` of them. */
  function Range(first: nat, count: nat): (r: set<nat>)
    ensures forall p: nat :: p in r <==> first <= p < first + count
    decreases count
  {
    if count == 0 then {} else {first} + Range(first + 1, count - 1)
  }

  lemma {:induction false} RangeSize(first: nat, count: nat)
    ensures |Range(first, count)| == count
    decreases count
  {
    if count > 0 {
      var rest := Range(first + 1, count - 1);
      RangeSize(first + 1, count - 1);
      assert first !in rest && Range(first, count) == {first} + rest;
    }
  }

  lemma {:induction false} SubsetSize(a: set<nat>, b: set<nat>)
    requires a <= b
    ensures |a| <= |b|
    ensures |a| == |b| ==> a == b
    decreases |a|
  {
    if a == {} {
      assert |b| == 0 ==> b == {};
    } else {
      var x :| x in a;
      SubsetSize(a - {x}, b - {x});
      assert a == (a - {x}) + {x} && b == (b - {x}) + {x};
    }
  }
}
