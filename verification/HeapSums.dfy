/** Sums over the live and the free blocks of the heap: what they are after a
    block is added, taken out or replaced, which the conservation of bytes is
    proved from. */
module HeapSums {
  import opened HeapModel
  import opened Lists

  ghost function LiveSum(f: int -> int, live: map<int, int>): int
    decreases |live|
  {
    if forall a :: a !in live then 0
    else
      var a :| a in live;
      f(live[a]) + LiveSum(f, live - {a})
  }

  lemma {:induction false} LiveSumRemove(f: int -> int, live: map<int, int>, a: int)
    requires a in live
    ensures LiveSum(f, live) == f(live[a]) + LiveSum(f, live - {a})
    decreases |live|
  {
    var b :| b in live && LiveSum(f, live) == f(live[b]) + LiveSum(f, live - {b});
    if b != a {
      LiveSumRemove(f, live - {b}, a);
      LiveSumRemove(f, live - {a}, b);
      assert live - {b} - {a} == live - {a} - {b};
    }
  }

  lemma LiveSumAdd(f: int -> int, live: map<int, int>, a: int, size: int)
    requires a !in live
    ensures LiveSum(f, live[a := size]) == f(size) + LiveSum(f, live)
  {
    LiveSumRemove(f, live[a := size], a);
    assert live[a := size] - {a} == live;
  }

  function FreeSum(f: int -> int, free: seq<Block>): int {
    if free == [] then 0 else f(free[0].size) + FreeSum(f, free[1..])
  }

  lemma {:induction false} FreeSumRemoved(f: int -> int, free: seq<Block>, i: nat)
    requires i < |free|
    ensures FreeSum(f, free) == f(free[i].size) + FreeSum(f, Without(free, i))
  {
    if i > 0 {
      FreeSumRemoved(f, free[1..], i - 1);
      assert Without(free, i)[1..] == Without(free[1..], i - 1);
    }
  }

  lemma {:induction false} FreeSumAppend(f: int -> int, free: seq<Block>, b: Block)
    ensures FreeSum(f, free + [b]) == FreeSum(f, free) + f(b.size)
  {
    if free == [] {
      assert [b][1..] == [];
      assert free + [b] == [b];
    } else {
      FreeSumAppend(f, free[1..], b);
      assert (free + [b])[1..] == free[1..] + [b];
    }
  }
}
