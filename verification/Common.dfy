/** Basic value types shared by all modules. */
module Common {

  datatype Option<+T> = None | Some(value: T)

  type Octet = x: int | 0 <= x < 0x100
  type Uint16 = x: int | 0 <= x < 0x1_0000
  type Uint32 = x: int | 0 <= x < 0x1_0000_0000

  function Min(a: nat, b: nat): nat {
    if a <= b then a else b
  }

  /** Elements of a sequence as a set. */
  function Members<T(==)>(xs: seq<T>): set<T> {
    set x | x in xs
  }

  predicate Distinct<T(==)>(xs: seq<T>) {
    forall i, j | 0 <= i < j < |xs| :: xs[i] != xs[j]
  }

  lemma DistinctSize<T>(xs: seq<T>)
    requires Distinct(xs)
    ensures |Members(xs)| == |xs|
  {
    if xs == [] {
    } else {
      DistinctSize(xs[1..]);
      assert Members(xs) == {xs[0]} + Members(xs[1..]);
    }
  }
}
