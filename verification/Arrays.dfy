/**
 Copying into arrays.
 */
module Arrays {

  /** Copies some elements into an array, from `at` on. */
  method Copy<T>(a: array<T>, at: nat, data: seq<T>)
    requires at + |data| <= a.Length
    modifies a
    ensures a[..at] == old(a[..at]) && a[at..at + |data|] == data && a[at + |data|..] == old(a[at + |data|..])
  {
    forall i | 0 <= i < |data| {
      a[at + i] := data[i];
    }
    assert forall i | 0 <= i < |data| :: a[at..at + |data|][i] == a[at + i] == data[i];
  }
}
