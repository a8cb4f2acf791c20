/** Small datatypes and facts shared by the other modules. */
module Prelude {
  datatype Option<+T> = None | Some(value: T)

  datatype Result<+T, +E> = Ok(value: T) | Err(error: E)

  function Max(a: int, b: int): int { if a < b then b else a }

  function Min(a: int, b: int): int { if a < b then a else b }

  lemma {:induction false} InjectiveImage<X, Y>(xs: set<X>, ys: set<Y>, f: map<X, Y>)
    requires forall x :: x in xs ==> x in f && f[x] in ys
    requires forall x, z :: x in xs && z in xs && f[x] == f[z] ==> x == z
    ensures |xs| <= |ys|
    decreases xs
  {
    if xs != {} {
      var x :| x in xs;
      InjectiveImage(xs - {x}, ys - {f[x]}, f);
    }
  }
}
