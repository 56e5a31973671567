/** Values shared by every component: optional values, the sentinel errors of
    the domain layer, and one fact about finite sets. */
module Common {

  datatype Option<+T> = None | Some(value: T)

  /** The sentinel errors of the domain package; Internal stands for every
      other error (a lost connection, a failed statement, a crash). */
  datatype Error =
    | NotFound
    | AlreadyExists
    | InvalidCredentials
    | Forbidden
    | Validation
    | TokenInvalid
    | Internal

  datatype Result<+T> = Ok(value: T) | Err(error: Error)

  /** Some element of a set. */
  ghost function Pick<T>(s: set<T>): (x: T)
    requires |s| > 0
    ensures x in s
  {
    var x :| x in s; x
  }

  /** A set that is included in another one is not larger. */
  lemma {:induction false} SubsetSize<T>(a: set<T>, b: set<T>)
    requires a <= b
    ensures |a| <= |b|
  {
    if a != {} {
      var x :| x in a;
      SubsetSize(a - {x}, b - {x});
    }
  }

  /** A set included in another one of the same size is that set. */
  lemma SubsetSameSize<T>(a: set<T>, b: set<T>)
    requires a <= b && |a| == |b|
    ensures a == b
  {
    assert |b - a| == 0;
  }
}
