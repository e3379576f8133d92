/** Small value types shared by every handler module. */
module Basics {

  datatype Option<+T> = None | Some(value: T) {
    /** Python's `d.get(key, default)` for a field that is absent or present. */
    function GetOr(default: T): T {
      match this
      case Some(v) => v
      case None => default
    }
  }

  /** A Python exception that escapes a handler: Flask answers with HTTP 500 and the
      session is never committed. */
  datatype Fault =
    | TypeError                    // subscripting or calling `.get` on a missing JSON body
    | KeyError(key: string)        // `request.json['key']` with the key absent
    | AttributeError(name: string) // an attribute looked up on an object that lacks it
    | OrmError                     // the ORM handed an object it does not map, e.g. a query
    | ValueError                   // `generate_password_hash` on an empty password

  /** What a handler answers: a `success` JSON object carrying a payload, a `fail` JSON
      object with its message (status 400), or an uncaught exception. */
  datatype Reply<+P> = Ok(value: P) | Fail(message: string) | Crash(fault: Fault)

  /** The elements of `xs` that are not in `drop`, in their original order. */
  function Without<T(!new)>(xs: seq<T>, drop: set<T>): (ys: seq<T>)
    ensures forall y :: y in ys <==> y in xs && y !in drop
    ensures |ys| <= |xs|
  {
    if xs == [] then []
    else (if xs[0] in drop then [] else [xs[0]]) + Without(xs[1..], drop)
  }

  /** Filtering out nothing that occurs in the sequence leaves it as it was. */
  lemma {:induction false} WithoutDisjoint<T(!new)>(xs: seq<T>, drop: set<T>)
    requires forall x :: x in xs ==> x !in drop
    ensures Without(xs, drop) == xs
  {
    if xs != [] {
      WithoutDisjoint(xs[1..], drop);
    }
  }
}
