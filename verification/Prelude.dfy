/** Result types shared by the models, and byte strings. */
module Prelude {

  datatype Option<+T> = None | Some(value: T)

  /** What a call of the source does: it returns a value, it returns an error,
      or it panics (a failed assertion, an `unwrap` of nothing, an arithmetic overflow). */
  datatype Outcome<+T, +E> = Ok(value: T) | Err(error: E) | Panic {
    predicate IsFailure() { !Ok? }

    function PropagateFailure<U>(): Outcome<U, E>
      requires IsFailure()
    {
      if Panic? then Panic else Err(error)
    }

    function Extract(): T
      requires Ok?
    {
      value
    }
  }

  type Byte = b: int | 0 <= b < 256

  type Bytes = seq<Byte>

  /** Free of `c`, stated by positions. */
  predicate Without(s: Bytes, c: Byte) {
    forall i | 0 <= i < |s| :: s[i] != c
  }

  /** The first position of `c` in `s`, or |s| when there is none. */
  function IndexOf(s: Bytes, c: Byte): (p: nat)
    ensures p <= |s|
    ensures forall i | 0 <= i < p :: s[i] != c
    ensures p < |s| ==> s[p] == c
  {
    if s == [] || s[0] == c then 0 else 1 + IndexOf(s[1..], c)
  }

  /** What a first position is: there is only one. */
  lemma IndexOfIs(s: Bytes, c: Byte, p: nat)
    requires p <= |s| && Without(s[..p], c) && (p < |s| ==> s[p] == c)
    ensures IndexOf(s, c) == p
  {
    assert forall i | 0 <= i < p :: s[i] == s[..p][i];
  }

  lemma Assoc<T>(a: seq<T>, b: seq<T>, c: seq<T>)
    ensures a + b + c == a + (b + c)
  {
  }

  /** The first element of an ordered set. */
  method Least(s: set<nat>) returns (least: nat)
    requires s != {}
    ensures least in s && forall x | x in s :: least <= x
  {
    least :| least in s;
    var rest := s - {least};
    while rest != {}
      invariant least in s && rest <= s && forall x | x in s && x !in rest :: least <= x
      decreases rest
    {
      var x :| x in rest;
      rest := rest - {x};
      if x < least {
        least := x;
      }
    }
  }

  /** A growable byte buffer that callees append to or consume from. */
  class Buffer {
    var data: Bytes

    constructor (data: Bytes)
      ensures this.data == data
    {
      this.data := data;
    }

    method Write(bytes: Bytes)
      modifies this
      ensures data == old(data) + bytes
    {
      data := data + bytes;
    }
  }
}
