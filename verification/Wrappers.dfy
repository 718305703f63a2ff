/** Types, constants and small facts that several modules use. */
module Wrappers {
  datatype Option<T> = None | Some(value: T)

  type Byte = x: int | 0 <= x < 256

  const UINT16 := 0x1_0000
  const UINT32 := 0x1_0000_0000
  const UINT64 := 0x1_0000_0000_0000_0000

  type Int64 = x: int | -(UINT64 / 2) <= x < UINT64 / 2

  /** Some element of a set: any one may come. */
  method PickOne<T>(s: set<T>) returns (x: T)
    requires s != {}
    ensures x in s
  {
    x :| x in s;
  }

  /** The same in a proof. */
  ghost function AnElement<T>(s: set<T>): (x: T)
    requires s != {}
    ensures x in s
  {
    var x :| x in s; x
  }

  lemma SubsetSize<T>(a: set<T>, b: set<T>)
    requires a <= b
    ensures |a| <= |b|
  {
    assert b == a + (b - a);
  }

  /** What was read, if anything, with a beginning put in front of it. */
  function Prepend<T>(s: seq<T>, r: Option<seq<T>>): Option<seq<T>> {
    if r.Some? then Some(s + r.value) else None
  }

  lemma PrependNothing<T>(r: Option<seq<T>>)
    ensures Prepend([], r) == r
  {
    if r.Some? { assert [] + r.value == r.value; }
  }

  lemma PrependMore<T>(s: seq<T>, t: seq<T>, r: Option<seq<T>>)
    ensures Prepend(s, Prepend(t, r)) == Prepend(s + t, r)
  {
    if r.Some? { assert s + (t + r.value) == s + t + r.value; }
  }

  /** The same for what was read together with what is left to read. */
  function After<T>(s: seq<T>, r: Option<(seq<T>, seq<Byte>)>): Option<(seq<T>, seq<Byte>)> {
    match r
    case None => None
    case Some((more, t)) => Some((s + more, t))
  }

  lemma AfterNothing<T>(r: Option<(seq<T>, seq<Byte>)>)
    ensures After([], r) == r
  {
    if r.Some? { assert [] + r.value.0 == r.value.0; }
  }

  lemma AfterMore<T>(s: seq<T>, t: seq<T>, r: Option<(seq<T>, seq<Byte>)>)
    ensures After(s, After(t, r)) == After(s + t, r)
  {
    if r.Some? { assert s + (t + r.value.0) == s + t + r.value.0; }
  }
}
