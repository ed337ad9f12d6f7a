/** Byte strings, and the few stock definitions every other module uses. */
module Bytes {
  newtype Byte = b: int | 0 <= b < 256

  /** std::string: a sequence of bytes. */
  type Str = seq<Byte>

  datatype Option<+T> = None | Some(value: T)

  const CR: Byte := 13
  const LF: Byte := 10
  const CRLF: Str := [CR, LF]
  const SPACE: Byte := 32
  const QUOTE: Byte := 34
  const STAR: Byte := 42
  const DOLLAR: Byte := 36
  const MINUS: Byte := 45
  const PLUS: Byte := 43
  const DIGIT_ZERO: Byte := 48

  /** isspace in the "C" locale: blank, and the five control characters \t \n \v \f \r. */
  predicate IsSpace(b: Byte) {
    b == SPACE || 9 <= b <= 13
  }

  predicate IsDigit(b: Byte) {
    DIGIT_ZERO <= b < DIGIT_ZERO + 10
  }

  /** order lists every member of s exactly once: one possible iteration of a hash container. */
  ghost predicate Enumerates<T(!new)>(order: seq<T>, s: set<T>) {
    && (forall x :: x in s <==> x in order)
    && (forall i, j :: 0 <= i < j < |order| ==> order[i] != order[j])
  }

  /** Any enumeration of the set may come out: callers learn nothing about the order. */
  method Iterate<T(==,!new)>(s: set<T>) returns (order: seq<T>)
    ensures Enumerates(order, s)
  {
    order := [];
    var rest := s;
    while rest != {}
      invariant rest <= s
      invariant forall x :: x in s <==> x in rest || x in order
      invariant forall x :: x in order ==> x !in rest
      invariant forall i, j :: 0 <= i < j < |order| ==> order[i] != order[j]
      decreases rest
    {
      var x :| x in rest;
      order := order + [x];
      rest := rest - {x};
    }
  }

  /** Every set can be enumerated. */
  lemma {:induction false} Enumerable<T(!new)>(s: set<T>) returns (order: seq<T>)
    ensures Enumerates(order, s)
    decreases |s|
  {
    order := [];
    if s != {} {
      var x :| x in s;
      var rest := Enumerable(s - {x});
      order := rest + [x];
    }
  }

  lemma EnumeratesNothing<T(!new)>(order: seq<T>, s: set<T>)
    requires Enumerates(order, s)
    ensures order == [] <==> s == {}
  {
    if order != [] {
      assert order[0] in s;
    }
  }

  lemma MoveToFront<T(!new)>(order: seq<T>, s: set<T>, i: nat)
    requires Enumerates(order, s) && i < |order|
    ensures Enumerates([order[i]] + (order[..i] + order[i + 1..]), s)
  {
    var moved := [order[i]] + (order[..i] + order[i + 1..]);
    assert order == order[..i] + [order[i]] + order[i + 1..];
    forall x ensures x in s <==> x in moved {
      assert x in order <==> x in order[..i] || x == order[i] || x in order[i + 1..];
    }
    forall j, k | 0 <= j < k < |moved| ensures moved[j] != moved[k] {
      var j' := if j == 0 then i else if j <= i then j - 1 else j;
      var k' := if k <= i then k - 1 else k;
      assert moved[j] == order[j'] && moved[k] == order[k'] && j' != k';
    }
  }
}
