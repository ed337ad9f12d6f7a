/**
 The three removal modes of LREM (src/RedisDatabase.cpp), as recursive functions, as the erasing
 loops of the source, and as what they mean: which occurrences go, and that all else stays in order.
 */
module ListSurgery {

  function Occurrences<T(==)>(s: seq<T>, v: T): (n: nat)
    ensures n <= |s|
  {
    if s == [] then 0 else (if s[0] == v then 1 else 0) + Occurrences(s[1..], v)
  }

  /** Everything but v, in order. */
  function Without<T(==)>(s: seq<T>, v: T): seq<T> {
    if s == [] then [] else (if s[0] == v then [] else [s[0]]) + Without(s[1..], v)
  }

  function RemoveFirst<T(==)>(s: seq<T>, v: T, n: nat): seq<T> {
    if s == [] || n == 0 then s
    else if s[0] == v then RemoveFirst(s[1..], v, n - 1)
    else [s[0]] + RemoveFirst(s[1..], v, n)
  }

  function RemoveLast<T(==)>(s: seq<T>, v: T, n: nat): seq<T> {
    if s == [] || n == 0 then s
    else if s[|s| - 1] == v then RemoveLast(s[..|s| - 1], v, n - 1)
    else RemoveLast(s[..|s| - 1], v, n) + [s[|s| - 1]]
  }

  /** LREM key count v: all occurrences, the first count, or the last -count. */
  function Removed<T(==)>(s: seq<T>, count: int, v: T): seq<T> {
    if count == 0 then Without(s, v)
    else if count > 0 then RemoveFirst(s, v, count)
    else RemoveLast(s, v, -count)
  }

  function Min(a: nat, b: nat): nat {
    if a <= b then a else b
  }

  function Reverse<T>(s: seq<T>): (r: seq<T>)
    ensures |r| == |s|
  {
    if s == [] then [] else Reverse(s[1..]) + [s[0]]
  }

  // ----- splitting a list -----

  lemma {:induction false} OccurrencesConcat<T>(a: seq<T>, b: seq<T>, v: T)
    ensures Occurrences(a + b, v) == Occurrences(a, v) + Occurrences(b, v)
  {
    if a == [] {
      assert a + b == b;
    } else {
      assert (a + b)[1..] == a[1..] + b;
      OccurrencesConcat(a[1..], b, v);
    }
  }

  lemma OccurrencesErased<T>(a: seq<T>, b: seq<T>, v: T)
    ensures Occurrences(a + ([v] + b), v) == Occurrences(a + b, v) + 1
  {
    OccurrencesConcat(a, [v] + b, v);
    OccurrencesConcat(a, b, v);
  }

  lemma {:induction false} WithoutConcat<T>(a: seq<T>, b: seq<T>, v: T)
    ensures Without(a + b, v) == Without(a, v) + Without(b, v)
  {
    if a == [] {
      assert a + b == b;
    } else {
      assert (a + b)[1..] == a[1..] + b;
      WithoutConcat(a[1..], b, v);
    }
  }

  lemma {:induction false} ReverseConcat<T>(a: seq<T>, b: seq<T>)
    ensures Reverse(a + b) == Reverse(b) + Reverse(a)
  {
    if a == [] {
      assert a + b == b;
    } else {
      assert (a + b)[1..] == a[1..] + b;
      ReverseConcat(a[1..], b);
    }
  }

  lemma {:induction false} ReverseTwice<T>(s: seq<T>)
    ensures Reverse(Reverse(s)) == s
  {
    if s != [] {
      ReverseConcat(Reverse(s[1..]), [s[0]]);
      ReverseTwice(s[1..]);
    }
  }

  lemma {:induction false} OccurrencesReverse<T>(s: seq<T>, v: T)
    ensures Occurrences(Reverse(s), v) == Occurrences(s, v)
  {
    if s != [] {
      OccurrencesReverse(s[1..], v);
      OccurrencesConcat(Reverse(s[1..]), [s[0]], v);
    }
  }

  lemma {:induction false} WithoutReverse<T>(s: seq<T>, v: T)
    ensures Without(Reverse(s), v) == Reverse(Without(s, v))
  {
    if s != [] {
      WithoutReverse(s[1..], v);
      WithoutConcat(Reverse(s[1..]), [s[0]], v);
      var kept := Without([s[0]], v);
      ReverseConcat(kept, Without(s[1..], v));
      assert Reverse(kept) == kept;
    }
  }

  // ----- the loops -----

  /** std::remove followed by erase: kept elements move down to the write position. */
  method EraseAll<T(==)>(s: seq<T>, v: T) returns (lst: seq<T>, removed: nat)
    ensures lst == Without(s, v)
    ensures removed == Occurrences(s, v) - Occurrences(lst, v)
  {
    lst := s;
    var w := 0;
    for i := 0 to |s|
      invariant |lst| == |s| && w <= i
      invariant lst[..w] == Without(s[..i], v)
      invariant lst[i..] == s[i..]
      invariant i - w == Occurrences(s[..i], v)
    {
      assert s[..i + 1] == s[..i] + [s[i]];
      WithoutConcat(s[..i], [s[i]], v);
      OccurrencesConcat(s[..i], [s[i]], v);
      assert lst[i] == lst[i..][0] == s[i];
      assert lst[i + 1..] == lst[i..][1..];
      if lst[i] != v {
        ghost var before := lst;
        lst := lst[w := lst[i]];
        assert lst[..w + 1] == before[..w] + [s[i]];
        w := w + 1;
      }
    }
    assert s[..|s|] == s;
    removed := |lst| - w;
    lst := lst[..w];
    NoneLeft(s, v);
  }

  lemma {:induction false} NoneLeft<T>(s: seq<T>, v: T)
    ensures Occurrences(Without(s, v), v) == 0
  {
    if s != [] {
      NoneLeft(s[1..], v);
      OccurrencesConcat(if s[0] == v then [] else [s[0]], Without(s[1..], v), v);
    }
  }

  method EraseForward<T(==)>(s: seq<T>, v: T, count: nat) returns (lst: seq<T>, removed: nat)
    ensures lst == RemoveFirst(s, v, count)
    ensures removed == Occurrences(s, v) - Occurrences(lst, v)
  {
    lst, removed := s, 0;
    var iter := 0;
    while iter < |lst| && removed < count
      invariant iter <= |lst| && removed <= count
      invariant lst[..iter] + RemoveFirst(lst[iter..], v, count - removed) == RemoveFirst(s, v, count)
      invariant removed == Occurrences(s, v) - Occurrences(lst, v)
      decreases |lst| - iter
    {
      var rest := lst[iter + 1..];
      assert lst[iter..][1..] == rest;
      if lst[iter] == v {
        assert lst == lst[..iter] + ([v] + rest);
        OccurrencesErased(lst[..iter], rest, v);
        lst := lst[..iter] + rest;
        assert lst[iter..] == rest;
        removed := removed + 1;
      } else {
        assert lst[..iter + 1] == lst[..iter] + [lst[iter]];
        iter := iter + 1;
      }
    }
    assert lst[..iter] + lst[iter..] == lst;
  }

  /** The reverse iterator stands before base: it dereferences to lst[base - 1]. */
  method EraseBackward<T(==)>(s: seq<T>, v: T, count: nat) returns (lst: seq<T>, removed: nat)
    ensures lst == RemoveLast(s, v, count)
    ensures removed == Occurrences(s, v) - Occurrences(lst, v)
  {
    hide Occurrences;
    lst, removed := s, 0;
    var base := |lst|;
    assert lst[..base] == s && lst[base..] == [];
    while base != 0 && removed < count
      invariant base <= |lst| && removed <= count
      invariant RemoveLast(lst[..base], v, count - removed) + lst[base..] == RemoveLast(s, v, count)
      invariant removed == Occurrences(s, v) - Occurrences(lst, v)
      decreases base
    {
      var front, tail := lst[..base - 1], lst[base..];
      assert lst[..base][..base - 1] == front;
      if lst[base - 1] == v {
        assert lst == front + ([v] + tail);
        OccurrencesErased(front, tail, v);
        lst := front + tail;
        removed := removed + 1;
        base := base - 1;
        assert lst[..base] == front && lst[base..] == tail;
      } else {
        assert lst[base - 1..] == [lst[base - 1]] + tail;
        base := base - 1;
      }
    }
    assert lst[..base] + lst[base..] == lst;
  }

  /** The three branches of lrem. */
  method Erase<T(==)>(s: seq<T>, count: int, v: T) returns (lst: seq<T>, removed: nat)
    ensures lst == Removed(s, count, v)
    ensures removed == Occurrences(s, v) - Occurrences(lst, v)
  {
    if count == 0 {
      lst, removed := EraseAll(s, v);
    } else if count > 0 {
      lst, removed := EraseForward(s, v, count);
    } else {
      lst, removed := EraseBackward(s, v, -count);
    }
  }

  // ----- what the removals mean -----

  /** Up to some point all v are dropped, min(n, occurrences) of them; from there on nothing changes. */
  lemma {:induction false} RemoveFirstCut<T>(s: seq<T>, v: T, n: nat) returns (cut: nat)
    ensures cut <= |s|
    ensures Occurrences(s[..cut], v) == Min(n, Occurrences(s, v))
    ensures RemoveFirst(s, v, n) == Without(s[..cut], v) + s[cut..]
  {
    if s == [] || n == 0 {
      cut := 0;
    } else {
      var c := RemoveFirstCut(s[1..], v, if s[0] == v then n - 1 else n);
      cut := c + 1;
      assert s[..cut][1..] == s[1..][..c] && s[1..][c..] == s[cut..];
    }
  }

  /** The reverse-iterator mode is the forward mode on the reversed list. */
  lemma {:induction false} BackwardIsMirroredForward<T>(s: seq<T>, v: T, n: nat)
    ensures RemoveLast(s, v, n) == Reverse(RemoveFirst(Reverse(s), v, n))
  {
    if s == [] || n == 0 {
      ReverseTwice(s);
    } else {
      var front, last := s[..|s| - 1], s[|s| - 1];
      assert s == front + [last];
      ReverseConcat(front, [last]);
      assert Reverse([last]) == [last];
      assert Reverse(s)[1..] == Reverse(front);
      BackwardIsMirroredForward(front, v, if last == v then n - 1 else n);
    }
  }

  /** From some point on all v are dropped, min(n, occurrences) of them; before it nothing changes. */
  lemma RemoveLastCut<T>(s: seq<T>, v: T, n: nat) returns (cut: nat)
    ensures cut <= |s|
    ensures Occurrences(s[cut..], v) == Min(n, Occurrences(s, v))
    ensures RemoveLast(s, v, n) == s[..cut] + Without(s[cut..], v)
  {
    BackwardIsMirroredForward(s, v, n);
    OccurrencesReverse(s, v);
    var r := Reverse(s);
    var c := RemoveFirstCut(r, v, n);
    cut := |s| - c;
    assert s == s[..cut] + s[cut..];
    ReverseConcat(s[..cut], s[cut..]);
    assert r[..c] == Reverse(s[cut..]) && r[c..] == Reverse(s[..cut]);
    OccurrencesReverse(s[cut..], v);
    WithoutReverse(s[cut..], v);
    ReverseConcat(Reverse(Without(s[cut..], v)), Reverse(s[..cut]));
    ReverseTwice(s[..cut]);
    ReverseTwice(Without(s[cut..], v));
  }

  /** How many occurrences LREM with this count takes from a list that has n of them. */
  function Quota(count: int, n: nat): nat {
    if count == 0 then n else Min(if count > 0 then count else -count, n)
  }

  /** In every mode LREM takes out its quota of v, and the rest of the list keeps its order. */
  lemma RemovedConserves<T>(s: seq<T>, count: int, v: T)
    ensures Occurrences(Removed(s, count, v), v) == Occurrences(s, v) - Quota(count, Occurrences(s, v))
    ensures Without(Removed(s, count, v), v) == Without(s, v)
  {
    hide Without, Occurrences, RemoveFirst, RemoveLast;
    if count == 0 {
      NoneLeft(s, v);
      WithoutTwice(s, v);
    } else if count > 0 {
      var cut := RemoveFirstCut(s, v, count);
      CutConserves(s[..cut], s[cut..], v);
      assert s[..cut] + s[cut..] == s;
    } else {
      var cut := RemoveLastCut(s, v, -count);
      CutConserves(s[..cut], s[cut..], v);
      assert s[..cut] + s[cut..] == s;
    }
  }

  lemma {:induction false} WithoutTwice<T>(s: seq<T>, v: T)
    ensures Without(Without(s, v), v) == Without(s, v)
  {
    if s != [] {
      WithoutTwice(s[1..], v);
      WithoutConcat(if s[0] == v then [] else [s[0]], Without(s[1..], v), v);
    }
  }

  lemma CutConserves<T>(a: seq<T>, b: seq<T>, v: T)
    ensures Occurrences(a + b, v) == Occurrences(a, v) + Occurrences(b, v)
    ensures Occurrences(Without(a, v) + b, v) == Occurrences(b, v)
    ensures Occurrences(a + Without(b, v), v) == Occurrences(a, v)
    ensures Without(Without(a, v) + b, v) == Without(a + b, v) == Without(a + Without(b, v), v)
  {
    OccurrencesConcat(a, b, v);
    OccurrencesConcat(Without(a, v), b, v);
    OccurrencesConcat(a, Without(b, v), v);
    NoneLeft(a, v);
    NoneLeft(b, v);
    WithoutConcat(a, b, v);
    WithoutConcat(Without(a, v), b, v);
    WithoutConcat(a, Without(b, v), v);
    WithoutTwice(a, v);
    WithoutTwice(b, v);
  }

  /** Two forward removals in a row are one. */
  lemma {:induction false} RemoveFirstComposes<T>(s: seq<T>, v: T, m: nat, n: nat)
    ensures RemoveFirst(RemoveFirst(s, v, m), v, n) == RemoveFirst(s, v, m + n)
  {
    if s != [] && m != 0 {
      if s[0] == v {
        RemoveFirstComposes(s[1..], v, m - 1, n);
      } else {
        RemoveFirstComposes(s[1..], v, m, n);
        assert RemoveFirst(s, v, m)[1..] == RemoveFirst(s[1..], v, m);
      }
    }
  }

  lemma {:induction false} WithoutAbsent<T>(s: seq<T>, v: T)
    requires Occurrences(s, v) == 0
    ensures Without(s, v) == s
  {
    if s != [] {
      WithoutAbsent(s[1..], v);
    }
  }

  /** A removal that takes nothing leaves the list as it is. */
  lemma NothingToRemove<T>(s: seq<T>, count: int, v: T)
    requires Occurrences(Removed(s, count, v), v) == Occurrences(s, v)
    ensures Removed(s, count, v) == s
  {
    hide Removed, Occurrences, Without;
    RemovedConserves(s, count, v);
    assert Quota(count, Occurrences(s, v)) == 0;
    WithoutAbsent(s, v);
    WithoutAbsent(Removed(s, count, v), v);
  }
}
