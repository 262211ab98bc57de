/**
  * A JavaScript `Set` as a sequence: its elements in insertion order, none twice.
  * `add` of a present element changes nothing (not even the order),
  * `delete` removes the element and reports whether it was present.
  *
  * The operations are plain functions; what they mean is stated by the
  * lemmas after them, one element at a time, so that a caller asks only for
  * the facts it needs.
  */
module OrderedSets {

  /** No element occurs twice: the invariant every `Set` keeps. */
  predicate NoDup<T(==)>(s: seq<T>)
  {
    forall i, j :: 0 <= i < j < |s| ==> s[i] != s[j]
  }

  /** `set.add(x)`. */
  function Add<T(==)>(s: seq<T>, x: T): seq<T>
  {
    if x in s then s else s + [x]
  }

  /** The set left by `set.delete(x)`; the call returns `x in s`. */
  function Remove<T(==)>(s: seq<T>, x: T): seq<T>
    decreases |s|
  {
    if s == [] then []
    else if s[0] == x then Remove(s[1..], x)
    else [s[0]] + Remove(s[1..], x)
  }

  /** `for (x of xs) set.add(x)`: a left fold of Add over xs. */
  function AddAll<T(==)>(s: seq<T>, xs: seq<T>): seq<T>
    decreases |xs|
  {
    if xs == [] then s else Add(AddAll(s, xs[..|xs| - 1]), xs[|xs| - 1])
  }

  /** After `add(x)` the set holds x and what it held before, and nothing else. */
  lemma AddMembers<T>(s: seq<T>, x: T, y: T)
    ensures y in Add(s, x) <==> y in s || y == x
  {
  }

  /** `add` keeps a set free of duplicates. */
  lemma AddNoDup<T>(s: seq<T>, x: T)
    requires NoDup(s)
    ensures NoDup(Add(s, x))
  {
  }

  /** After `delete(x)` the set holds what it held before except x. */
  lemma {:induction false} RemoveMembers<T>(s: seq<T>, x: T, y: T)
    ensures y in Remove(s, x) <==> y in s && y != x
    decreases |s|
  {
    if s != [] {
      RemoveMembers(s[1..], x, y);
      assert y in s <==> y == s[0] || y in s[1..];
    }
  }

  /** `delete` of an absent element changes nothing. */
  lemma {:induction false} RemoveAbsent<T>(s: seq<T>, x: T)
    requires x !in s
    ensures Remove(s, x) == s
    decreases |s|
  {
    if s != [] {
      assert x !in s[1..];
      RemoveAbsent(s[1..], x);
      assert [s[0]] + s[1..] == s;
    }
  }

  /** `delete` keeps a set free of duplicates, and shrinks it by one when x was there. */
  lemma {:induction false} RemoveNoDup<T>(s: seq<T>, x: T)
    requires NoDup(s)
    ensures NoDup(Remove(s, x))
    ensures |Remove(s, x)| == if x in s then |s| - 1 else |s|
    decreases |s|
  {
    if s != [] {
      assert NoDup(s[1..]);
      RemoveNoDup(s[1..], x);
      if s[0] == x {
        assert x !in s[1..];
        RemoveAbsent(s[1..], x);
      } else {
        assert x in s <==> x in s[1..];
        forall k | 0 <= k < |Remove(s[1..], x)|
          ensures Remove(s[1..], x)[k] != s[0]
        {
          RemoveMembers(s[1..], x, s[0]);
        }
      }
    }
  }

  /** After adding every element of xs the set holds what it held and the elements of xs. */
  lemma {:induction false} AddAllMembers<T>(s: seq<T>, xs: seq<T>, y: T)
    ensures y in AddAll(s, xs) <==> y in s || y in xs
    decreases |xs|
  {
    if xs != [] {
      var init := xs[..|xs| - 1];
      AddAllMembers(s, init, y);
      AddMembers(AddAll(s, init), xs[|xs| - 1], y);
      assert xs == init + [xs[|xs| - 1]];
      assert y in xs <==> y in init || y == xs[|xs| - 1];
    }
  }

  /** Adding elements keeps the old ones first, in their order, and adds no duplicate. */
  lemma {:induction false} AddAllExtends<T>(s: seq<T>, xs: seq<T>)
    ensures |s| <= |AddAll(s, xs)| && AddAll(s, xs)[..|s|] == s
    ensures NoDup(s) ==> NoDup(AddAll(s, xs))
    decreases |xs|
  {
    if xs != [] {
      var init := xs[..|xs| - 1];
      AddAllExtends(s, init);
      var r := AddAll(s, init);
      if NoDup(s) {
        AddNoDup(r, xs[|xs| - 1]);
      }
      assert (r + [xs[|xs| - 1]])[..|s|] == r[..|s|];
    }
  }

  /** Adding an element twice leaves the set as one addition does. */
  lemma AddIdempotent<T>(s: seq<T>, x: T)
    ensures Add(Add(s, x), x) == Add(s, x)
  {
  }

  /** Removing what was just added restores a set that did not hold it. */
  lemma RemoveUndoesAdd<T>(s: seq<T>, x: T)
    requires x !in s
    ensures Remove(Add(s, x), x) == s
  {
    RemoveLast(s, x);
  }

  lemma {:induction false} RemoveLast<T>(s: seq<T>, x: T)
    requires x !in s
    ensures Remove(s + [x], x) == s
  {
    if s != [] {
      assert (s + [x])[1..] == s[1..] + [x];
      RemoveLast(s[1..], x);
    }
  }

  /** Adding every element of xs, then those of ys, is adding xs + ys in one pass. */
  lemma {:induction false} AddAllConcat<T>(s: seq<T>, xs: seq<T>, ys: seq<T>)
    ensures AddAll(s, xs + ys) == AddAll(AddAll(s, xs), ys)
    decreases |ys|
  {
    if ys == [] {
      assert xs + ys == xs;
    } else {
      var ys' := ys[..|ys| - 1];
      assert (xs + ys)[..|xs + ys| - 1] == xs + ys';
      assert (xs + ys)[|xs + ys| - 1] == ys[|ys| - 1];
      AddAllConcat(s, xs, ys');
    }
  }

  /** Adding elements that are all present already changes nothing. */
  lemma {:induction false} AddAllPresent<T>(s: seq<T>, xs: seq<T>)
    requires forall x :: x in xs ==> x in s
    ensures AddAll(s, xs) == s
    decreases |xs|
  {
    if xs != [] {
      assert forall x :: x in xs[..|xs| - 1] ==> x in xs;
      AddAllPresent(s, xs[..|xs| - 1]);
    }
  }

  /** Adding the same elements a second time changes nothing. */
  lemma AddAllIdempotent<T>(s: seq<T>, xs: seq<T>)
    ensures AddAll(AddAll(s, xs), xs) == AddAll(s, xs)
  {
    forall x | x in xs
      ensures x in AddAll(s, xs)
    {
      AddAllMembers(s, xs, x);
    }
    AddAllPresent(AddAll(s, xs), xs);
  }

  /**
    * Which elements the set ends with does not depend on the order, or the
    * repetitions, of the elements added; only the insertion order does.
    */
  lemma AddAllOrderFree<T>(s: seq<T>, xs: seq<T>, ys: seq<T>)
    requires forall x :: x in xs <==> x in ys
    ensures forall y :: y in AddAll(s, xs) <==> y in AddAll(s, ys)
  {
    forall y
      ensures y in AddAll(s, xs) <==> y in AddAll(s, ys)
    {
      AddAllMembers(s, xs, y);
      AddAllMembers(s, ys, y);
    }
  }
}
