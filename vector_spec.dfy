/**
  The abstract view of a Vector: the sequence of its live elements, the
  effect of each mutator on that sequence, and the capacity rules.
  The class in vector.dfy is proved against these functions; the lemmas
  here state what they promise on their own.
*/
module VectorSpec {

  /** The sequence after Emplace/Insert puts `v` at position `k`. */
  function Inserted<T>(s: seq<T>, k: nat, v: T): (r: seq<T>)
    requires k <= |s|
    ensures |r| == |s| + 1
    ensures r[k] == v
    ensures forall i :: 0 <= i < k ==> r[i] == s[i]
    ensures forall i :: k < i < |r| ==> r[i] == s[i - 1]
  {
    s[..k] + [v] + s[k..]
  }

  /** The sequence after Erase removes the element at position `k`. */
  function Erased<T>(s: seq<T>, k: nat): (r: seq<T>)
    requires k < |s|
    ensures |r| == |s| - 1
    ensures forall i :: 0 <= i < k ==> r[i] == s[i]
    ensures forall i :: k <= i < |r| ==> r[i] == s[i + 1]
  {
    s[..k] + s[k + 1..]
  }

  /**
    The sequence after Resize(n): the first min(n, |s|) elements are kept and
    every new trailing slot holds the value-initialised element `zero`.
  */
  function Resized<T>(s: seq<T>, n: nat, zero: T): (r: seq<T>)
    ensures |r| == n
    ensures forall i :: 0 <= i < n ==> r[i] == if i < |s| then s[i] else zero
  {
    if n <= |s| then s[..n] else s + seq(n - |s|, _ => zero)
  }

  /**
    Capacity after Reserve(n) (and after copy-assigning a vector of size n):
    the old capacity when it already suffices, exactly n otherwise.
  */
  function ReservedCapacity(capacity: nat, n: nat): (c: nat)
    ensures c >= capacity && c >= n
    ensures c == capacity || c == n
  {
    if n <= capacity then capacity else n
  }

  /**
    Capacity chosen by an insertion into a full vector of the given size:
    1 for an empty vector, twice the size otherwise. It always leaves room
    for the new element and never more than doubles.
  */
  function GrownCapacity(size: nat): (c: nat)
    ensures size < c <= 2 * size + 1
  {
    if size == 0 then 1 else 2 * size
  }

  /** Capacity of a vector built from empty by n calls of PushBack. */
  function CapacityAfterPushes(n: nat): nat
  {
    if n == 0 then 0
    else
      var c := CapacityAfterPushes(n - 1);
      if n - 1 == c then GrownCapacity(n - 1) else c
  }

  /**
    Number of elements migrated to new storage while a vector is built from
    empty by n calls of PushBack: each reallocation migrates every live element.
  */
  function MigrationsAfterPushes(n: nat): nat
  {
    if n == 0 then 0
    else
      MigrationsAfterPushes(n - 1)
      + (if n - 1 == CapacityAfterPushes(n - 1) then n - 1 else 0)
  }

  ghost predicate IsPowerOfTwo(c: nat)
    decreases c
  {
    c == 1 || (c > 1 && c % 2 == 0 && IsPowerOfTwo(c / 2))
  }

  /**
    Growth by doubling: after n > 0 pushes the capacity is a power of two
    that holds the n elements and is less than 2n, and the elements migrated
    by all reallocations together number one less than that capacity, so
    fewer than 2n: PushBack is amortised constant time.
  */
  lemma {:induction false} PushBackGrowth(n: nat)
    ensures n == 0 ==> CapacityAfterPushes(n) == 0 && MigrationsAfterPushes(n) == 0
    ensures n > 0 ==> n <= CapacityAfterPushes(n) < 2 * n
    ensures n > 0 ==> IsPowerOfTwo(CapacityAfterPushes(n))
    ensures n > 0 ==> MigrationsAfterPushes(n) + 1 == CapacityAfterPushes(n)
  {
    if n > 1 {
      PushBackGrowth(n - 1);
      var c := CapacityAfterPushes(n - 1);
      if n - 1 == c {
        assert CapacityAfterPushes(n) == 2 * c;
        assert (2 * c) / 2 == c;
      }
    }
  }

  /**
    How both insertion paths build their result in storage r: the first k
    slots hold s[..k], slot k holds v and the next |s| - k slots hold s[k..].
  */
  lemma InsertedFromParts<T>(r: seq<T>, s: seq<T>, k: nat, v: T)
    requires k <= |s| < |r|
    requires r[..k] == s[..k] && r[k] == v && r[k + 1..|s| + 1] == s[k..]
    ensures r[..|s| + 1] == Inserted(s, k, v)
  {
    assert r[..|s| + 1] == r[..k] + [r[k]] + r[k + 1..|s| + 1];
  }

  /** Erasing at k what was just inserted at k gives back the original sequence. */
  lemma EraseAfterInsert<T>(s: seq<T>, k: nat, v: T)
    requires k <= |s|
    ensures Erased(Inserted(s, k, v), k) == s
  {
    var r := Erased(Inserted(s, k, v), k);
    assert forall i :: 0 <= i < |s| ==> r[i] == s[i];
  }

  /** Putting back at k the element erased at k gives back the original sequence. */
  lemma InsertAfterErase<T>(s: seq<T>, k: nat)
    requires k < |s|
    ensures Inserted(Erased(s, k), k, s[k]) == s
  {
    var r := Inserted(Erased(s, k), k, s[k]);
    assert forall i :: 0 <= i < |s| ==> r[i] == s[i];
  }

  /** Insertion adds exactly one occurrence of the new element and loses none. */
  lemma InsertedElements<T>(s: seq<T>, k: nat, v: T)
    requires k <= |s|
    ensures multiset(Inserted(s, k, v)) == multiset(s) + multiset{v}
  {
    assert s == s[..k] + s[k..];
  }

  /** Erasure removes exactly one occurrence of the erased element and no other. */
  lemma ErasedElements<T>(s: seq<T>, k: nat)
    requires k < |s|
    ensures multiset(Erased(s, k)) == multiset(s) - multiset{s[k]}
  {
    assert s == s[..k] + [s[k]] + s[k + 1..];
  }

  /** Appending is insertion at the end: PushBack is Emplace at end(). */
  lemma InsertedAtEnd<T>(s: seq<T>, v: T)
    ensures Inserted(s, |s|, v) == s + [v]
  {
    assert s[..|s|] == s;
  }

  /** Resizing to the current size changes nothing. */
  lemma ResizedToSameSize<T>(s: seq<T>, zero: T)
    ensures Resized(s, |s|, zero) == s
  {
    assert s[..|s|] == s;
  }

  /** Growing and then shrinking back restores the original sequence. */
  lemma ResizedGrowThenShrink<T>(s: seq<T>, n: nat, zero: T)
    requires |s| <= n
    ensures Resized(Resized(s, n, zero), |s|, zero) == s
  {
    var r := Resized(Resized(s, n, zero), |s|, zero);
    assert forall i :: 0 <= i < |s| ==> r[i] == s[i];
  }

  /** Resizing to n and then to a smaller m is the same as resizing to m directly. */
  lemma ResizedTwice<T>(s: seq<T>, n: nat, m: nat, zero: T)
    requires m <= n
    ensures Resized(Resized(s, n, zero), m, zero) == Resized(s, m, zero)
  {
    var r, q := Resized(Resized(s, n, zero), m, zero), Resized(s, m, zero);
    assert forall i :: 0 <= i < m ==> r[i] == q[i];
  }
}
