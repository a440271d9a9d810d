/**
  The element-moving algorithms of the C++ standard library that Vector
  relies on, as in-place loops over arrays. Constructing into raw storage
  and assigning over a live element both become an array update: object
  lifetimes have no counterpart here.
*/
module Algorithms {

  /**
    std::ranges::copy, std::uninitialized_copy_n and std::uninitialized_move_n:
    dst[to..to + n] receives src[from..from + n] front to back, and nothing
    else in dst changes. The two ranges are in different arrays, or are the
    same range (a self-copy); either way src keeps its contents.
  */
  method CopyN<T>(src: array<T>, from: nat, dst: array<T>, to: nat, n: nat)
    requires from + n <= src.Length && to + n <= dst.Length
    requires src != dst || from == to
    modifies dst
    ensures dst[..to] == old(dst[..to])
    ensures dst[to..to + n] == old(src[from..from + n])
    ensures dst[to + n..] == old(dst[to + n..])
    ensures src[..] == old(src[..])
  {
    var i := 0;
    while i < n
      invariant i <= n
      invariant dst[..to] == old(dst[..to])
      invariant dst[to..to + i] == old(src[from..from + i])
      invariant dst[to + i..] == old(dst[to + i..])
      invariant src[..] == old(src[..])
    {
      dst[to + i] := src[from + i];
      i := i + 1;
    }
  }

  /**
    std::ranges::move(first, last, dFirst) with dFirst <= first: shifts
    a[first..last] left so that it starts at dFirst, front to back; the
    positions before dFirst and from dFirst + (last - first) on keep their values.
  */
  method Move<T>(a: array<T>, first: nat, last: nat, dFirst: nat)
    requires dFirst <= first <= last <= a.Length
    modifies a
    ensures a[..dFirst] == old(a[..dFirst])
    ensures a[dFirst..dFirst + (last - first)] == old(a[first..last])
    ensures a[dFirst + (last - first)..] == old(a[dFirst + (last - first)..])
  {
    var i := 0;
    while i < last - first
      invariant i <= last - first
      invariant a[..dFirst] == old(a[..dFirst])
      invariant a[dFirst..dFirst + i] == old(a[first..first + i])
      invariant a[dFirst + i..] == old(a[dFirst + i..])
    {
      assert a[first + i] == old(a[dFirst + i..])[first - dFirst];
      a[dFirst + i] := a[first + i];
      i := i + 1;
    }
  }

  /**
    std::ranges::move_backward(first, last, dLast) with last <= dLast: shifts
    a[first..last] right so that it ends at dLast, back to front; the positions
    before dLast - (last - first) and from dLast on keep their values.
  */
  method MoveBackward<T>(a: array<T>, first: nat, last: nat, dLast: nat)
    requires first <= last <= dLast <= a.Length
    modifies a
    ensures a[..dLast - (last - first)] == old(a[..dLast - (last - first)])
    ensures a[dLast - (last - first)..dLast] == old(a[first..last])
    ensures a[dLast..] == old(a[dLast..])
  {
    var i := 0;
    while i < last - first
      invariant i <= last - first
      invariant a[..dLast - i] == old(a[..dLast - i])
      invariant a[dLast - i..dLast] == old(a[last - i..last])
      invariant a[dLast..] == old(a[dLast..])
    {
      assert a[last - 1 - i] == old(a[..dLast - i])[last - 1 - i];
      a[dLast - 1 - i] := a[last - 1 - i];
      i := i + 1;
    }
  }

  /**
    std::uninitialized_value_construct_n: the n slots from `from` on receive
    the value-initialised element `zero`; nothing else in a changes.
  */
  method ValueConstructN<T>(a: array<T>, from: nat, n: nat, zero: T)
    requires from + n <= a.Length
    modifies a
    ensures a[..from] == old(a[..from])
    ensures a[from..from + n] == seq(n, _ => zero)
    ensures a[from + n..] == old(a[from + n..])
  {
    var i := 0;
    while i < n
      invariant i <= n
      invariant a[..from] == old(a[..from])
      invariant a[from..from + i] == seq(i, _ => zero)
      invariant a[from + i..] == old(a[from + i..])
    {
      a[from + i] := zero;
      i := i + 1;
    }
  }
}
