/** The adopted-descriptor registry of ioandroid.c: the global growable array
    `fd_list` with `fd_list_size` used slots out of `fd_list_capacity`, and the
    three operations add_fd, remove_fd and has_fd. */
module FdRegistry {

  // ---------------------------------------------------------------------------
  // Capacities: 0 or a power of two

  predicate IsPow2(n: nat) {
    if n <= 1 then n == 1 else n % 2 == 0 && IsPow2(n / 2)
  }

  /** Every capacity the registry can reach: starts at 0, goes 0 -> 1 and then
      doubles or halves. */
  predicate CapacityShape(c: nat) { c == 0 || IsPow2(c) }

  lemma {:induction false} Pow2Order(p: nat, q: nat)
    requires IsPow2(p) && IsPow2(q) && p < q
    ensures 2 * p <= q
    decreases p + q
  {
    if p < q / 2 {
      Pow2Order(p, q / 2);
    } else if q / 2 < p {
      Pow2Order(q / 2, p);
    }
  }

  /** At most one power of two lies in any interval [n, 2n). */
  lemma Pow2Unique(n: nat, p: nat, q: nat)
    requires IsPow2(p) && IsPow2(q)
    requires n <= p < 2 * n && n <= q < 2 * n
    ensures p == q
  {
    if p < q { Pow2Order(p, q); } else if q < p { Pow2Order(q, p); }
  }

  /** The smallest power of two that is at least n. */
  function CeilPow2(n: nat): (r: nat)
    requires n >= 1
    ensures IsPow2(r) && n <= r && r < 2 * n
  {
    if n == 1 then 1
    else
      var h := (n + 1) / 2;
      var c := CeilPow2(h);
      assert n <= 2 * h <= n + 1;
      assert c > 1 ==> c % 2 == 0;
      assert IsPow2(2 * c) by { assert (2 * c) / 2 == c; }
      2 * c
  }

  /** Any power of two that is at least n is at least CeilPow2(n). */
  lemma CeilPow2Least(n: nat, p: nat)
    requires n >= 1 && IsPow2(p) && n <= p
    ensures CeilPow2(n) <= p
  {
    var c := CeilPow2(n);
    if p < c { Pow2Order(p, c); }
  }

  /** The capacity add_fd leaves behind (when the reallocation it may need
      succeeds): full buffers grow from 0 to 1 and then double. */
  function GrowCapacity(capacity: nat, size: nat): nat {
    if size == capacity then (if capacity == 0 then 1 else 2 * capacity) else capacity
  }

  /** The capacity remove_fd leaves behind once it has removed an entry and
      `size` entries are left: halved once when at most half is used, unless
      the shrinking reallocation to a non-zero size failed. */
  function ShrinkCapacity(capacity: nat, size: nat, reallocOk: bool): nat {
    if size <= capacity / 2 && (reallocOk || capacity / 2 == 0) then capacity / 2 else capacity
  }

  /** The capacity after n successful adds to an empty registry. */
  function CapacityAfterAdds(n: nat): nat {
    if n == 0 then 0 else CeilPow2(n)
  }

  /** After n adds without removals the capacity is the smallest power of two
      that holds n entries: one more add moves it exactly as add_fd does. */
  lemma {:induction false} CapacityAfterAddsStep(n: nat)
    ensures GrowCapacity(CapacityAfterAdds(n), n) == CapacityAfterAdds(n + 1)
  {
    if n > 0 {
      var c := CeilPow2(n);
      var d := CeilPow2(n + 1);
      if c == n {
        assert IsPow2(2 * n) by { assert (2 * n) / 2 == n; }
        Pow2Unique(n + 1, 2 * n, d);
      } else {
        Pow2Unique(n + 1, c, d);
      }
    }
  }

  /** A successful add keeps the capacity 0 or a power of two and leaves room
      for the new entry. */
  lemma GrowKeepsShape(capacity: nat, size: nat)
    requires CapacityShape(capacity) && size <= capacity
    ensures CapacityShape(GrowCapacity(capacity, size))
    ensures size + 1 <= GrowCapacity(capacity, size)
  {
    if size == capacity && capacity > 0 {
      assert (2 * capacity) / 2 == capacity;
    }
  }

  lemma ShrinkKeepsShape(capacity: nat, size: nat, reallocOk: bool)
    requires CapacityShape(capacity)
    ensures CapacityShape(ShrinkCapacity(capacity, size, reallocOk))
  {
  }

  // ---------------------------------------------------------------------------
  // Contents as a sequence

  predicate Unique(s: seq<int>) {
    forall i, j :: 0 <= i < j < |s| ==> s[i] != s[j]
  }

  /** Reference definition of a removal: drop the first occurrence of x. */
  function RemoveFirst(s: seq<int>, x: int): seq<int> {
    if s == [] then []
    else if s[0] == x then s[1..]
    else [s[0]] + RemoveFirst(s[1..], x)
  }

  /** Removing the first occurrence at index i compacts the rest down by one,
      keeping the relative order of everything else. */
  lemma {:induction false} RemoveFirstAt(s: seq<int>, x: int, i: nat)
    requires i < |s| && s[i] == x && x !in s[..i]
    ensures RemoveFirst(s, x) == s[..i] + s[i + 1..]
  {
    if i > 0 {
      assert s[0] in s[..i];
      assert s[1..][..i - 1] == s[1..i];
      RemoveFirstAt(s[1..], x, i - 1);
      assert s[..i] == [s[0]] + s[1..i];
    }
  }

  lemma {:induction false} RemoveFirstAbsent(s: seq<int>, x: int)
    requires x !in s
    ensures RemoveFirst(s, x) == s
  {
    if s != [] {
      assert s == [s[0]] + s[1..];
      RemoveFirstAbsent(s[1..], x);
    }
  }

  /** A removal takes away exactly one copy of a present value. */
  lemma {:induction false} RemoveFirstMultiset(s: seq<int>, x: int)
    ensures multiset(RemoveFirst(s, x)) == multiset(s) - multiset{x}
  {
    if s != [] {
      assert s == [s[0]] + s[1..];
      RemoveFirstMultiset(s[1..], x);
    }
  }

  /** On a registry without duplicates, a removal makes the value absent and
      keeps the registry free of duplicates. */
  lemma RemoveFirstUnique(s: seq<int>, x: int)
    requires Unique(s)
    ensures Unique(RemoveFirst(s, x)) && x !in RemoveFirst(s, x)
  {
    var r := RemoveFirst(s, x);
    RemoveFirstMultiset(s, x);
    if x in s {
      var i :| 0 <= i < |s| && s[i] == x;
      assert x !in s[..i];
      RemoveFirstAt(s, x, i);
      assert r == s[..i] + s[i + 1..];
      forall a, b | 0 <= a < b < |r| ensures r[a] != r[b] {
        var a' := if a < i then a else a + 1;
        var b' := if b < i then b else b + 1;
        assert r[a] == s[a'] && r[b] == s[b'];
      }
      forall k | 0 <= k < |r| ensures r[k] != x {
        var k' := if k < i then k else k + 1;
        assert r[k] == s[k'];
      }
    } else {
      RemoveFirstAbsent(s, x);
    }
  }

  /** Appending an absent value keeps the registry free of duplicates. */
  lemma AppendUnique(s: seq<int>, x: int)
    requires Unique(s) && x !in s
    ensures Unique(s + [x])
  {
  }

  // ---------------------------------------------------------------------------
  // realloc

  /** `realloc(list, n)` that succeeded: a buffer of n slots that starts with
      whatever fits of the old contents. */
  method Realloc(a: array<int>, n: nat) returns (b: array<int>)
    ensures fresh(b) && b.Length == n
    ensures n <= a.Length ==> b[..] == a[..n]
    ensures a.Length <= n ==> b[..a.Length] == a[..]
  {
    b := new int[n];
    var k := 0;
    var keep := if n <= a.Length then n else a.Length;
    while k < keep
      invariant 0 <= k <= keep
      invariant b[..k] == a[..k]
    {
      b[k] := a[k];
      k := k + 1;
    }
    assert b[..keep] == a[..keep];
  }

  // ---------------------------------------------------------------------------
  // The registry

  class FdList {
    var list: array<int>    // fd_list; its length is the capacity (NULL is length 0)
    var size: nat           // fd_list_size
    var capacity: nat       // fd_list_capacity

    ghost predicate Valid()
      reads this
    {
      list.Length == capacity && size <= capacity && CapacityShape(capacity)
    }

    /** The registered descriptors, in registration order. */
    ghost function Contents(): seq<int>
      reads this, list
      requires Valid()
    {
      list[..size]
    }

    /** The registry at program start: `fd_list = NULL`, size and capacity 0. */
    constructor ()
      ensures Valid() && Contents() == [] && capacity == 0 && fresh(list)
    {
      list := new int[0];
      size := 0;
      capacity := 0;
    }

    /** add_fd: append fd, growing a full buffer first. No duplicate check. */
    method AddFd(fd: int, reallocOk: bool) returns (r: int)
      requires Valid()
      modifies this, list
      ensures Valid()
      ensures r == (if old(size) == old(capacity) && !reallocOk then -1 else 0)
      ensures list == old(list) || fresh(list)
      ensures r == -1 ==> unchanged(this) && unchanged(list)
      ensures r == 0 ==> Contents() == old(Contents()) + [fd]
      ensures r == 0 ==> capacity == GrowCapacity(old(capacity), old(size))
    {
      if size == capacity {
        var newCapacity := if capacity == 0 then 1 else 2 * capacity;  // capacity << 1
        if !reallocOk {
          return -1;
        }
        assert IsPow2(newCapacity) by {
          if capacity > 0 { assert newCapacity / 2 == capacity; }
        }
        var newList := Realloc(list, newCapacity);
        list, capacity := newList, newCapacity;
      }
      list[size] := fd;
      size := size + 1;
      return 0;
    }

    /** remove_fd: delete the first occurrence of fd by shifting the later
        entries down, then halve the buffer once if at most half of it is used. */
    method RemoveFd(fd: int, reallocOk: bool) returns (r: int)
      requires Valid()
      modifies this, list
      ensures Valid()
      ensures list == old(list) || fresh(list)
      ensures r == (if fd in old(Contents()) then 0 else 1)
      ensures fd !in old(Contents()) ==> unchanged(this) && unchanged(list)
      ensures fd in old(Contents()) ==> Contents() == RemoveFirst(old(Contents()), fd)
      ensures fd in old(Contents()) ==>
                capacity == ShrinkCapacity(old(capacity), old(size) - 1, reallocOk)
    {
      ghost var before := list[..size];
      var oldSize := size;
      var i := 0;
      while i < size
        invariant 0 <= i <= size == oldSize
        invariant Valid() && list == old(list) && list[..size] == before
        invariant fd !in before[..i]
      {
        if list[i] == fd {
          ShiftDown(i);
          assert Contents() == RemoveFirst(before, fd) by {
            RemoveFirstAt(before, fd, i);
          }
          break;
        }
        i := i + 1;
      }
      if oldSize == size {
        assert before[..i] == before;
        return 1;  // nothing removed
      }
      Shrink(reallocOk);
      return 0;
    }

    /** The compaction loop of remove_fd: entries after index at move down one
        slot (`fd_list[i] = fd_list[j]` for j = i + 1 ...) and the size drops. */
    method ShiftDown(at: nat)
      requires Valid() && at < size
      modifies this`size, list
      ensures Valid() && size == old(size) - 1
      ensures Contents() == old(Contents()[..at] + Contents()[at + 1..])
    {
      ghost var before := list[..size];
      var i, j := at, at + 1;
      while j < size
        invariant Valid() && size == old(size) == |before|
        invariant at < j <= size && i == j - 1
        invariant forall k :: 0 <= k < at ==> list[k] == before[k]
        invariant forall k :: at <= k < i ==> list[k] == before[k + 1]
        invariant forall k :: j <= k < size ==> list[k] == before[k]
      {
        list[i] := list[j];
        i, j := i + 1, j + 1;
      }
      size := size - 1;
      assert list[..size] == before[..at] + before[at + 1..];
    }

    /** The tail of remove_fd: when at most half the buffer is in use, ask for
        half of it. A failed request for a non-zero size keeps the old buffer
        ("Oh well"); a zero-size request leaves NULL, success or not. */
    method Shrink(reallocOk: bool)
      requires Valid()
      modifies this
      ensures Valid() && size == old(size)
      ensures list == old(list) || fresh(list)
      ensures Contents() == old(Contents())
      ensures capacity == ShrinkCapacity(old(capacity), old(size), reallocOk)
    {
      if size <= capacity / 2 {
        var newCapacity := capacity / 2;
        if !reallocOk && newCapacity > 0 {
          return;
        }
        var newList: array<int>;
        if reallocOk {
          newList := Realloc(list, newCapacity);
        } else {
          newList := new int[0];
        }
        assert newList[..size] == list[..size];
        list, capacity := newList, newCapacity;
      }
    }

    /** has_fd: linear membership test. */
    method HasFd(fd: int) returns (r: int)
      requires Valid()
      ensures r == (if fd in Contents() then 1 else 0)
    {
      var i := 0;
      while i < size
        invariant 0 <= i <= size
        invariant fd !in list[..i]
      {
        if list[i] == fd {
          assert list[..size][i] == fd;
          return 1;
        }
        i := i + 1;
      }
      assert list[..i] == list[..size];
      return 0;
    }
  }
}
