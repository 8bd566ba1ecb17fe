/**
 * The open set of the search: a binary min-heap of node references kept in a
 * growable array, keyed on each node's total cost.
 */
module Heap {
  import opened Wrappers

  /** One slot of the heap: the node it refers to (an index into the node
      table) and the node's `total_cost`, the key the heap is ordered on. */
  datatype Entry = Entry(id: nat, key: int)

  function Parent(i: nat): nat
    requires i > 0
  {
    (i - 1) / 2
  }

  /** Slot `i`'s parent holds a key no larger than slot `i`'s. */
  predicate ParentOk(s: seq<Entry>, i: nat)
    requires 0 < i < |s|
  {
    s[Parent(i)].key <= s[i].key
  }

  /** Every parent's key is at most its child's key. */
  predicate IsHeap(s: seq<Entry>) {
    forall i :: 0 < i < |s| ==> ParentOk(s, i)
  }

  /** A heap except that the element at `k` may be smaller than its parent;
      `k`'s parent is still no larger than `k`'s children. */
  predicate HeapExceptUp(s: seq<Entry>, k: nat) {
    k < |s| &&
    (forall i :: 0 < i < |s| && i != k ==> ParentOk(s, i)) &&
    (forall i :: 0 < i < |s| && k > 0 && Parent(i) == k ==> s[Parent(k)].key <= s[i].key)
  }

  /** A heap except that the element at `k` may be larger than its children;
      `k`'s parent is still no larger than `k`'s children. */
  predicate HeapExceptDown(s: seq<Entry>, k: nat) {
    (forall i :: 0 < i < |s| && Parent(i) != k ==> ParentOk(s, i)) &&
    (forall i :: 0 < i < |s| && k > 0 && Parent(i) == k ==> s[Parent(k)].key <= s[i].key)
  }

  function Swap(s: seq<Entry>, a: nat, b: nat): (r: seq<Entry>)
    requires a < |s| && b < |s|
    ensures |r| == |s| && r[a] == s[b] && r[b] == s[a]
    ensures forall j :: 0 <= j < |s| && j != a && j != b ==> r[j] == s[j]
    ensures multiset(r) == multiset(s)
  {
    s[a := s[b]][b := s[a]]
  }

  /** The root of a heap holds the smallest key. */
  lemma {:induction false} RootIsMin(s: seq<Entry>, i: nat)
    requires IsHeap(s) && i < |s|
    ensures s[0].key <= s[i].key
    decreases i
  {
    if i > 0 {
      assert ParentOk(s, i);
      RootIsMin(s, Parent(i));
    }
  }

  /** One step of `heapify_up`: swapping a too-small element with its parent
      moves the defect one level up. */
  lemma SwapUp(s: seq<Entry>, k: nat)
    requires HeapExceptUp(s, k) && k > 0 && s[Parent(k)].key > s[k].key
    ensures HeapExceptUp(Swap(s, Parent(k), k), Parent(k))
  {
    var p := Parent(k);
    var r := Swap(s, p, k);
    forall i | 0 < i < |r| && i != p
      ensures ParentOk(r, i)
    {
      if i == k {
      } else if Parent(i) == k {
        assert r[i] == s[i];
      } else if Parent(i) == p {
        assert ParentOk(s, i) && r[i] == s[i];
      } else {
        assert ParentOk(s, i) && r[i] == s[i] && r[Parent(i)] == s[Parent(i)];
      }
    }
    if p > 0 {
      forall i | 0 < i < |r| && Parent(i) == p
        ensures r[Parent(p)].key <= r[i].key
      {
        assert Parent(p) < p;
        assert ParentOk(s, p) && r[Parent(p)] == s[Parent(p)];
        if i != k {
          assert ParentOk(s, i) && r[i] == s[i];
        }
      }
    }
  }

  /** One step of `heapify_down`: swapping a too-large element with its
      smaller child moves the defect one level down. */
  lemma SwapDown(s: seq<Entry>, k: nat, m: nat)
    requires HeapExceptDown(s, k) && m < |s| && m > 0 && Parent(m) == k
    requires s[m].key < s[k].key
    requires forall c :: 0 < c < |s| && Parent(c) == k ==> s[m].key <= s[c].key
    ensures HeapExceptDown(Swap(s, k, m), m)
  {
    var r := Swap(s, k, m);
    forall i | 0 < i < |r| && Parent(i) != m
      ensures ParentOk(r, i)
    {
      if i == k {
        assert Parent(k) != k && Parent(k) != m;
        assert r[Parent(k)] == s[Parent(k)];
      } else if Parent(i) == k {
        assert i != m ==> r[i] == s[i];
      } else {
        assert i != m;
        assert ParentOk(s, i) && r[i] == s[i] && r[Parent(i)] == s[Parent(i)];
      }
    }
    forall i | 0 < i < |r| && Parent(i) == m
      ensures r[Parent(m)].key <= r[i].key
    {
      assert i != k && i != m;
      assert ParentOk(s, i) && r[i] == s[i];
    }
  }

  /** Appending to a heap leaves the defect only at the new last slot. */
  lemma Append(s: seq<Entry>, e: Entry)
    requires IsHeap(s)
    ensures HeapExceptUp(s + [e], |s|)
  {
    var r := s + [e];
    forall i | 0 < i < |r| && i != |s|
      ensures ParentOk(r, i)
    {
      assert ParentOk(s, i);
    }
  }

  /** The slots whose parent is `k` are `2k+1` and `2k+2`. */
  lemma ChildSlots(i: nat, k: nat)
    requires i > 0
    ensures Parent(i) == k <==> (i == 2 * k + 1 || i == 2 * k + 2)
  {
  }

  /** The choice `heapify_down` makes between `k` and its two children
      yields a slot whose key is no larger than any child of `k`. */
  lemma SmallestOfFamily(s: seq<Entry>, k: nat, m: nat)
    requires m < |s| || m == k
    requires m == k || m == 2 * k + 1 || m == 2 * k + 2
    requires m < |s| ==> forall c :: 0 < c < |s| && (c == 2 * k + 1 || c == 2 * k + 2 || c == k) ==> s[m].key <= s[c].key
    ensures m != k ==> m > 0 && Parent(m) == k
    ensures m < |s| ==> forall c :: 0 < c < |s| && Parent(c) == k ==> s[m].key <= s[c].key
  {
    if m != k {
      ChildSlots(m, k);
    }
    forall c | 0 < c < |s| && Parent(c) == k && m < |s|
      ensures s[m].key <= s[c].key
    {
      ChildSlots(c, k);
    }
  }

  /** When no child of `k` is smaller than `k`, the defect is gone. */
  lemma SettledDown(s: seq<Entry>, k: nat)
    requires HeapExceptDown(s, k)
    requires forall c :: 0 < c < |s| && Parent(c) == k ==> s[k].key <= s[c].key
    ensures IsHeap(s)
  {
    forall i | 0 < i < |s|
      ensures ParentOk(s, i)
    {
      if Parent(i) == k {
        assert s[k].key <= s[i].key;
      }
    }
  }

  /** No entry of `s` has a key below `k`. */
  predicate KeysAtLeast(s: seq<Entry>, k: int) {
    forall i :: 0 <= i < |s| ==> k <= s[i].key
  }

  /** The entries of `s` as a multiset, counted one slot at a time. This is
      the form the queue's contracts use for its contents. */
  ghost function Bag(s: seq<Entry>): multiset<Entry>
  {
    if s == [] then multiset{} else Bag(s[..|s| - 1]) + multiset{s[|s| - 1]}
  }

  lemma {:induction false} BagIsMultiset(s: seq<Entry>)
    ensures Bag(s) == multiset(s)
    decreases |s|
  {
    if s != [] {
      BagIsMultiset(s[..|s| - 1]);
      assert s == s[..|s| - 1] + [s[|s| - 1]];
    }
  }

  lemma KeysAtLeastMember(s: seq<Entry>, k: int, e: Entry)
    requires KeysAtLeast(s, k) && e in Bag(s)
    ensures k <= e.key
  {
    BagIsMultiset(s);
    var i :| 0 <= i < |s| && s[i] == e;
  }

  /** Every key of a non-empty heap is at least the root's. */
  lemma RootIsMinAll(s: seq<Entry>)
    requires IsHeap(s) && |s| > 0
    ensures KeysAtLeast(s, s[0].key)
  {
    forall i | 0 <= i < |s|
      ensures s[0].key <= s[i].key
    {
      RootIsMin(s, i);
    }
  }

  /** Moving the last entry of a heap to the root and dropping the last
      slot removes the root and leaves the defect only at the root. */
  lemma {:induction false} RemoveRoot(s: seq<Entry>)
    requires IsHeap(s) && |s| > 0
    ensures var r := s[0 := s[|s| - 1]][..|s| - 1];
      HeapExceptDown(r, 0) && multiset(r) == multiset(s) - multiset{s[0]}
  {
    var n := |s|;
    var r := s[0 := s[n - 1]][..n - 1];
    if n > 1 {
      assert r == [s[n - 1]] + s[1..n - 1];
      assert s == [s[0]] + s[1..n - 1] + [s[n - 1]];
    }
    forall i | 0 < i < |r| && Parent(i) != 0
      ensures ParentOk(r, i)
    {
      assert ParentOk(s, i) && r[Parent(i)] == s[Parent(i)] && r[i] == s[i];
    }
  }

  lemma SwapPrefix(full: seq<Entry>, n: nat, a: nat, b: nat)
    requires a < n && b < n && n <= |full|
    ensures Swap(full, a, b)[..n] == Swap(full[..n], a, b)
    ensures Swap(full, a, b)[n..] == full[n..]
  {
  }

  lemma PrefixOfUpdate(full: seq<Entry>, n: nat, v: Entry)
    requires n < |full|
    ensures full[0 := v][..n] == full[..n + 1][0 := v][..n]
  {
  }

  /** The `PriorityQueue` record: the array `nodes` whose first `size` slots
      hold the heap, and its allocated length `capacity`. */
  class PriorityQueue {
    var nodes: array<Entry>
    var size: nat
    var capacity: nat

    /** The fields agree with each other, whether or not the heap order holds. */
    ghost predicate Shape()
      reads this
    {
      capacity == nodes.Length && 0 < capacity && size <= capacity
    }

    ghost predicate Valid()
      reads this, nodes
    {
      Shape() && IsHeap(nodes[..size])
    }

    /** The stored entries, in array order. */
    ghost function Contents(): seq<Entry>
      reads this, nodes
      requires Shape()
    {
      nodes[..size]
    }

    /** `create_priority_queue`: an empty queue with room for `capacity`
        entries. */
    constructor (capacity: nat)
      requires capacity > 0
      ensures Valid() && fresh(nodes)
      ensures this.capacity == capacity && Contents() == []
    {
      nodes := new Entry[capacity];
      size := 0;
      this.capacity := capacity;
    }

    /** `resize_priority_queue`: move to storage of `newCapacity` slots,
        keeping the slots both sizes have. `granted` is the allocator's
        answer; on refusal nothing changes. */
    method Resize(newCapacity: nat, granted: bool) returns (ok: bool)
      requires Valid() && 0 < newCapacity && size <= newCapacity
      modifies this
      ensures Valid() && ok == granted
      ensures size == old(size) && Contents() == old(Contents())
      ensures ok ==> fresh(nodes) && capacity == newCapacity
      ensures ok ==> forall j :: 0 <= j < old(capacity) && j < newCapacity ==> nodes[j] == old(nodes[j])
      ensures !ok ==> nodes == old(nodes) && capacity == old(capacity)
    {
      if !granted {
        return false;
      }
      var previous := nodes;
      nodes := new Entry[newCapacity](j reads previous => if 0 <= j < previous.Length then previous[j] else Entry(0, 0));
      capacity := newCapacity;
      assert nodes[..size] == previous[..size];
      return true;
    }

    /** `heapify_up`: swap the entry at `index` towards the root until its
        parent's key is no larger. Only swaps, so the entries are kept. */
    method HeapifyUp(index: nat)
      requires Shape() && HeapExceptUp(nodes[..size], index)
      modifies nodes
      ensures Valid()
      ensures multiset(Contents()) == old(multiset(Contents()))
      ensures nodes[size..] == old(nodes[size..])
    {
      var i: nat := index;
      while i > 0
        invariant HeapExceptUp(nodes[..size], i)
        invariant multiset(nodes[..size]) == old(multiset(nodes[..size]))
        invariant nodes[size..] == old(nodes[size..])
      {
        var p := (i - 1) / 2;
        if nodes[p].key > nodes[i].key {
          SwapUp(nodes[..size], i);
          ghost var before := nodes[..size];
          nodes[p], nodes[i] := nodes[i], nodes[p];
          assert nodes[..size] == Swap(before, p, i);
          i := p;
        } else {
          break;
        }
      }
    }

    /** `insert_priority_queue`: when full, first double the capacity (the
        allocator answers `grow`); if that fails the entry is dropped,
        otherwise it is appended and sifted up. */
    method Insert(e: Entry, grow: bool) returns (inserted: bool)
      requires Valid()
      modifies this, nodes
      ensures Valid()
      ensures inserted == (old(size) < old(capacity) || grow)
      ensures capacity == if old(size) == old(capacity) && grow then 2 * old(capacity) else old(capacity)
      ensures inserted ==> size == old(size) + 1 && Bag(Contents()) == old(Bag(Contents())) + multiset{e}
      ensures !inserted ==> size == old(size) && Contents() == old(Contents())
      ensures nodes == old(nodes) || fresh(nodes)
    {
      BagIsMultiset(Contents());
      if size == capacity {
        var ok := Resize(2 * capacity, grow);
        if !ok {
          return false;
        }
      }
      ghost var before := nodes[..size];
      nodes[size] := e;
      size := size + 1;
      assert nodes[..size] == before + [e];
      Append(before, e);
      HeapifyUp(size - 1);
      BagIsMultiset(Contents());
      return true;
    }

    /** `heapify_down`: swap the entry at `index` with its smaller child
        until neither child is smaller, recursing on the child's slot. */
    method HeapifyDown(index: nat)
      requires Shape() && index <= size && HeapExceptDown(nodes[..size], index)
      modifies nodes
      ensures Valid()
      ensures multiset(Contents()) == old(multiset(Contents()))
      ensures nodes[size..] == old(nodes[size..])
      decreases size - index
    {
      ghost var s := nodes[..size];
      var smallest := index;
      var left := 2 * index + 1;
      var right := 2 * index + 2;
      if left < size && nodes[left].key < nodes[smallest].key {
        smallest := left;
      }
      if right < size && nodes[right].key < nodes[smallest].key {
        smallest := right;
      }
      SmallestOfFamily(s, index, smallest);
      if smallest != index {
        SwapDown(s, index, smallest);
        ghost var full := nodes[..];
        nodes[index], nodes[smallest] := nodes[smallest], nodes[index];
        assert nodes[..] == Swap(full, index, smallest);
        SwapPrefix(full, size, index, smallest);
        HeapifyDown(smallest);
      } else {
        SettledDown(s, index);
      }
    }

    /** `pop_priority_queue`: on an empty queue, `None` and no change;
        otherwise the root, which holds a smallest key, with the last entry
        moved to the root and sifted down. */
    method Pop() returns (top: Option<Entry>)
      requires Valid()
      modifies this, nodes
      ensures Valid() && nodes == old(nodes) && capacity == old(capacity)
      ensures old(size) == 0 ==> top == None && size == 0 && nodes[..] == old(nodes[..])
      ensures old(size) > 0 ==> size == old(size) - 1
      ensures old(size) > 0 ==> top == Some(old(nodes[0]))
      ensures top.Some? ==> top.value in old(Bag(Contents()))
      ensures top.Some? ==> Bag(Contents()) == old(Bag(Contents())) - multiset{top.value}
      ensures top.Some? ==> KeysAtLeast(old(Contents()), top.value.key)
    {
      if size == 0 {
        return None;
      }
      ghost var before := nodes[..size];
      assert before == old(Contents());
      BagIsMultiset(before);
      RootIsMinAll(before);
      RemoveRoot(before);
      var last := nodes[size - 1];
      ghost var moved := before[0 := last][..size - 1];
      top := Some(nodes[0]);
      size := size - 1;
      ghost var full := nodes[..];
      nodes[0] := last;
      assert nodes[..] == full[0 := last];
      PrefixOfUpdate(full, size, last);
      assert nodes[..size] == moved;
      HeapifyDown(0);
      BagIsMultiset(Contents());
    }

    /** `is_empty_priority_queue`. */
    method IsEmpty() returns (empty: bool)
      requires Valid()
      ensures empty <==> Contents() == []
    {
      empty := size == 0;
    }

    /** Two pops in a row, with no insert between them, come out in
        non-decreasing key order. */
    method PopTwice() returns (first: Option<Entry>, second: Option<Entry>)
      requires Valid()
      modifies this, nodes
      ensures Valid()
      ensures first.Some? && second.Some? ==> first.value.key <= second.value.key
      ensures first.None? ==> second.None?
    {
      ghost var all := Contents();
      first := Pop();
      ghost var rest := Contents();
      second := Pop();
      if first.Some? && second.Some? {
        KeysAtLeastMember(all, first.value.key, second.value);
      }
    }
  }
}
