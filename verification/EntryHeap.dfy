/** The scheduling heap: entries ordered by their next run, each knowing its own index. */
module EntryHeaps {

  import opened Entries
  import opened Options

  // ----- the order -----

  /** What the heap compares: the next run, None being the zero time, and the priority. */
  datatype Key = Key(next: Option<int>, priority: int)

  /** a should fire before b. */
  predicate Less(a: Key, b: Key) {
    if a.next.None? then false
    else if b.next.None? then true
    else if a.next == b.next then a.priority > b.priority
    else a.next.value < b.next.value
  }

  lemma LessIsStrictWeakOrder(a: Key, b: Key, c: Key)
    ensures !Less(a, a)
    ensures Less(a, b) ==> !Less(b, a)
    ensures !Less(a, b) && !Less(b, c) ==> !Less(a, c)
  {
  }

  /** What "not later" means: an earlier run or, at the same time, no lower priority; entries without a run come
      last. */
  lemma NotLessIs(a: Key, b: Key)
    ensures !Less(b, a)
            <==> b.next.None?
                 || (a.next.Some? && (a.next.value < b.next.value
                                      || (a.next.value == b.next.value && a.priority >= b.priority)))
  {
  }

  function Parent(k: int): int { (k - 1) / 2 }

  /** Position k does not fire before its parent. */
  predicate InOrder(ks: seq<Key>, k: int)
    requires 0 < k < |ks|
  {
    !Less(ks[k], ks[Parent(k)])
  }

  predicate IsHeap(ks: seq<Key>) {
    forall k :: 0 < k < |ks| ==> InOrder(ks, k)
  }

  function Swapped<T>(s: seq<T>, i: int, j: int): (r: seq<T>)
    requires 0 <= i < |s| && 0 <= j < |s|
    ensures |r| == |s|
  {
    s[i := s[j]][j := s[i]]
  }

  /** Among the first n positions, those whose parent is `low` or later are in order. */
  predicate OrderedFrom(ks: seq<Key>, low: int, n: int)
    requires n <= |ks|
  {
    forall k :: 0 < k < n && Parent(k) >= low ==> InOrder(ks, k)
  }

  /** In order except perhaps j with its parent; j's children are in order with that parent. */
  predicate HeapExceptUp(ks: seq<Key>, j: int, n: int)
    requires 0 <= j < n <= |ks|
  {
    && (forall k :: 0 < k < n && k != j ==> InOrder(ks, k))
    && (forall k :: 0 < k < n && Parent(k) == j && j > 0 ==> !Less(ks[k], ks[Parent(j)]))
  }

  /** In order from `low` on except perhaps i's children; those are in order with i's parent. */
  predicate HeapExceptDown(ks: seq<Key>, i: int, low: int, n: int)
    requires 0 <= i && 0 <= low && n <= |ks|
  {
    && (forall k :: 0 < k < n && Parent(k) >= low && Parent(k) != i ==> InOrder(ks, k))
    && (forall k :: 0 < k < n && Parent(k) == i && i > 0 && Parent(i) >= low ==> !Less(ks[k], ks[Parent(i)]))
  }

  /** In order except perhaps i with its parent and with its children. */
  predicate HeapExceptAt(ks: seq<Key>, i: int, n: int)
    requires 0 <= i && n <= |ks|
  {
    && (forall k :: 0 < k < n && k != i && Parent(k) != i ==> InOrder(ks, k))
    && (forall k :: 0 < k < n && Parent(k) == i && i > 0 ==> !Less(ks[k], ks[Parent(i)]))
  }

  lemma SwapUp(ks: seq<Key>, j: int, n: int)
    requires 0 < j < n <= |ks| && HeapExceptUp(ks, j, n) && Less(ks[j], ks[Parent(j)])
    ensures HeapExceptUp(Swapped(ks, Parent(j), j), Parent(j), n)
  {
    var i, r := Parent(j), Swapped(ks, Parent(j), j);
    forall k | 0 < k < n && k != i
      ensures InOrder(r, k)
    {
      if k != j {
        assert InOrder(ks, k);
      }
    }
    forall k | 0 < k < n && Parent(k) == i && i > 0
      ensures !Less(r[k], r[Parent(i)])
    {
      assert InOrder(ks, i);
      if k != j {
        assert InOrder(ks, k);
      }
    }
  }

  lemma UpIsDone(ks: seq<Key>, j: int, n: int)
    requires 0 <= j < n <= |ks| && HeapExceptUp(ks, j, n) && (j == 0 || !Less(ks[j], ks[Parent(j)]))
    ensures OrderedFrom(ks, 0, n)
  {
  }

  /** The child of i that fires first. */
  predicate FirstChild(ks: seq<Key>, i: int, j: int, n: int)
    requires n <= |ks|
  {
    0 < j < n && Parent(j) == i && forall k :: 0 < k < n && Parent(k) == i ==> !Less(ks[k], ks[j])
  }

  lemma ChooseFirstChild(ks: seq<Key>, i: int, j: int, n: int)
    requires 0 <= i && 2 * i + 1 < n <= |ks|
    requires j == if 2 * i + 2 < n && Less(ks[2 * i + 2], ks[2 * i + 1]) then 2 * i + 2 else 2 * i + 1
    ensures FirstChild(ks, i, j, n)
  {
  }

  lemma SwapDown(ks: seq<Key>, i: int, low: int, n: int, j: int)
    requires 0 <= i && 0 <= low <= i && n <= |ks| && HeapExceptDown(ks, i, low, n)
    requires FirstChild(ks, i, j, n) && Less(ks[j], ks[i])
    ensures HeapExceptDown(Swapped(ks, i, j), j, low, n)
  {
    var r := Swapped(ks, i, j);
    forall k | 0 < k < n && Parent(k) >= low && Parent(k) != j
      ensures InOrder(r, k)
    {
      if Parent(k) != i {
        assert InOrder(ks, k);
      }
    }
    forall k | 0 < k < n && Parent(k) == j
      ensures !Less(r[k], r[i])
    {
      assert InOrder(ks, k);
    }
  }

  /** i has a child that should fire before it. */
  predicate SomeChildLess(ks: seq<Key>, i: int, n: int)
    requires 0 <= i < |ks| && n <= |ks|
  {
    exists k :: 0 < k < n && Parent(k) == i && Less(ks[k], ks[i])
  }

  lemma DownIsDone(ks: seq<Key>, i: int, low: int, n: int)
    requires 0 <= i < |ks| && 0 <= low <= i && n <= |ks| && HeapExceptDown(ks, i, low, n)
    requires !SomeChildLess(ks, i, n)
    ensures OrderedFrom(ks, low, n)
  {
  }

  lemma NoChildLess(ks: seq<Key>, i: int, j: int, n: int)
    requires 0 <= i < |ks| && n <= |ks| && (2 * i + 1 >= n || (FirstChild(ks, i, j, n) && !Less(ks[j], ks[i])))
    ensures !SomeChildLess(ks, i, n)
  {
    forall k | 0 < k < n && Parent(k) == i
      ensures !Less(ks[k], ks[i])
    {
      LessIsStrictWeakOrder(ks[k], ks[j], ks[i]);
    }
  }

  // Where i may be out of order both ways, `down` starts at i itself if i fires before its parent: then it moves
  // nothing, and `up` does the work.
  lemma MayGoDown(ks: seq<Key>, i: int, n: int)
    requires 0 <= i < n <= |ks| && HeapExceptAt(ks, i, n)
    ensures var low := if i > 0 && Less(ks[i], ks[Parent(i)]) then i else 0;
            && HeapExceptDown(ks, i, low, n)
            && (low > 0 ==> !SomeChildLess(ks, i, n))
  {
    forall k | 0 < k < n && Parent(k) == i && i > 0 && Less(ks[i], ks[Parent(i)])
      ensures !Less(ks[k], ks[i])
    {
      LessIsStrictWeakOrder(ks[k], ks[Parent(i)], ks[i]);
    }
  }

  lemma MayGoUp(ks: seq<Key>, i: int, low: int, n: int)
    requires 0 <= low <= i < n <= |ks| && HeapExceptAt(ks, i, n) && OrderedFrom(ks, low, n)
    ensures HeapExceptUp(ks, i, n)
  {
  }

  lemma ChangedAt(ks: seq<Key>, i: int, k: Key)
    requires 0 <= i < |ks| && IsHeap(ks)
    ensures HeapExceptAt(ks[i := k], i, |ks|)
  {
    forall c | 0 < c < |ks| && Parent(c) == i && i > 0
      ensures !Less(ks[c], ks[Parent(i)])
    {
      assert InOrder(ks, c) && InOrder(ks, i);
      LessIsStrictWeakOrder(ks[c], ks[i], ks[Parent(i)]);
    }
    forall c | 0 < c < |ks| && c != i && Parent(c) != i
      ensures InOrder(ks[i := k], c)
    {
      assert InOrder(ks, c);
    }
  }

  lemma SwappedOut(ks: seq<Key>, i: int)
    requires 0 <= i < |ks| && IsHeap(ks)
    ensures HeapExceptAt(Swapped(ks, i, |ks| - 1), i, |ks| - 1)
  {
    var n := |ks| - 1;
    ChangedAt(ks, i, ks[n]);
    var r := Swapped(ks, i, n);
    forall c | 0 < c < n && c != i && Parent(c) != i
      ensures InOrder(r, c)
    {
      assert InOrder(ks[i := ks[n]], c);
    }
  }

  lemma Appended(ks: seq<Key>, k: Key)
    requires IsHeap(ks)
    ensures HeapExceptUp(ks + [k], |ks|, |ks| + 1)
  {
    forall c | 0 < c < |ks|
      ensures InOrder(ks + [k], c)
    {
      assert InOrder(ks, c);
    }
  }

  lemma HeapPrefix(ks: seq<Key>, n: int)
    requires 0 <= n <= |ks| && OrderedFrom(ks, 0, n)
    ensures IsHeap(ks[..n])
  {
    forall c | 0 < c < n
      ensures InOrder(ks[..n], c)
    {
      assert InOrder(ks, c);
    }
  }

  /** The root of a heap fires before everyone else, or together with them. */
  lemma {:induction false} RootIsFirst(ks: seq<Key>, k: int)
    requires IsHeap(ks) && 0 <= k < |ks|
    ensures !Less(ks[k], ks[0])
    decreases k
  {
    if k == 0 {
    } else {
      RootIsFirst(ks, Parent(k));
      assert InOrder(ks, k);
      LessIsStrictWeakOrder(ks[k], ks[Parent(k)], ks[0]);
    }
  }

  // ----- the heap in place -----

  function MembersOf(es: seq<Entry>): set<Entry> { set e | e in es }

  function KeyOf(e: Entry): Key
    reads e`next
  {
    Key(e.next, e.priority)
  }

  function KeysOf(es: seq<Entry>): (ks: seq<Key>)
    reads MembersOf(es)`next
    ensures |ks| == |es| && forall i :: 0 <= i < |es| ==> ks[i] == KeyOf(es[i])
  {
    if es == [] then [] else KeysOf(es[..|es| - 1]) + [KeyOf(es[|es| - 1])]
  }

  lemma SwappedMembers(es: seq<Entry>, i: int, j: int)
    requires 0 <= i < |es| && 0 <= j < |es|
    ensures MembersOf(Swapped(es, i, j)) == MembersOf(es)
  {
    var r := Swapped(es, i, j);
    forall e | e in es
      ensures e in r
    {
      var k :| 0 <= k < |es| && es[k] == e;
      assert r[if k == i then j else if k == j then i else k] == e;
    }
  }

  class EntryHeap {
    var slots: seq<Entry>

    constructor ()
      ensures slots == []
    {
      slots := [];
    }

    function Members(): set<Entry>
      reads `slots
    {
      MembersOf(slots)
    }

    function Keys(): (ks: seq<Key>)
      reads `slots, Members()`next
      ensures |ks| == |slots|
    {
      KeysOf(slots)
    }

    /** Every entry's stored index is its place. */
    ghost predicate Indexed()
      reads `slots, Members()`heapIndex
    {
      forall i :: 0 <= i < |slots| ==> slots[i].heapIndex == i
    }

    /** A heap under Less whose entries know their places. */
    ghost predicate Valid()
      reads `slots, Members()`heapIndex, Members()`next
    {
      Indexed() && IsHeap(Keys())
    }

    /** Whether e is in the heap can be told from its stored index. */
    predicate HasAtIndex(e: Entry)
      reads `slots, e`heapIndex
    {
      0 <= e.heapIndex < |slots| && slots[e.heapIndex] == e
    }

    lemma IndexTells(e: Entry)
      requires Indexed()
      ensures HasAtIndex(e) <==> e in Members()
    {
    }

    /** Swap */
    method Swap(i: int, j: int)
      requires Indexed() && 0 <= i < |slots| && 0 <= j < |slots|
      modifies `slots, Members()`heapIndex
      ensures slots == Swapped(old(slots), i, j)
      ensures Indexed() && Members() == old(Members()) && Keys() == Swapped(old(Keys()), i, j)
    {
      SwappedMembers(slots, i, j);
      slots := Swapped(slots, i, j);
      slots[i].heapIndex := i;
      slots[j].heapIndex := j;
    }

    /** up of container/heap, among the first n slots */
    method Up(j0: int, ghost n: int)
      requires Indexed() && 0 <= j0 < n <= |slots| && HeapExceptUp(Keys(), j0, n)
      modifies `slots, Members()`heapIndex
      ensures Indexed() && Members() == old(Members()) && |slots| == old(|slots|)
      ensures OrderedFrom(Keys(), 0, n)
      ensures forall k :: n <= k < |slots| ==> slots[k] == old(slots[k])
    {
      hide HeapExceptUp, OrderedFrom, Less, MembersOf, Swapped;
      var j := j0;
      while true
        invariant 0 <= j < n <= |slots| == old(|slots|) && Indexed() && HeapExceptUp(Keys(), j, n)
        invariant Members() == old(Members())
        invariant forall k :: n <= k < |slots| ==> slots[k] == old(slots[k])
        decreases j
      {
        var i := if j == 0 then 0 else Parent(j);
        if i == j || !Less(KeyOf(slots[j]), KeyOf(slots[i])) {
          UpIsDone(Keys(), j, n);
          return;
        }
        SwapUp(Keys(), j, n);
        SwapKeeps(slots, i, j, n);
        Swap(i, j);
        j := i;
      }
    }

    static lemma SwapKeeps(es: seq<Entry>, i: int, j: int, n: int)
      requires 0 <= i < |es| && 0 <= j < |es| && i < n && j < n
      ensures forall k :: n <= k < |es| ==> Swapped(es, i, j)[k] == es[k]
    {
    }

    /** down of container/heap, among the first n slots */
    method Down(i0: int, n: int, ghost low: int) returns (moved: bool)
      requires Indexed() && 0 <= low <= i0 < |slots| && 0 <= n <= |slots| && HeapExceptDown(Keys(), i0, low, n)
      modifies `slots, Members()`heapIndex
      ensures Indexed() && Members() == old(Members()) && |slots| == old(|slots|)
      ensures OrderedFrom(Keys(), low, n)
      ensures !moved ==> slots == old(slots) && Keys() == old(Keys())
      ensures moved ==> old(SomeChildLess(Keys(), i0, n))
      ensures forall k :: n <= k < |slots| ==> slots[k] == old(slots[k])
    {
      hide HeapExceptDown, OrderedFrom, Less, MembersOf, Swapped, FirstChild, SomeChildLess, KeysOf, Parent;
      ghost var before := Keys();
      var i := i0;
      while true
        invariant low <= i0 <= i < |slots| == old(|slots|) && Indexed() && HeapExceptDown(Keys(), i, low, n)
        invariant Members() == old(Members())
        invariant i == i0 ==> slots == old(slots) && Keys() == before
        invariant i > i0 ==> SomeChildLess(before, i0, n)
        invariant forall k :: n <= k < |slots| ==> slots[k] == old(slots[k])
        decreases |slots| - i
      {
        var j1 := 2 * i + 1;
        if j1 >= n {
          NoChildLess(Keys(), i, j1, n);
          DownIsDone(Keys(), i, low, n);
          break;
        }
        var j, j2 := j1, j1 + 1;
        if j2 < n && Less(KeyOf(slots[j2]), KeyOf(slots[j1])) {
          j := j2;
        }
        ChooseFirstChild(Keys(), i, j, n);
        if !Less(KeyOf(slots[j]), KeyOf(slots[i])) {
          NoChildLess(Keys(), i, j, n);
          DownIsDone(Keys(), i, low, n);
          break;
        }
        LessChild(Keys(), i, j, n);
        SwapDown(Keys(), i, low, n, j);
        SwapKeeps(slots, i, j, n);
        Swap(i, j);
        i := j;
      }
      moved := i > i0;
    }

    static lemma LessChild(ks: seq<Key>, i: int, j: int, n: int)
      requires 0 <= i < |ks| && n <= |ks| && FirstChild(ks, i, j, n) && Less(ks[j], ks[i])
      ensures SomeChildLess(ks, i, n) && i < j < n
    {
    }

    /** What heap.Fix and heap.Remove do at slot i: down, and up if that moved nothing. */
    method Settle(i: int, n: int)
      requires Indexed() && 0 <= i < n <= |slots| && HeapExceptAt(Keys(), i, n)
      modifies `slots, Members()`heapIndex
      ensures Indexed() && Members() == old(Members()) && |slots| == old(|slots|)
      ensures OrderedFrom(Keys(), 0, n)
      ensures forall k :: n <= k < |slots| ==> slots[k] == old(slots[k])
    {
      hide HeapExceptDown, HeapExceptAt, HeapExceptUp, OrderedFrom, Less, MembersOf, SomeChildLess;
      ghost var low := if i > 0 && Less(Keys()[i], Keys()[Parent(i)]) then i else 0;
      MayGoDown(Keys(), i, n);
      var moved := Down(i, n, low);
      if !moved {
        MayGoUp(Keys(), i, low, n);
        Up(i, n);
      }
    }

    /** heap.Push */
    method Push(e: Entry)
      requires Valid() && e !in Members()
      modifies `slots, Members()`heapIndex, e`heapIndex
      ensures Valid() && Members() == old(Members()) + {e}
    {
      hide HeapExceptUp, OrderedFrom, KeysOf;
      Appended(Keys(), KeyOf(e));
      ghost var before := Keys();
      e.heapIndex := |slots|;
      slots := slots + [e];
      assert Keys() == before + [KeyOf(e)];
      Up(|slots| - 1, |slots|);
      WholeHeap(Keys());
    }

    static lemma WholeHeap(ks: seq<Key>)
      ensures OrderedFrom(ks, 0, |ks|) <==> IsHeap(ks)
    {
      if IsHeap(ks) {
        forall k | 0 < k < |ks|
          ensures InOrder(ks, k)
        {
        }
      } else {
        var k :| 0 < k < |ks| && !InOrder(ks, k);
        assert Parent(k) >= 0;
      }
    }

    /** Peek */
    function Peek(): Entry?
      reads `slots
    {
      if |slots| == 0 then null else slots[0]
    }

    /** Peek gives the entry that fires first, or together with others. */
    lemma PeekIsFirst()
      requires Valid()
      ensures Peek() == null <==> slots == []
      ensures Peek() != null ==> Peek() in Members() && forall e :: e in Members() ==> !Less(KeyOf(e), KeyOf(Peek()))
      ensures Peek() != null ==>
                forall e :: e in Members() && e.next.Some? ==>
                              Peek().next.Some? && (Peek().next.value < e.next.value
                                                    || (Peek().next == e.next && Peek().priority >= e.priority))
    {
      hide Less, IsHeap, KeysOf;
      forall e | e in Members()
        ensures !Less(KeyOf(e), KeyOf(Peek()))
        ensures e.next.Some? ==> Peek().next.Some? && (Peek().next.value < e.next.value
                                                       || (Peek().next == e.next && Peek().priority >= e.priority))
      {
        var k :| 0 <= k < |slots| && slots[k] == e;
        RootIsFirst(Keys(), k);
        NotLessIs(KeyOf(Peek()), KeyOf(e));
      }
    }

    /** Update: restore the order after e's next run has changed. */
    method Update(e: Entry)
      requires Indexed()
      requires if e in Members() then HeapExceptAt(Keys(), e.heapIndex, |slots|) else IsHeap(Keys())
      modifies `slots, Members()`heapIndex
      ensures Valid() && Members() == old(Members())
    {
      hide HeapExceptAt, OrderedFrom, IsHeap, KeysOf;
      IndexTells(e);
      if HasAtIndex(e) {
        Settle(e.heapIndex, |slots|);
        WholeHeap(Keys());
      }
    }

    /** RemoveAt: false when e is not in the heap, whatever its stored index says. */
    method RemoveAt(e: Entry) returns (removed: bool)
      requires Valid()
      modifies `slots, Members()`heapIndex
      ensures removed <==> e in old(Members())
      ensures Valid() && Members() == old(Members()) - {e}
      ensures removed ==> e.heapIndex == -1
    {
      hide HeapExceptAt, OrderedFrom, IsHeap, KeysOf, Swapped;
      IndexTells(e);
      if !HasAtIndex(e) {
        return false;
      }
      var i, n := e.heapIndex, |slots| - 1;
      if n != i {
        SwappedOut(Keys(), i);
        SwappedEnds(slots, i, n);
        Swap(i, n);
        Settle(i, n);
      } else {
        WholeHeap(Keys());
        ShorterHeap(Keys(), n);
      }
      PopLast();
      removed := true;
    }

    static lemma SwappedEnds<T>(s: seq<T>, i: int, j: int)
      requires 0 <= i < |s| && 0 <= j < |s|
      ensures Swapped(s, i, j)[j] == s[i]
    {
    }

    static lemma ShorterHeap(ks: seq<Key>, n: int)
      requires 0 <= n <= |ks| && OrderedFrom(ks, 0, |ks|)
      ensures OrderedFrom(ks, 0, n)
    {
    }

    /** Pop of heap.Interface: drop the last slot, which need not be in order. */
    method PopLast()
      requires Indexed() && slots != [] && OrderedFrom(Keys(), 0, |slots| - 1)
      modifies `slots, {slots[|slots| - 1]}`heapIndex
      ensures slots == old(slots[..|slots| - 1])
      ensures Valid() && Members() == old(Members()) - {old(slots[|slots| - 1])}
      ensures old(slots[|slots| - 1]).heapIndex == -1
    {
      hide OrderedFrom, IsHeap, KeysOf;
      var n := |slots| - 1;
      var last := slots[n];
      ghost var before, es := Keys(), slots;
      HeapPrefix(before, n);
      last.heapIndex := -1;
      slots := slots[..n];
      assert Keys() == before[..n];
      forall e | e in es && e != last
        ensures e in slots
      {
        var k :| 0 <= k < |es| && es[k] == e;
        assert slots[k] == e;
      }
    }

    /** heap.Init */
    method Init()
      requires Indexed()
      modifies `slots, Members()`heapIndex
      ensures Valid() && Members() == old(Members())
    {
      hide HeapExceptDown, OrderedFrom, IsHeap, KeysOf, SomeChildLess;
      var n := |slots|;
      var i := n / 2 - 1;
      NothingFrom(Keys(), i + 1, n);
      while i >= 0
        invariant -1 <= i < n / 2
        invariant n == |slots| && Indexed() && Members() == old(Members()) && OrderedFrom(Keys(), i + 1, n)
        decreases i + 1
      {
        OneMore(Keys(), i, n);
        var _ := Down(i, n, i);
        i := i - 1;
      }
      WholeHeap(Keys());
    }

    static lemma NothingFrom(ks: seq<Key>, low: int, n: int)
      requires n <= |ks| && low == n / 2
      ensures OrderedFrom(ks, low, n)
    {
    }

    static lemma OneMore(ks: seq<Key>, i: int, n: int)
      requires 0 <= i && n <= |ks| && OrderedFrom(ks, i + 1, n)
      ensures HeapExceptDown(ks, i, i, n)
    {
    }
  }
}
