/**
 The priority queue of the link simulator (`link_sim_repo/min_queue.c`): a binary heap whose root is at index 0 but
 whose children are at 2x and 2x + 1, so that slot 0 is its own left child and has the single proper child 1.
 */
module MinQueues {
  const SLOTS_PER_MALLOC: nat := 20

  /** cmp(a, b) says that a is greater than b, and is a strict weak order. */
  ghost predicate StrictWeakOrder<T(!new)>(cmp: (T, T) -> bool) {
    && (forall a, b :: cmp(a, b) ==> !cmp(b, a))
    && (forall a, b, c :: !cmp(a, b) && !cmp(b, c) ==> !cmp(a, c))
  }

  /** No element is less than its parent. */
  ghost predicate Heap<T(!new)>(cmp: (T, T) -> bool, s: seq<T>) {
    forall i :: 1 <= i < |s| ==> !cmp(s[i / 2], s[i])
  }

  lemma {:induction false} RootIsLeast<T(!new)>(cmp: (T, T) -> bool, s: seq<T>, i: nat)
    requires StrictWeakOrder(cmp) && Heap(cmp, s) && i < |s|
    ensures !cmp(s[0], s[i])
    decreases i
  {
    if i > 0 {
      RootIsLeast(cmp, s, i / 2);
    }
  }

  /** The elements of s, however they are arranged. */
  ghost function Bag<T>(s: seq<T>): multiset<T> {
    multiset(s)
  }

  /** Moving the hole in s from i to p, with the element of p moved into i, keeps the elements around v. */
  lemma HoleMoves<T>(s: seq<T>, i: nat, p: nat, v: T)
    requires i < |s| && p < |s|
    ensures Bag(s[i := s[p]][p := v]) == Bag(s[i := v])
  {
    if i != p {
      var a, b := s[i := s[p]], s[i := v];
      assert multiset(a[p := v]) == multiset(a) - multiset{a[p]} + multiset{v};
      assert multiset(a) == multiset(s) - multiset{s[i]} + multiset{s[p]};
      assert multiset(b) == multiset(s) - multiset{s[i]} + multiset{v};
    }
  }

  lemma BagOfAppended<T>(s: seq<T>, v: T)
    ensures Bag(s + [v]) == Bag(s) + multiset{v}
  {
  }

  lemma SwapKeepsElements<T>(s: seq<T>, i: nat, j: nat)
    requires i < |s| && j < |s|
    ensures Bag(s[i := s[j]][j := s[i]]) == Bag(s)
  {
    HoleMoves(s, i, j, s[i]);
    assert s[i := s[i]] == s;
  }

  /** The last element takes the place of the root, which is what goes. */
  lemma RootGoes<T>(s: seq<T>)
    requires |s| > 0
    ensures var n := |s| - 1; Bag(s[0 := s[n]][..n]) == Bag(s) - multiset{s[0]}
  {
    var n := |s| - 1;
    var t := s[0 := s[n]];
    assert s == s[..n] + [s[n]];
    if n > 0 {
      assert t[..n] == s[..n][0 := s[n]];
    } else {
      assert t[..n] == [];
    }
  }

  // ---- sifting up

  /** A heap except at the hole i, where v would go: v is not greater than anything below. */
  ghost predicate HoleAt<T(!new)>(cmp: (T, T) -> bool, s: seq<T>, i: nat, v: T) {
    && i < |s|
    && (forall j :: 1 <= j < |s| && j != i && j / 2 != i ==> !cmp(s[j / 2], s[j]))
    && (forall j :: 1 <= j < |s| && j != i && j / 2 == i ==> !cmp(v, s[j]) && !cmp(s[i / 2], s[j]))
  }

  lemma HoleAtEnd<T(!new)>(cmp: (T, T) -> bool, was: seq<T>, s: seq<T>, v: T)
    requires Heap(cmp, was) && |s| == |was| + 1 && s[..|was|] == was
    ensures HoleAt(cmp, s, |was|, v)
  {
    forall j | 1 <= j < |was|
      ensures !cmp(s[j / 2], s[j])
    {
      assert was[j / 2] == s[j / 2] && was[j] == s[j];
    }
  }

  lemma HoleRises<T(!new)>(cmp: (T, T) -> bool, s: seq<T>, i: nat, v: T)
    requires StrictWeakOrder(cmp) && HoleAt(cmp, s, i, v) && i > 0 && cmp(s[i / 2], v)
    ensures HoleAt(cmp, s[i := s[i / 2]], i / 2, v)
  {
  }

  lemma HoleFilled<T(!new)>(cmp: (T, T) -> bool, s: seq<T>, i: nat, v: T)
    requires HoleAt(cmp, s, i, v) && (i == 0 || !cmp(s[i / 2], v))
    ensures Heap(cmp, s[i := v])
  {
  }

  // ---- sifting down

  /** A heap except below i, whose children are not less than its parent. */
  ghost predicate BrokenAt<T(!new)>(cmp: (T, T) -> bool, s: seq<T>, i: nat) {
    && (forall j :: 1 <= j < |s| && j / 2 != i ==> !cmp(s[j / 2], s[j]))
    && (i > 0 ==> forall j :: 1 <= j < |s| && j / 2 == i ==> !cmp(s[i / 2], s[j]))
  }

  /** c is the child of i to move to, or 0 when the element at i is in place. */
  ghost predicate LeastChild<T(!new)>(cmp: (T, T) -> bool, s: seq<T>, i: nat, c: nat) {
    if c == 0 then forall j :: 1 <= j < |s| && j / 2 == i ==> !cmp(s[i], s[j])
    else i < c < |s| && c / 2 == i && forall j :: 1 <= j < |s| && j / 2 == i ==> !cmp(s[c], s[j])
  }

  lemma BrokenAtRoot<T(!new)>(cmp: (T, T) -> bool, was: seq<T>)
    requires Heap(cmp, was) && |was| > 0
    ensures var n := |was| - 1; BrokenAt(cmp, was[0 := was[n]][..n], 0)
  {
  }

  lemma BreakSinks<T(!new)>(cmp: (T, T) -> bool, s: seq<T>, i: nat, c: nat)
    requires StrictWeakOrder(cmp) && BrokenAt(cmp, s, i) && c > 0 && LeastChild(cmp, s, i, c) && cmp(s[i], s[c])
    ensures BrokenAt(cmp, s[i := s[c]][c := s[i]], c)
  {
  }

  lemma BreakEnds<T(!new)>(cmp: (T, T) -> bool, s: seq<T>, i: nat, c: nat)
    requires StrictWeakOrder(cmp) && BrokenAt(cmp, s, i) && (i < |s| || |s| == 0)
    requires LeastChild(cmp, s, i, c) && (c == 0 || !cmp(s[i], s[c]))
    ensures Heap(cmp, s)
  {
  }

  class MinQueue<T(0, !new)> {
    const cmp: (T, T) -> bool
    var size: nat
    var alloc: nat
    var e: array<T>

    ghost predicate Shape()
      reads this, e
    {
      size <= alloc == e.Length && StrictWeakOrder(cmp)
    }

    ghost predicate Valid()
      reads this, e
    {
      Shape() && Heap(cmp, e[..size])
    }

    ghost function Elements(): multiset<T>
      requires size <= e.Length
      reads this, e
    {
      Bag(e[..size])
    }

    constructor (cmp: (T, T) -> bool)
      requires StrictWeakOrder(cmp)
      ensures Valid() && fresh(e) && this.cmp == cmp && Elements() == multiset{}
    {
      this.cmp := cmp;
      size, alloc := 0, SLOTS_PER_MALLOC;
      e := new T[SLOTS_PER_MALLOC];
      new;
      assert e[..0] == [];
    }

    predicate IsEmpty()
      reads this
    {
      size == 0
    }

    /** Makes room for one more element; `realloc` keeps those there are. */
    method Grow()
      requires Valid()
      modifies this`alloc, this`e
      ensures Valid() && size == old(size) < alloc && e[..size] == old(e[..size])
      ensures e == old(e) || fresh(e)
    {
      if size == alloc {
        var resizeTo := size + SLOTS_PER_MALLOC;
        var tmp := new T[resizeTo];
        forall i | 0 <= i < size {
          tmp[i] := e[i];
        }
        e := tmp;
        alloc := resizeTo;
        assert e[..size] == old(e[..size]);
      }
    }

    method Push(v: T)
      requires Valid()
      modifies this, e
      ensures Valid() && (e == old(e) || fresh(e))
      ensures Elements() == old(Elements()) + multiset{v}
    {
      hide StrictWeakOrder, Heap, HoleAt, Bag;
      Grow();
      ghost var was := e[..size];
      var i := size;
      size := size + 1;
      var parent := i / 2;
      ghost var s := e[..size];
      HoleAtEnd(cmp, was, s, v);
      assert s[i := v] == was + [v];
      BagOfAppended(was, v);
      while i != 0 && cmp(e[parent], v)
        invariant i < size == |was| + 1 && parent == i / 2 && Shape()
        invariant e == old(e) || fresh(e)
        invariant s == e[..size] && HoleAt(cmp, s, i, v)
        invariant Bag(s[i := v]) == Bag(was) + multiset{v}
        decreases i
      {
        HoleMoves(s, i, parent, v);
        HoleRises(cmp, s, i, v);
        s := s[i := e[parent]];
        e[i] := e[parent];
        i := parent;
        parent := i / 2;
      }
      HoleFilled(cmp, s, i, v);
      e[i] := v;
      assert e[..size] == s[i := v];
    }

    /** The child of i with the smaller element, or 0 if there is none to move to. */
    method HasChild(i: nat) returns (child: nat)
      requires Shape() && (i < size || size == 0)
      ensures LeastChild(cmp, e[..size], i, child) && (child == 0 || i < child < size)
    {
      var left := 2 * i;
      if left >= size {
        return 0;
      }
      var right := left + 1;
      if right < size && cmp(e[left], e[right]) {
        return right;
      }
      return left;
    }

    method Pop()
      requires Valid()
      modifies this`size, e
      ensures Valid()
      ensures old(size) == 0 ==> size == 0
      ensures old(size) > 0 ==> Elements() == old(Elements()) - multiset{old(e[0])}
    {
      hide StrictWeakOrder, Heap, BrokenAt, LeastChild, Bag;
      if IsEmpty() { return; }
      ghost var was := e[..size];
      RootGoes(was);
      BrokenAtRoot(cmp, was);
      size := size - 1;
      e[0] := e[size];
      ghost var s := e[..size];
      assert s == was[0 := was[size]][..size];
      var current: nat := 0;
      var minChild: nat := HasChild(current);
      while minChild != 0 && cmp(e[current], e[minChild])
        invariant 0 <= current && Shape() && size == |was| - 1 && (current < size || size == 0)
        invariant s == e[..size] && BrokenAt(cmp, s, current)
        invariant LeastChild(cmp, s, current, minChild) && (minChild == 0 || current < minChild < size)
        invariant Bag(s) == Bag(was) - multiset{was[0]}
        decreases size - current
      {
        SwapKeepsElements(s, current, minChild);
        BreakSinks(cmp, s, current, minChild);
        s := s[current := s[minChild]][minChild := s[current]];
        e[current], e[minChild] := e[minChild], e[current];
        current := minChild;
        minChild := HasChild(current);
      }
      BreakEnds(cmp, s, current, minChild);
    }

    /** The least element, or nothing from an empty queue. */
    method Peek() returns (found: bool, v: T)
      requires Valid()
      ensures found <==> size != 0
      ensures found ==> v == e[0] && v in Elements() && forall x :: x in Elements() ==> !cmp(v, x)
    {
      v := *;
      if IsEmpty() { return false, v; }
      forall x | x in e[..size]
        ensures !cmp(e[0], x)
      {
        var i :| 0 <= i < size && e[..size][i] == x;
        RootIsLeast(cmp, e[..size], i);
      }
      assert e[0] == e[..size][0];
      return true, e[0];
    }
  }
}
