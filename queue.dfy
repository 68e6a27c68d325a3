/** The priority queue (`FileDePriorite`) of Huffman trees: a list kept
    sorted by count, into which `enfiler` inserts in place and from which
    `defiler` removes the front. */
module PriorityQueues {
  import opened Common
  import opened HuffmanTrees

  /** Non-decreasing counts from front to back. */
  predicate Sorted(s: seq<Tree>)
  {
    forall i, j :: 0 <= i < j < |s| ==> s[i].count <= s[j].count
  }

  /** Where the scan of `enfiler` stops: it moves past an element only while
      the new element is strictly greater than it. */
  function InsertionPoint(s: seq<Tree>, x: Tree): (k: nat)
    ensures k <= |s|
  {
    if s == [] || !Greater(x, s[0]) then 0 else 1 + InsertionPoint(s[1..], x)
  }

  /** The list after `enfiler(x)`: `x` inserted at the insertion point. */
  function Insert(s: seq<Tree>, x: Tree): seq<Tree>
  {
    var k := InsertionPoint(s, x);
    s[..k] + [x] + s[k..]
  }

  /** The list after enqueuing `xs` one at a time, in order, into `s`. */
  function InsertAll(s: seq<Tree>, xs: seq<Tree>): seq<Tree>
  {
    if xs == [] then s else Insert(InsertAll(s, xs[..|xs| - 1]), xs[|xs| - 1])
  }

  /** In a sorted list the insertion point separates the elements of strictly
      smaller count from the others: `x` goes in front of every element of
      equal count, so among equal counts the newest comes out first. */
  lemma {:induction false} InsertionPointSplits(s: seq<Tree>, x: Tree)
    requires Sorted(s)
    ensures forall j :: 0 <= j < InsertionPoint(s, x) ==> s[j].count < x.count
    ensures forall j :: InsertionPoint(s, x) <= j < |s| ==> x.count <= s[j].count
  {
    if s != [] && Greater(x, s[0]) {
      InsertionPointSplits(s[1..], x);
      forall j | 1 <= j < |s| ensures s[j] == s[1..][j - 1] { }
    }
  }

  /** Insertion keeps the list sorted, adds exactly `x`, and places it
      before every element whose count equals its own. */
  lemma InsertKeepsSorted(s: seq<Tree>, x: Tree)
    requires Sorted(s)
    ensures Sorted(Insert(s, x))
    ensures |Insert(s, x)| == |s| + 1
    ensures multiset(Insert(s, x)) == multiset(s) + multiset{x}
    ensures forall j :: 0 <= j < |Insert(s, x)| && Insert(s, x)[j] != x ==> Insert(s, x)[j] in s
    ensures Insert(s, x)[InsertionPoint(s, x)] == x
    ensures forall j :: InsertionPoint(s, x) < j < |s| + 1 ==>
              Insert(s, x)[j] == s[j - 1] && x.count <= s[j - 1].count
  {
    InsertionPointSplits(s, x);
    InsertShape(s, x);
    InsertMultiset(s, x);
    InsertSorted(s, x);
  }

  /** Insertion adds exactly `x`: every other element comes from `s`. */
  lemma InsertMultiset(s: seq<Tree>, x: Tree)
    ensures multiset(Insert(s, x)) == multiset(s) + multiset{x}
    ensures forall j :: 0 <= j < |Insert(s, x)| && Insert(s, x)[j] != x ==> Insert(s, x)[j] in s
  {
    var k := InsertionPoint(s, x);
    var a, b := s[..k], s[k..];
    assert s == a + b;
    assert multiset(s) == multiset(a) + multiset(b);
    assert multiset(a + [x] + b) == multiset(a) + multiset{x} + multiset(b);
    InsertShape(s, x);
    var t := Insert(s, x);
    forall j | 0 <= j < |t| && t[j] != x ensures t[j] in s {
      if j < k {
        assert t[j] == s[j];
      } else {
        assert t[j] == s[j - 1];
      }
    }
  }

  /** Insertion at the insertion point `k`: the elements before `k` stay,
      `x` is at `k`, and the others move one place back. */
  lemma InsertShape(s: seq<Tree>, x: Tree)
    ensures var k, t := InsertionPoint(s, x), Insert(s, x);
            |t| == |s| + 1 && t[k] == x &&
            (forall j :: 0 <= j < k ==> t[j] == s[j]) &&
            (forall j :: k < j < |t| ==> t[j] == s[j - 1])
  {
  }

  /** Insertion keeps the list sorted. */
  lemma InsertSorted(s: seq<Tree>, x: Tree)
    requires Sorted(s)
    ensures Sorted(Insert(s, x))
  {
    InsertionPointSplits(s, x);
    var k := InsertionPoint(s, x);
    var t := Insert(s, x);
    InsertShape(s, x);
    forall i, j | 0 <= i < j < |t| ensures t[i].count <= t[j].count {
      if j < k {
      } else if j == k {
      } else if i == k {
      } else if i < k {
        assert t[j] == s[j - 1];
      } else {
        assert t[i] == s[i - 1] && t[j] == s[j - 1];
      }
    }
  }

  /** Python's `list.remove(x)`: deletes the first element equal to `x`
      (equality being the trees' `__eq__`). */
  function RemoveFirst(s: seq<Tree>, x: Tree): (r: seq<Tree>)
    requires x in s
    ensures |r| == |s| - 1
    ensures s[0] == x ==> r == s[1..]
  {
    if !NotEqual(s[0], x) then s[1..] else [s[0]] + RemoveFirst(s[1..], x)
  }

  /** `list.remove(x)` deletes the element at the first position holding
      `x`, wherever it is, and keeps the others in order. */
  lemma {:induction false} RemoveFirstAt(s: seq<Tree>, x: Tree) returns (k: nat)
    requires x in s
    ensures k < |s| && s[k] == x && forall j :: 0 <= j < k ==> s[j] != x
    ensures RemoveFirst(s, x) == s[..k] + s[k + 1..]
  {
    if s[0] == x {
      k := 0;
    } else {
      var k' := RemoveFirstAt(s[1..], x);
      k := k' + 1;
      assert s[1..][..k'] == s[1..k];
      assert s[1..][k' + 1..] == s[k + 1..];
      assert [s[0]] + s[1..k] == s[..k];
    }
  }

  /** `FileDePriorite`: `items` is the internal list `_file`. */
  class PriorityQueue {
    var items: seq<Tree>

    ghost predicate Valid()
      reads this
    {
      Sorted(items)
    }

    /** `FileDePriorite(*elements)`: enqueues the arguments one at a time, in
        argument order. */
    constructor (elements: seq<Tree>)
      ensures Valid()
      ensures items == InsertAll([], elements)
    {
      items := [];
      new;
      for i := 0 to |elements|
        invariant Valid()
        invariant items == InsertAll([], elements[..i])
      {
        assert elements[..i + 1][..i] == elements[..i];
        Enqueue(elements[i]);
      }
      assert elements[..|elements|] == elements;
    }

    /** `__len__`. */
    function Length(): (n: nat)
      reads this
      ensures n == |items|
    {
      |items|
    }

    /** `est_vide`: holds exactly when the length is 0. */
    function IsEmpty(): (r: bool)
      reads this
      ensures r <==> Length() == 0
    {
      |items| == 0
    }

    /** `enfiler`: scans from the front while the new element is strictly
        greater than the current one, then inserts it there. */
    method Enqueue(x: Tree)
      requires Valid()
      modifies this
      ensures Valid()
      ensures items == Insert(old(items), x)
    {
      var i := ScanInsertionPoint(x);
      InsertKeepsSorted(items, x);
      items := items[..i] + [x] + items[i..];
    }

    /** The scan of `enfiler`: the first position whose element the new one
        is not strictly greater than (the end of the list if there is none). */
    method ScanInsertionPoint(x: Tree) returns (i: nat)
      ensures i == InsertionPoint(items, x)
    {
      i := 0;
      if !IsEmpty() {
        while i < |items| && Greater(x, items[i])
          invariant 0 <= i <= |items|
          invariant InsertionPoint(items, x) == i + InsertionPoint(items[i..], x)
        {
          assert items[i..][1..] == items[i + 1..];
          i := i + 1;
        }
      }
    }

    /** `element`: Python's `min` of the list, the first element that no
        element is strictly smaller than; an empty queue raises. On a sorted
        list that is the front element. */
    method Peek() returns (r: Result<Tree>)
      ensures items == [] ==> r == Err(EmptyQueue)
      ensures items != [] ==> r.Ok? && r.value in items
      ensures r.Ok? ==> forall j :: 0 <= j < |items| ==> !Less(items[j], r.value)
      ensures r.Ok? ==> exists m :: 0 <= m < |items| && items[m] == r.value &&
                          forall j :: 0 <= j < m ==> Less(r.value, items[j])
      ensures Valid() && items != [] ==> r == Ok(items[0])
    {
      if IsEmpty() {
        r := Err(EmptyQueue);
      } else {
        var least := items[0];
        var at := 0;
        for k := 1 to |items|
          invariant 0 <= at < k && least == items[at]
          invariant forall j :: 0 <= j < k ==> !Less(items[j], least)
          invariant forall j :: 0 <= j < at ==> Less(least, items[j])
        {
          if Less(items[k], least) {
            least := items[k];
            at := k;
          }
        }
        r := Ok(least);
      }
    }

    /** `defiler`: takes the minimum (`element`) and removes the first element
        equal to it (`list.remove`); an empty queue raises. */
    method Dequeue() returns (r: Result<Tree>)
      requires Valid()
      modifies this
      ensures Valid()
      ensures old(items) == [] ==> r == Err(EmptyQueue) && items == old(items)
      ensures old(items) != [] ==> r == Ok(old(items)[0]) && items == old(items)[1..]
    {
      r := Peek();
      if r.Ok? {
        items := RemoveFirst(items, r.value);
      }
    }
  }
}
