/** Client code of `LL`: the program's `main`, and what callers can rely on. */
module Driver {
  import opened Wrappers
  import opened DoublyLinkedList

  /** The first lines of `main`: `push_back(2)`, `push_back(3)`, `push_front(1)`, `push_back(4)`. */
  method BuildList() returns (n: LL<int>)
    ensures fresh(n) && n.Valid() && n.Contents == [1, 2, 3, 4]
  {
    n := new LL<int>();
    n.PushBack(2);
    n.PushBack(3);
    n.PushFront(1);
    n.PushBack(4);
  }

  /**
   * `main`: build [1, 2, 3, 4], print, pop twice, replace position 1,
   * insert, and print. `print` is returned as the sequence of values it
   * would write. `replaced` is the list after `replace`, an observation
   * `main` does not print. `backward` is the walk along `prev` from the final `tail`,
   * which `insert` left on 9999, so it misses 2222.
   */
  method MainScenario() returns (built: seq<int>, first: Option<int>, second: Option<int>,
                                 ghost replaced: seq<int>, finished: seq<int>, ghost backward: seq<int>)
    ensures built == [1, 2, 3, 4]
    ensures first == Some(4) && second == Some(3)
    ensures replaced == [1, 9999]
    ensures finished == [1, 9999, 2222]
    ensures backward == [9999, 1]
  {
    var n := BuildList();
    built := n.Print();
    first := n.PopBack();
    second := n.PopBack();
    var updated := n.Replace(1, 9999);
    replaced := n.Contents;
    var added := n.Insert(1, 2222);
    finished := n.Print();
    StaleTailWalk(n.value, n.next, n.prev, n.order, n.Contents);
    backward := Backward(n.value, n.prev, n.tail, |n.order|);
  }

  /** Popping an empty list reports `None` and leaves it empty. */
  method EmptyPopScenario() returns (r: Option<int>, after: seq<int>)
    ensures r == None && after == []
  {
    var n := new LL<int>();
    r := n.PopBack();
    after := n.Print();
  }

  /**
   * On a non-empty list, `push_back(v)` then `pop_back()` gives back `v` and
   * restores the sequence, both endpoints and the links of every node
   * already there. (On an empty list the pop would panic.)
   */
  method PushThenPop<T>(l: LL<T>, v: T) returns (r: Option<T>)
    requires l.Valid() && l.Contents != []
    modifies l
    ensures l.Valid()
    ensures r == Some(v)
    ensures l.Contents == old(l.Contents) && l.order == old(l.order)
    ensures l.head == old(l.head) && l.tail == old(l.tail)
    ensures l.value == old(l.value) + [v]
    ensures l.next == old(l.next) + [Nil] && l.prev == old(l.prev) + [old(l.tail)]
  {
    l.PushBack(v);
    r := l.PopBack();
    assert l.next == old(l.next)[old(l.tail) := |old(l.value)|][old(l.tail) := Nil] + [Nil];
  }

  /**
   * `insert` ignores its index: on [1, 2, 3, 4], `insert(0, 7)` puts 7 after
   * the second node, where inserting after position 0 puts it after the
   * first.
   */
  method InsertIgnoresIndex() returns (asWritten: seq<int>, intended: seq<int>)
    ensures asWritten == [1, 2, 7, 3, 4]
    ensures intended == [1, 7, 2, 3, 4]
  {
    var a := BuildList();
    var r := a.Insert(0, 7);
    asWritten := a.Print();
    var b := BuildList();
    r := b.InsertAfter(0, 7);
    intended := b.Print();
  }

  /**
   * `main` with the corrected `insert` and `pop_back`: the insertion after
   * the tail moves `tail`, so popping gives back 2222 first, and the last pop
   * empties the list instead of panicking.
   */
  method CorrectedScenario() returns (finished: seq<int>, pops: seq<Option<int>>, after: seq<int>)
    ensures finished == [1, 9999, 2222]
    ensures pops == [Some(2222), Some(9999), Some(1), None]
    ensures after == []
  {
    var n := BuildList();
    var p := n.PopBackCorrected();
    p := n.PopBackCorrected();
    var updated := n.Replace(1, 9999);
    var added := n.InsertAfter(1, 2222);
    finished := n.Print();
    var p1 := n.PopBackCorrected();
    var p2 := n.PopBackCorrected();
    var p3 := n.PopBackCorrected();
    var p4 := n.PopBackCorrected();
    pops := [p1, p2, p3, p4];
    after := n.Print();
  }
}
