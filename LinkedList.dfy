/**
 * The generic doubly linked list `LL<T>`, with its nodes kept in an index
 * arena: slot `i` of the sequences `value`, `next` and `prev` is one node, and
 * a link (or `head`, `tail`) holds a slot index or `Nil` for `None`.
 */
module DoublyLinkedList {
  import opened Wrappers

  /** The arena's `None`. */
  const Nil: int := -1

  function First(order: seq<int>): (r: int) { if order == [] then Nil else order[0] }

  function Last(order: seq<int>): (r: int) { if order == [] then Nil else order[|order| - 1] }

  /**
   * `order` lists arena slots, each once, such that following `next` from
   * `order[0]` and `prev` from the last slot visits them in order and in
   * reverse, and both walks stop there (the first node has no `prev`, the
   * last no `next`).
   */
  ghost predicate Linked(next: seq<int>, prev: seq<int>, order: seq<int>)
  {
    |next| == |prev| &&
    (forall k :: 0 <= k < |order| ==> 0 <= order[k] < |next|) &&
    (forall j, k :: 0 <= j < k < |order| ==> order[j] != order[k]) &&
    (forall k :: 0 <= k < |order| - 1 ==> next[order[k]] == order[k + 1]) &&
    (forall k :: 0 < k < |order| ==> prev[order[k]] == order[k - 1]) &&
    (order != [] ==> prev[order[0]] == Nil && next[order[|order| - 1]] == Nil)
  }

  /** The nodes listed by `order` hold the values `contents`. */
  ghost predicate Spells<T>(value: seq<T>, order: seq<int>, contents: seq<T>)
  {
    |contents| == |order| &&
    forall k :: 0 <= k < |order| ==> 0 <= order[k] < |value| && contents[k] == value[order[k]]
  }

  /**
   * The values met following `next` links from `node` until a link is `None`,
   * as the recursive `_print` visits them; `fuel` bounds the walk.
   */
  ghost function Forward<T>(value: seq<T>, next: seq<int>, node: int, fuel: nat): (r: seq<T>)
    decreases fuel
  {
    if fuel == 0 || node == Nil || !(0 <= node < |value| && node < |next|) then []
    else [value[node]] + Forward(value, next, next[node], fuel - 1)
  }

  /** The values met following `prev` links from `node`: the walk from the tail. */
  ghost function Backward<T>(value: seq<T>, prev: seq<int>, node: int, fuel: nat): (r: seq<T>)
    decreases fuel
  {
    if fuel == 0 || node == Nil || !(0 <= node < |value| && node < |prev|) then []
    else [value[node]] + Backward(value, prev, prev[node], fuel - 1)
  }

  ghost function Reverse<T>(s: seq<T>): (r: seq<T>)
  {
    if s == [] then [] else [s[|s| - 1]] + Reverse(s[..|s| - 1])
  }

  lemma {:induction false} ForwardSuffix<T>(value: seq<T>, next: seq<int>, prev: seq<int>, order: seq<int>, contents: seq<T>, k: nat)
    requires Linked(next, prev, order) && Spells(value, order, contents) && |value| == |next|
    requires k <= |order|
    ensures Forward(value, next, if k < |order| then order[k] else Nil, |order| - k) == contents[k..]
    decreases |order| - k
  {
    if k < |order| {
      ForwardSuffix(value, next, prev, order, contents, k + 1);
    }
  }

  /** Walking `next` from the head yields exactly the list's values, in order. */
  lemma ForwardWalk<T>(value: seq<T>, next: seq<int>, prev: seq<int>, order: seq<int>, contents: seq<T>)
    requires Linked(next, prev, order) && Spells(value, order, contents) && |value| == |next|
    ensures Forward(value, next, First(order), |order|) == contents
  {
    ForwardSuffix(value, next, prev, order, contents, 0);
  }

  /**
   * Extra fuel changes nothing: the walk from position `k` stops at the last
   * node's `None` link, however far it is allowed to go.
   */
  lemma {:induction false} ForwardSuffixAnyFuel<T>(value: seq<T>, next: seq<int>, prev: seq<int>, order: seq<int>, contents: seq<T>, k: nat, extra: nat)
    requires Linked(next, prev, order) && Spells(value, order, contents) && |value| == |next|
    requires k <= |order|
    ensures Forward(value, next, if k < |order| then order[k] else Nil, |order| - k + extra) == contents[k..]
    decreases |order| - k
  {
    if k < |order| {
      ForwardSuffixAnyFuel(value, next, prev, order, contents, k + 1, extra);
    } else if extra > 0 {
      assert Forward(value, next, Nil, extra) == [];
    }
  }

  lemma {:induction false} BackwardPrefix<T>(value: seq<T>, next: seq<int>, prev: seq<int>, order: seq<int>, contents: seq<T>, k: nat)
    requires Linked(next, prev, order) && Spells(value, order, contents) && |value| == |next|
    requires k <= |order|
    ensures Backward(value, prev, if k > 0 then order[k - 1] else Nil, k) == Reverse(contents[..k])
    decreases k
  {
    if k > 0 {
      BackwardPrefix(value, next, prev, order, contents, k - 1);
      assert contents[..k][..k - 1] == contents[..k - 1];
    }
  }

  /** Walking `prev` from the tail yields the list's values in reverse. */
  lemma BackwardWalk<T>(value: seq<T>, next: seq<int>, prev: seq<int>, order: seq<int>, contents: seq<T>)
    requires Linked(next, prev, order) && Spells(value, order, contents) && |value| == |next|
    ensures Backward(value, prev, Last(order), |order|) == Reverse(contents)
  {
    BackwardPrefix(value, next, prev, order, contents, |order|);
    assert contents[..|order|] == contents;
  }

  lemma {:induction false} ReverseLength<T>(s: seq<T>)
    ensures |Reverse(s)| == |s|
  {
    if s != [] {
      ReverseLength(s[..|s| - 1]);
    }
  }

  /**
   * The two traversals agree: the walk back from the tail is the walk from
   * the head reversed, and both visit the same number of nodes.
   */
  lemma TraversalsAgree<T>(value: seq<T>, next: seq<int>, prev: seq<int>, order: seq<int>, contents: seq<T>)
    requires Linked(next, prev, order) && Spells(value, order, contents) && |value| == |next|
    ensures Backward(value, prev, Last(order), |order|) == Reverse(Forward(value, next, First(order), |order|))
    ensures |Backward(value, prev, Last(order), |order|)| == |Forward(value, next, First(order), |order|)|
  {
    ForwardWalk(value, next, prev, order, contents);
    BackwardWalk(value, next, prev, order, contents);
    ReverseLength(contents);
  }

  /**
   * A three-node chain whose `tail` still names the middle node, the state
   * `insert` leaves behind on a two-element list: walking back from that
   * tail misses the last node, so the two traversals disagree.
   */
  lemma StaleTailWalk<T>(value: seq<T>, next: seq<int>, prev: seq<int>, order: seq<int>, contents: seq<T>)
    requires Linked(next, prev, order) && Spells(value, order, contents) && |value| == |next|
    requires |order| == 3
    ensures Backward(value, prev, order[1], |order|) == [contents[1], contents[0]]
    ensures Forward(value, next, First(order), |order|) == contents
    ensures Backward(value, prev, order[1], |order|) != Reverse(Forward(value, next, First(order), |order|))
  {
    ForwardWalk(value, next, prev, order, contents);
    ReverseLength(contents);
  }

  /**
   * On a one-element list the tail's `prev` is `None` and the head is that
   * same node: `pop_back` moves `tail` to `None`, then unwraps it.
   */
  lemma PopBackSingletonUnwrapsNone(next: seq<int>, prev: seq<int>, order: seq<int>)
    requires Linked(next, prev, order) && |order| == 1
    ensures prev[Last(order)] == Nil && First(order) == Last(order) != Nil
  {
  }

  /**
   * Linking a fresh slot in front of the first node, as `push_front` does,
   * keeps the chain sound and spells `[v] + contents`; the last node stays
   * the last unless the chain was empty.
   */
  lemma LinkFront<T>(value: seq<T>, next: seq<int>, prev: seq<int>, order: seq<int>, contents: seq<T>, v: T)
    requires Linked(next, prev, order) && Spells(value, order, contents) && |value| == |next|
    ensures var node := |value|;
      Linked(next + [First(order)],
             if order == [] then prev + [Nil] else (prev + [Nil])[order[0] := node],
             [node] + order) &&
      Spells(value + [v], [node] + order, [v] + contents) &&
      Last([node] + order) == (if order == [] then node else Last(order))
  {
  }

  /** The node after position `pos` in `order`, or `Nil` at the end. */
  function Successor(order: seq<int>, pos: nat): (r: int)
  {
    if pos + 1 < |order| then order[pos + 1] else Nil
  }

  /** `s` with `x` placed at index `i`, described element by element. */
  function Inserted<U>(s: seq<U>, i: nat, x: U): (r: seq<U>)
    requires i <= |s|
    ensures |r| == |s| + 1 && r[i] == x
    ensures forall k :: 0 <= k < i ==> r[k] == s[k]
    ensures forall k :: i < k < |r| ==> r[k] == s[k - 1]
  {
    s[..i] + [x] + s[i..]
  }

  lemma LinkAfterSlots(next: seq<int>, prev: seq<int>, order: seq<int>, pos: nat, node: int)
    requires Linked(next, prev, order) && node == |next| && pos < |order|
    ensures var order' := Inserted(order, pos + 1, node);
      (forall k :: 0 <= k < |order'| ==> 0 <= order'[k] < |next| + 1) &&
      (forall j, k :: 0 <= j < k < |order'| ==> order'[j] != order'[k])
  {
  }

  lemma LinkAfterNext(next: seq<int>, prev: seq<int>, order: seq<int>, pos: nat, node: int)
    requires Linked(next, prev, order) && node == |next| && pos < |order|
    ensures next[order[pos]] == Successor(order, pos)
    ensures var next', order' := (next + [Successor(order, pos)])[order[pos] := node], Inserted(order, pos + 1, node);
      (forall k :: 0 <= k < |order'| - 1 ==> next'[order'[k]] == order'[k + 1]) &&
      next'[order'[|order'| - 1]] == Nil
  {
  }

  lemma LinkAfterPrev(next: seq<int>, prev: seq<int>, order: seq<int>, pos: nat, node: int)
    requires Linked(next, prev, order) && node == |next| && pos < |order|
    ensures var succ := Successor(order, pos);
      var prev', order' := if succ == Nil then prev + [order[pos]] else (prev + [order[pos]])[succ := node], Inserted(order, pos + 1, node);
      (forall k :: 0 < k < |order'| ==> prev'[order'[k]] == order'[k - 1]) &&
      prev'[order'[0]] == Nil
  {
  }

  /** Linking a fresh slot `node` after the node at position `pos` keeps the chain sound. */
  lemma LinkAfter(next: seq<int>, prev: seq<int>, order: seq<int>, pos: nat, node: int)
    requires Linked(next, prev, order) && node == |next| && pos < |order|
    ensures next[order[pos]] == Successor(order, pos)
    ensures var anchor, succ := order[pos], Successor(order, pos);
      Linked((next + [succ])[anchor := node],
             if succ == Nil then prev + [anchor] else (prev + [anchor])[succ := node],
             Inserted(order, pos + 1, node))
  {
    LinkAfterSlots(next, prev, order, pos, node);
    LinkAfterNext(next, prev, order, pos, node);
    LinkAfterPrev(next, prev, order, pos, node);
  }

  lemma SpellsAfter<T>(value: seq<T>, order: seq<int>, contents: seq<T>, pos: nat, item: T)
    requires Spells(value, order, contents) && pos < |order|
    ensures Spells(value + [item], Inserted(order, pos + 1, |value|), Inserted(contents, pos + 1, item))
  {
  }

  /**
   * The whole splice of src/main.rs:114-122 on the arena's sequences: the chain
   * stays sound, spells the new contents, and keeps its first node, and its
   * last node too unless the anchor was the last.
   */
  lemma SpliceKeepsChain<T>(value: seq<T>, next: seq<int>, prev: seq<int>, order: seq<int>, contents: seq<T>, pos: nat, item: T)
    requires Linked(next, prev, order) && Spells(value, order, contents) && |value| == |next| && pos < |order|
    ensures var node, anchor, succ := |value|, order[pos], Successor(order, pos);
      var order' := Inserted(order, pos + 1, node);
      next[anchor] == succ &&
      Linked((next + [succ])[anchor := node],
             if succ == Nil then prev + [anchor] else (prev + [anchor])[succ := node],
             order') &&
      Spells(value + [item], order', Inserted(contents, pos + 1, item)) &&
      First(order') == First(order) &&
      (pos < |order| - 1 ==> Last(order') == Last(order))
  {
    LinkAfter(next, prev, order, pos, |value|);
    SpellsAfter(value, order, contents, pos, item);
  }

  class LL<T> {
    var value: seq<T>
    var next: seq<int>
    var prev: seq<int>
    var head: int
    var tail: int
    /** The slots of the nodes reachable from `head`, in list order. */
    ghost var order: seq<int>
    /** The values of those nodes: the list as a sequence. */
    ghost var Contents: seq<T>

    /** The chain from `head` is sound; `tail` names some slot or is `None`. */
    ghost predicate Chain()
      reads this
    {
      |value| == |next| && Linked(next, prev, order) && Spells(value, order, Contents) &&
      head == First(order) && Nil <= tail < |value|
    }

    /** The full list invariant: also `tail` names the last node. */
    ghost predicate Valid()
      reads this
    {
      Chain() && tail == Last(order)
    }

    /**
     * On the list itself: the walk back from `tail` is the reverse of the
     * walk from `head`, and they have the same length.
     */
    lemma TraversalsAgreeOnList()
      requires Valid()
      ensures Backward(value, prev, tail, |order|) == Reverse(Forward(value, next, head, |order|))
      ensures |Backward(value, prev, tail, |order|)| == |Forward(value, next, head, |order|)|
    {
      TraversalsAgree(value, next, prev, order, Contents);
    }

    /** The walk from `head` yields `Contents` with any fuel of at least the length. */
    lemma ForwardWalkOnList(extra: nat)
      requires Chain()
      ensures Forward(value, next, head, |order| + extra) == Contents
    {
      ForwardSuffixAnyFuel(value, next, prev, order, Contents, 0, extra);
    }

    /** `new`: no head, no tail. */
    constructor ()
      ensures Valid() && Contents == []
      ensures head == Nil && tail == Nil
      ensures value == [] && next == [] && prev == []
    {
      value, next, prev := [], [], [];
      head, tail := Nil, Nil;
      order, Contents := [], [];
    }

    /** `push_back`: a new node after the tail; on an empty list also the head. */
    method PushBack(v: T)
      requires Valid()
      modifies this
      ensures Valid()
      ensures Contents == old(Contents) + [v]
      ensures tail == |old(value)| && order == old(order) + [tail]
      ensures head == (if old(tail) == Nil then tail else old(head))
      ensures value == old(value) + [v]
      ensures prev == old(prev) + [old(tail)]
      ensures next == (if old(tail) == Nil then old(next) else old(next)[old(tail) := tail]) + [Nil]
    {
      var node := |value|;
      value, next, prev := value + [v], next + [Nil], prev + [tail];
      if tail != Nil {
        next := next[tail := node];
        tail := node;
      } else {
        tail := node;
        head := node;
      }
      order := order + [node];
      Contents := Contents + [v];
    }

    /**
     * `push_front`: a new node before the head; on an empty list also the
     * tail. It touches only `head`, the old head's `prev` and, on an empty
     * list, `tail`, so it needs only a sound chain from `head`.
     */
    method PushFront(v: T)
      requires Chain()
      modifies this
      ensures Chain()
      ensures old(Valid()) || old(Contents) == [] ==> Valid()
      ensures Contents == [v] + old(Contents)
      ensures head == |old(value)| && order == [head] + old(order)
      ensures tail == (if old(head) == Nil then head else old(tail))
      ensures value == old(value) + [v]
      ensures next == old(next) + [old(head)]
      ensures prev == (if old(head) == Nil then old(prev) else old(prev)[old(head) := head]) + [Nil]
    {
      var node := |value|;
      LinkFront(value, next, prev, order, Contents, v);
      value, next, prev := value + [v], next + [head], prev + [Nil];
      if head != Nil {
        prev := prev[head := node];
        head := node;
      } else {
        head := node;
        tail := head;
      }
      order := [node] + order;
      Contents := [v] + Contents;
    }

    /**
     * `pop_back`, as written: the tail's `prev` becomes the tail and loses its
     * `next`. On a one-element list that `prev` is `None` and the unwrap at
     * src/main.rs:67 panics, hence the second precondition.
     */
    method PopBack() returns (r: Option<T>)
      requires Valid()
      requires |Contents| != 1
      modifies this
      ensures Valid()
      ensures value == old(value) && prev == old(prev) && head == old(head)
      ensures old(Contents) == [] ==>
        r == None && next == old(next) && tail == old(tail) && order == old(order) && Contents == old(Contents)
      ensures old(Contents) != [] ==>
        r == Some(old(Contents)[|old(Contents)| - 1]) &&
        Contents == old(Contents)[..|old(Contents)| - 1] &&
        order == old(order)[..|old(order)| - 1] &&
        tail == old(prev)[old(tail)] && tail != Nil &&
        next == old(next)[tail := Nil]
    {
      if tail == Nil {
        return None;
      }
      var n := tail;
      tail := prev[n];
      assert tail == order[|order| - 2];
      next := next[tail := Nil];
      r := Some(value[n]);
      order := order[..|order| - 1];
      Contents := Contents[..|Contents| - 1];
    }

    /**
     * `pop_back` as it is evidently meant: popping the last node also clears
     * `head`, instead of unwrapping a `None`.
     */
    method PopBackCorrected() returns (r: Option<T>)
      requires Valid()
      modifies this
      ensures Valid()
      ensures value == old(value) && prev == old(prev)
      ensures old(Contents) == [] ==>
        r == None && next == old(next) && head == old(head) && tail == old(tail) &&
        order == old(order) && Contents == old(Contents)
      ensures old(Contents) != [] ==>
        r == Some(old(Contents)[|old(Contents)| - 1]) &&
        Contents == old(Contents)[..|old(Contents)| - 1] &&
        order == old(order)[..|old(order)| - 1] &&
        tail == old(prev)[old(tail)]
      ensures |old(Contents)| == 1 ==> head == Nil && tail == Nil && next == old(next)
      ensures |old(Contents)| >= 2 ==> head == old(head) && tail != Nil && next == old(next)[tail := Nil]
    {
      if tail == Nil {
        return None;
      }
      var n := tail;
      tail := prev[n];
      assert |order| > 1 ==> tail == order[|order| - 2];
      if tail == Nil {
        head := Nil;
      } else {
        next := next[tail := Nil];
      }
      r := Some(value[n]);
      order := order[..|order| - 1];
      Contents := Contents[..|Contents| - 1];
    }

    /** `print`, as the sequence of values it visits from the head. */
    method Print() returns (out: seq<T>)
      requires Chain()
      ensures out == Contents
    {
      out := [];
      var node := head;
      ghost var k := 0;
      while node != Nil
        invariant 0 <= k <= |order|
        invariant node == (if k < |order| then order[k] else Nil)
        invariant out == Contents[..k]
        decreases |order| - k
      {
        out := out + [value[node]];
        node := next[node];
        k := k + 1;
      }
      assert Contents[..k] == Contents;
    }

    /**
     * `replace`: overwrite the value at position `index` in place and return
     * its node, or `None` when the list is shorter than `index + 1`.
     */
    method Replace(index: nat, item: T) returns (r: Option<int>)
      requires Chain()
      modifies this
      ensures Chain() && (old(Valid()) ==> Valid())
      ensures next == old(next) && prev == old(prev) && head == old(head) && tail == old(tail) && order == old(order)
      ensures index < |old(Contents)| ==>
        r == Some(order[index]) && value == old(value)[order[index] := item] &&
        Contents == old(Contents)[index := item]
      ensures index >= |old(Contents)| ==> r == None && value == old(value) && Contents == old(Contents)
    {
      r := ReplaceFrom(head, index, item, 0);
    }

    /** `_replace`: `node` is the node at position `k`; `index` counts down the steps left. */
    method ReplaceFrom(node: int, index: nat, item: T, ghost k: nat) returns (r: Option<int>)
      requires Chain() && k <= |order| && node == (if k < |order| then order[k] else Nil)
      modifies this
      ensures Chain() && (old(Valid()) ==> Valid())
      ensures next == old(next) && prev == old(prev) && head == old(head) && tail == old(tail) && order == old(order)
      ensures k + index < |old(Contents)| ==>
        r == Some(order[k + index]) && value == old(value)[order[k + index] := item] &&
        Contents == old(Contents)[k + index := item]
      ensures k + index >= |old(Contents)| ==> r == None && value == old(value) && Contents == old(Contents)
      decreases |order| - k
    {
      if node == Nil {
        r := None;
      } else if index == 0 {
        value := value[node := item];
        Contents := Contents[k := item];
        r := Some(node);
      } else {
        r := ReplaceFrom(next[node], index - 1, item, k + 1);
      }
    }

    /**
     * src/main.rs:114-122, the end of `insert`: a new node after `anchor`, the node at
     * position `pos`; its successor, if any, points back to it. `tail` is not
     * touched.
     */
    method SpliceAfter(ghost pos: nat, anchor: int, item: T) returns (node: int)
      requires Chain() && pos < |order| && anchor == order[pos]
      modifies this
      ensures Chain()
      ensures node == |old(value)|
      ensures head == old(head) && tail == old(tail)
      ensures Contents == old(Contents)[..pos + 1] + [item] + old(Contents)[pos + 1..]
      ensures order == old(order)[..pos + 1] + [node] + old(order)[pos + 1..]
      ensures value == old(value) + [item]
      ensures var succ := Successor(old(order), pos);
        next == (old(next) + [succ])[anchor := node] &&
        prev == if succ == Nil then old(prev) + [anchor] else (old(prev) + [anchor])[succ := node]
      ensures old(Valid()) && pos < |old(order)| - 1 ==> Valid()
    {
      node := |value|;
      var succ := next[anchor];
      SpliceKeepsChain(value, next, prev, order, Contents, pos, item);
      value, prev, next := value + [item], prev + [anchor], next + [succ];
      if succ != Nil {
        prev := prev[succ := node];
      }
      next := next[anchor := node];
      order := Inserted(order, pos + 1, node);
      Contents := Inserted(Contents, pos + 1, item);
    }

    /**
     * `insert`, as written. `for _ in [0..index]` runs over a one-element
     * array, so the walk takes exactly one step whatever `index` is: the new
     * node always lands after the head's successor. An empty list gives
     * `None`; a one-element list panics on the unwrap at src/main.rs:113,
     * hence the precondition. `tail` is never updated, so on a two-element
     * list it is left naming the second node.
     */
    method Insert(index: nat, item: T) returns (r: Option<int>)
      requires Chain()
      requires |Contents| != 1
      modifies this
      ensures Chain()
      ensures head == old(head) && tail == old(tail)
      ensures old(Contents) == [] ==>
        r == None && value == old(value) && next == old(next) && prev == old(prev) &&
        order == old(order) && Contents == old(Contents)
      ensures old(Contents) != [] ==>
        r == Some(|old(value)|) &&
        Contents == old(Contents)[..2] + [item] + old(Contents)[2..] &&
        order == old(order)[..2] + [|old(value)|] + old(order)[2..]
      ensures old(Contents) != [] ==>
        var anchor, node, succ := old(order)[1], |old(value)|, Successor(old(order), 1);
        value == old(value) + [item] &&
        next == (old(next) + [succ])[anchor := node] &&
        prev == if succ == Nil then old(prev) + [anchor] else (old(prev) + [anchor])[succ := node]
      ensures old(Valid()) && |old(Contents)| >= 3 ==> Valid()
      ensures old(Valid()) && |old(Contents)| == 2 ==> tail == order[1] && !Valid()
    {
      var current := head;
      for pass := 0 to 1
        invariant pass == 1 ==> |order| >= 2
        invariant current == (if pass == 0 then head else order[1])
      {
        if current == Nil {
          return None;
        }
        current := next[current];
      }
      var node := SpliceAfter(1, current, item);
      assert order[1] < node == order[2];
      r := Some(node);
    }

    /**
     * `insert` as it is evidently meant ("insert after position `index`"):
     * walk `index` steps to the anchor, return `None` if the walk runs off the
     * end, splice the new node after the anchor, and make it the tail when the
     * anchor was the tail.
     */
    method InsertAfter(index: nat, item: T) returns (r: Option<int>)
      requires Valid()
      modifies this
      ensures Valid()
      ensures head == old(head)
      ensures index >= |old(Contents)| ==>
        r == None && value == old(value) && next == old(next) && prev == old(prev) &&
        tail == old(tail) && order == old(order) && Contents == old(Contents)
      ensures index < |old(Contents)| ==>
        r == Some(|old(value)|) &&
        Contents == old(Contents)[..index + 1] + [item] + old(Contents)[index + 1..] &&
        order == old(order)[..index + 1] + [|old(value)|] + old(order)[index + 1..] &&
        tail == (if index == |old(Contents)| - 1 then |old(value)| else old(tail))
      ensures index < |old(Contents)| ==>
        var anchor, node, succ := old(order)[index], |old(value)|, Successor(old(order), index);
        value == old(value) + [item] &&
        next == (old(next) + [succ])[anchor := node] &&
        prev == if succ == Nil then old(prev) + [anchor] else (old(prev) + [anchor])[succ := node]
    {
      var current := head;
      var i := 0;
      while i < index
        invariant 0 <= i <= index && i <= |order|
        invariant current == (if i < |order| then order[i] else Nil)
      {
        if current == Nil {
          return None;
        }
        current := next[current];
        i := i + 1;
      }
      if current == Nil {
        return None;
      }
      var node := SpliceAfter(index, current, item);
      if next[node] == Nil {
        tail := node;
      }
      r := Some(node);
    }
  }
}
