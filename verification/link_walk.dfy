/** The link list of the engine: a recursive walk that moves every library behind its users. */
module LinkWalk {

  const MAX_DEPTH: nat := 20

  datatype Item = Item(name: string)

  /** What CMake knows: the item behind a name, and the names an item links to. */
  datatype Graph = Graph(canon: Item -> Item, links: Item -> seq<Item>)

  predicate Edge(g: Graph, user: Item, library: Item) {
    exists i :: 0 <= i < |g.links(user)| && g.canon(g.links(user)[i]) == library
  }

  /** No chain of links from the item has more than `n` edges. */
  predicate Within(g: Graph, item: Item, n: nat)
    decreases n
  {
    if n == 0 then |g.links(item)| == 0
    else forall i :: 0 <= i < |g.links(item)| ==> Within(g, g.canon(g.links(item)[i]), n - 1)
  }

  /** The item and everything it links to along chains of at most `n` edges. */
  function Reach(g: Graph, item: Item, n: nat): set<Item>
    decreases n, 1
  {
    {item} + if n == 0 then {} else ReachAll(g, g.links(item), n - 1)
  }

  function ReachAll(g: Graph, names: seq<Item>, n: nat): set<Item>
    decreases n, 2, |names|
  {
    if |names| == 0 then {}
    else ReachAll(g, names[..|names| - 1], n) + Reach(g, g.canon(names[|names| - 1]), n)
  }

  predicate Distinct(items: seq<Item>) {
    forall i, j :: 0 <= i < j < |items| ==> items[i] != items[j]
  }

  /** Every library comes after everything in the list that uses it. */
  predicate Ordered(g: Graph, items: seq<Item>) {
    forall i, j :: 0 <= i < |items| && 0 <= j < |items| && Edge(g, items[i], items[j]) ==> i < j
  }

  /** `list(REMOVE_ITEM)` for all items of a set. */
  function Minus(items: seq<Item>, gone: set<Item>): (r: seq<Item>)
    ensures forall x :: x in r <==> x in items && x !in gone
  {
    if |items| == 0 then []
    else
      var last := |items| - 1;
      Minus(items[..last], gone) + if items[last] in gone then [] else [items[last]]
  }

  ghost function Elements(items: seq<Item>): set<Item> {
    set x | x in items
  }

  // ----- Removing from lists

  lemma Regroup(a: seq<Item>, b: seq<Item>, c: seq<Item>)
    ensures a + (b + c) == a + b + c
  {
  }

  lemma MinusSnoc(items: seq<Item>, x: Item, gone: set<Item>)
    ensures Minus(items + [x], gone) == Minus(items, gone) + if x in gone then [] else [x]
  {
    assert (items + [x])[..|items|] == items;
  }

  lemma MinusConcatSnoc(a: seq<Item>, before: seq<Item>, b: seq<Item>, x: Item, gone: set<Item>)
    requires b == before + [x] && Minus(a + before, gone) == Minus(a, gone) + Minus(before, gone)
    ensures Minus(a + b, gone) == Minus(a, gone) + Minus(b, gone)
  {
    Regroup(a, before, [x]);
    MinusSnoc(a + before, x, gone);
    MinusSnoc(before, x, gone);
    Regroup(Minus(a, gone), Minus(before, gone), if x in gone then [] else [x]);
  }

  lemma {:induction false} MinusConcat(a: seq<Item>, b: seq<Item>, gone: set<Item>)
    ensures Minus(a + b, gone) == Minus(a, gone) + Minus(b, gone)
    decreases |b|
  {
    if |b| == 0 {
      assert a + b == a;
    } else {
      var before, x := b[..|b| - 1], b[|b| - 1];
      MinusConcat(a, before, gone);
      MinusConcatSnoc(a, before, b, x, gone);
    }
  }

  lemma {:induction false} MinusTwice(items: seq<Item>, a: set<Item>, b: set<Item>)
    ensures Minus(Minus(items, a), b) == Minus(items, a + b)
  {
    if |items| > 0 {
      var last := |items| - 1;
      MinusTwice(items[..last], a, b);
      MinusConcat(Minus(items[..last], a), if items[last] in a then [] else [items[last]], b);
    }
  }

  /** Where the items that stay came from: their order is kept. */
  lemma {:induction false} MinusKeepsOrder(g: Graph, items: seq<Item>, gone: set<Item>)
    ensures Distinct(items) ==> Distinct(Minus(items, gone))
    ensures Ordered(g, items) ==> Ordered(g, Minus(items, gone))
  {
    if |items| > 0 {
      var last := |items| - 1;
      var before, x := items[..last], items[last];
      MinusKeepsOrder(g, before, gone);
      assert items == before + [x];
      var kept := Minus(before, gone);
      assert forall k :: 0 <= k < |kept| ==> kept[k] in before;
      if Ordered(g, items) {
        assert Ordered(g, before);
        assert forall k :: 0 <= k < |before| ==> !Edge(g, x, before[k]);
      }
    }
  }

  // ----- Reachability

  lemma {:induction false} ReachAllMember(g: Graph, names: seq<Item>, n: nat, x: Item)
    ensures x in ReachAll(g, names, n) <==> exists i :: 0 <= i < |names| && x in Reach(g, g.canon(names[i]), n)
    decreases |names|
  {
    if |names| > 0 {
      ReachAllMember(g, names[..|names| - 1], n, x);
      assert forall i :: 0 <= i < |names| - 1 ==> names[..|names| - 1][i] == names[i];
    }
  }

  /** What an item reaches is closed under links. */
  lemma {:induction false} ReachClosed(g: Graph, item: Item, n: nat, user: Item, library: Item)
    requires Within(g, item, n) && user in Reach(g, item, n) && Edge(g, user, library)
    ensures library in Reach(g, item, n)
    decreases n
  {
    var i :| 0 <= i < |g.links(user)| && g.canon(g.links(user)[i]) == library;
    if user == item {
      ReachAllMember(g, g.links(item), n - 1, library);
    } else {
      ReachAllMember(g, g.links(item), n - 1, user);
      var k :| 0 <= k < |g.links(item)| && user in Reach(g, g.canon(g.links(item)[k]), n - 1);
      ReachClosed(g, g.canon(g.links(item)[k]), n - 1, user, library);
      ReachAllMember(g, g.links(item), n - 1, library);
    }
  }

  lemma {:induction false} NoSelfLink(g: Graph, item: Item, n: nat)
    requires Within(g, item, n)
    ensures !Edge(g, item, item)
  {
    if n > 0 && Edge(g, item, item) {
      NoSelfLink(g, item, n - 1);
    }
  }

  /** A tail that moved behind the rest: nothing in it is used by what it contains from before. */
  lemma MovedBehind(g: Graph, tail: seq<Item>, moved: seq<Item>, reached: set<Item>)
    requires Distinct(tail) && Distinct(moved) && Ordered(g, moved)
    requires Elements(moved) == reached
    requires forall user, library :: user in reached && Edge(g, user, library) ==> library in reached
    ensures Distinct(Minus(tail, reached) + moved)
    ensures Ordered(g, tail) ==> Ordered(g, Minus(tail, reached) + moved)
    ensures Elements(Minus(tail, reached) + moved) == Elements(tail) + reached
  {
    MinusKeepsOrder(g, tail, reached);
    var rest := Minus(tail, reached);
    assert forall k :: 0 <= k < |rest| ==> rest[k] !in reached;
    assert forall k :: 0 <= k < |moved| ==> moved[k] in reached;
  }

  /** After a dependency was walked its items are behind those of the tail so far. */
  lemma TailGrows(g: Graph, before: seq<Item>, tail: seq<Item>, held: seq<Item>, items: seq<Item>, moved: seq<Item>,
                  reached: set<Item>)
    requires held == Minus(before, Elements(tail)) + tail && Moved(g, held, items, moved, reached)
    requires Distinct(tail)
    requires forall user, library :: user in reached && Edge(g, user, library) ==> library in reached
    ensures var tail' := Minus(tail, reached) + moved;
      && Elements(tail') == Elements(tail) + reached
      && items == Minus(before, Elements(tail')) + tail'
      && Distinct(tail') && (Ordered(g, tail) ==> Ordered(g, tail'))
  {
    MinusConcat(Minus(before, Elements(tail)), tail, reached);
    MinusTwice(before, Elements(tail), reached);
    Regroup(Minus(before, Elements(tail) + reached), Minus(tail, reached), moved);
    MovedBehind(g, tail, moved, reached);
  }

  /** The first `i` links of the item lead to short chains only. */
  predicate FirstWithin(g: Graph, item: Item, n: nat, i: nat) {
    && i <= |g.links(item)|
    && (n == 0 ==> i == 0)
    && forall k :: 0 <= k < i ==> Within(g, g.canon(g.links(item)[k]), n - 1)
  }

  lemma FirstWithinNext(g: Graph, item: Item, n: nat, i: nat)
    requires FirstWithin(g, item, n, i) && i < |g.links(item)|
    requires n > 0 && Within(g, g.canon(g.links(item)[i]), n - 1)
    ensures FirstWithin(g, item, n, i + 1)
  {
  }

  lemma TooLong(g: Graph, item: Item, n: nat, i: nat)
    requires i < |g.links(item)|
    requires n == 0 || !Within(g, g.canon(g.links(item)[i]), n - 1)
    ensures !Within(g, item, n)
  {
  }

  /** What the tail holds after the first `i` links of the item. */
  ghost function Gathered(g: Graph, item: Item, n: nat, i: nat): set<Item>
    requires i <= |g.links(item)|
  {
    {item} + if n == 0 then {} else ReachAll(g, g.links(item)[..i], n - 1)
  }

  lemma GatheredNext(g: Graph, item: Item, n: nat, i: nat)
    requires i < |g.links(item)| && n > 0
    ensures Gathered(g, item, n, i + 1) == Gathered(g, item, n, i) + Reach(g, g.canon(g.links(item)[i]), n - 1)
  {
    assert g.links(item)[..i + 1][..i] == g.links(item)[..i];
  }

  lemma GatheredAll(g: Graph, item: Item, n: nat)
    ensures Gathered(g, item, n, |g.links(item)|) == Reach(g, item, n)
  {
    assert g.links(item)[..|g.links(item)|] == g.links(item);
  }

  class LinkList {
    const limit: nat
    var items: seq<Item>

    constructor (limit: nat)
      ensures items == [] && this.limit == limit
    {
      this.limit := limit;
      items := [];
    }

    /**
      The walk. It fails exactly when a chain of links from the item is too long, which a
      cycle always is. Otherwise everything the item reaches has moved to the end of the list,
      in an order with every library behind its users, and the rest has kept its place.
     */
    method Walk(g: Graph, name: Item, depth: nat) returns (ok: bool, ghost tail: seq<Item>)
      requires depth <= limit + 1
      modifies this
      ensures ok <==> depth <= limit && Within(g, g.canon(name), limit - depth)
      ensures ok ==> Moved(g, old(items), items, tail, Reach(g, g.canon(name), limit - depth))
      decreases limit + 1 - depth
    {
      tail := [];
      if depth > limit {
        return false, tail;
      }
      var item := g.canon(name);
      ghost var n: nat := limit - depth;
      ghost var before := items;
      items := Minus(items, {item}) + [item];
      tail := [item];
      HalfWayStart(g, item, n, before);
      var links := g.links(item);
      for i := 0 to |links|
        invariant HalfWay(g, item, n, i, before, items, tail)
      {
        ghost var held := items;
        ghost var moved;
        ok, moved := Walk(g, links[i], depth + 1);
        if !ok {
          TooLong(g, item, n, i);
          return false, tail;
        }
        tail := HalfWayOn(g, item, n, i, before, held, items, tail, moved);
      }
      HalfWayEnd(g, item, n, before, items, tail);
      ok := true;
    }
  }

  /** The list after the first `i` links of the item were walked. */
  ghost predicate HalfWay(g: Graph, item: Item, n: nat, i: nat, before: seq<Item>, items: seq<Item>, tail: seq<Item>)
  {
    && FirstWithin(g, item, n, i)
    && Elements(tail) == Gathered(g, item, n, i)
    && items == Minus(before, Elements(tail)) + tail
    && Distinct(tail) && (Edge(g, item, item) || Ordered(g, tail))
  }

  lemma HalfWayOn(g: Graph, item: Item, n: nat, i: nat, before: seq<Item>, held: seq<Item>, items: seq<Item>,
                  tail: seq<Item>, moved: seq<Item>) returns (tail': seq<Item>)
    requires n > 0 && i < |g.links(item)| && HalfWay(g, item, n, i, before, held, tail)
    requires Within(g, g.canon(g.links(item)[i]), n - 1)
    requires Moved(g, held, items, moved, Reach(g, g.canon(g.links(item)[i]), n - 1))
    ensures HalfWay(g, item, n, i + 1, before, items, tail')
  {
    var reached := Reach(g, g.canon(g.links(item)[i]), n - 1);
    tail' := Minus(tail, reached) + moved;
    FirstWithinNext(g, item, n, i);
    GatheredNext(g, item, n, i);
    Closed(g, g.canon(g.links(item)[i]), n - 1);
    TailGrows(g, before, tail, held, items, moved, reached);
  }

  lemma HalfWayStart(g: Graph, item: Item, n: nat, before: seq<Item>)
    ensures HalfWay(g, item, n, 0, before, Minus(before, {item}) + [item], [item])
  {
    assert Elements([item]) == {item};
    assert Gathered(g, item, n, 0) == {item};
  }

  lemma HalfWayEnd(g: Graph, item: Item, n: nat, before: seq<Item>, items: seq<Item>, tail: seq<Item>)
    requires HalfWay(g, item, n, |g.links(item)|, before, items, tail)
    ensures Within(g, item, n)
    ensures Moved(g, before, items, tail, Reach(g, item, n))
  {
    GatheredAll(g, item, n);
    NoSelfLink(g, item, n);
  }

  /** The reached items have gone from their places to a tail with every library behind its users. */
  ghost predicate Moved(g: Graph, before: seq<Item>, after: seq<Item>, tail: seq<Item>, reached: set<Item>) {
    && after == Minus(before, reached) + tail
    && Elements(tail) == reached
    && Distinct(tail) && Ordered(g, tail)
  }

  lemma Closed(g: Graph, item: Item, n: nat)
    requires Within(g, item, n)
    ensures forall user, library :: user in Reach(g, item, n) && Edge(g, user, library) ==> library in Reach(g, item, n)
  {
    forall user, library | user in Reach(g, item, n) && Edge(g, user, library)
      ensures library in Reach(g, item, n)
    {
      ReachClosed(g, item, n, user, library);
    }
  }

  // ----- The finished list

  /** A chain of links from `item`. */
  predicate Chain(g: Graph, item: Item, chain: seq<Item>) {
    && |chain| > 0 && chain[0] == item
    && forall i :: 0 <= i < |chain| - 1 ==> Edge(g, chain[i], chain[i + 1])
  }

  /** The depth limit in terms of chains: none has more edges. */
  lemma {:induction false} WithinIff(g: Graph, item: Item, n: nat)
    ensures Within(g, item, n) <==> forall chain :: Chain(g, item, chain) ==> |chain| <= n + 1
    decreases n
  {
    if Within(g, item, n) {
      forall chain | Chain(g, item, chain)
        ensures |chain| <= n + 1
      {
        ChainsAreShort(g, item, n, chain);
      }
    } else {
      var chain := LongChain(g, item, n);
    }
  }

  lemma {:induction false} ChainsAreShort(g: Graph, item: Item, n: nat, chain: seq<Item>)
    requires Within(g, item, n) && Chain(g, item, chain)
    ensures |chain| <= n + 1
    decreases n
  {
    if |chain| > 1 {
      var rest := chain[1..];
      assert Edge(g, chain[0], chain[1]);
      var i :| 0 <= i < |g.links(item)| && g.canon(g.links(item)[i]) == chain[1];
      if n > 0 {
        assert Chain(g, chain[1], rest);
        ChainsAreShort(g, chain[1], n - 1, rest);
      }
    }
  }

  lemma {:induction false} LongChain(g: Graph, item: Item, n: nat) returns (chain: seq<Item>)
    requires !Within(g, item, n)
    ensures Chain(g, item, chain) && |chain| == n + 2
    decreases n
  {
    if n == 0 {
      chain := [item, g.canon(g.links(item)[0])];
      assert Edge(g, chain[0], chain[1]);
    } else {
      var i :| 0 <= i < |g.links(item)| && !Within(g, g.canon(g.links(item)[i]), n - 1);
      var rest := LongChain(g, g.canon(g.links(item)[i]), n - 1);
      chain := [item] + rest;
      assert Edge(g, item, rest[0]);
      assert forall k :: 0 < k < |chain| ==> chain[k] == rest[k - 1];
    }
  }

  /** The items that chains of links from `root` lead to. */
  ghost predicate Linked(g: Graph, root: Item, item: Item) {
    exists chain :: Chain(g, root, chain) && chain[|chain| - 1] == item
  }

  lemma {:induction false} ReachIsLinked(g: Graph, item: Item, n: nat, x: Item) returns (chain: seq<Item>)
    requires x in Reach(g, item, n)
    ensures Chain(g, item, chain) && chain[|chain| - 1] == x
    decreases n
  {
    if x == item {
      chain := [item];
    } else {
      ReachAllMember(g, g.links(item), n - 1, x);
      var i :| 0 <= i < |g.links(item)| && x in Reach(g, g.canon(g.links(item)[i]), n - 1);
      var rest := ReachIsLinked(g, g.canon(g.links(item)[i]), n - 1, x);
      chain := [item] + rest;
      assert Edge(g, item, rest[0]);
      assert forall k :: 0 < k < |chain| ==> chain[k] == rest[k - 1];
    }
  }

  lemma {:induction false} LinkedIsReach(g: Graph, item: Item, n: nat, chain: seq<Item>)
    requires Within(g, item, n) && Chain(g, item, chain)
    ensures chain[|chain| - 1] in Reach(g, item, n)
    decreases |chain|
  {
    if |chain| > 1 {
      var before := chain[..|chain| - 1];
      LinkedIsReach(g, item, n, before);
      assert Edge(g, chain[|chain| - 2], chain[|chain| - 1]);
      ReachClosed(g, item, n, chain[|chain| - 2], chain[|chain| - 1]);
    }
  }

  /** The walk from the root of an empty list. */
  method LinkItemsWithin(g: Graph, root: Item, limit: nat) returns (ok: bool, items: seq<Item>)
    ensures ok <==> forall chain :: Chain(g, g.canon(root), chain) ==> |chain| <= limit + 1
    ensures ok ==> Distinct(items) && Ordered(g, items)
    ensures ok ==> forall x :: x in items <==> Linked(g, g.canon(root), x)
  {
    var list := new LinkList(limit);
    ghost var tail;
    ok, tail := list.Walk(g, root, 0);
    items := list.items;
    WithinIff(g, g.canon(root), limit);
    if ok {
      WholeList(g, g.canon(root), items, tail, limit);
    }
  }

  lemma WholeList(g: Graph, item: Item, items: seq<Item>, tail: seq<Item>, limit: nat)
    requires Moved(g, [], items, tail, Reach(g, item, limit)) && Within(g, item, limit)
    ensures Distinct(items) && Ordered(g, items)
    ensures forall x :: x in items <==> Linked(g, item, x)
  {
    assert items == tail;
    ReachIff(g, item, limit);
    assert forall x :: x in items <==> x in Elements(tail);
  }

  /**
    The whole list. It is refused exactly when some chain of links from the root has more
    than twenty edges. Otherwise it holds every item such a chain leads to exactly once, and
    every library comes after everything that uses it, without asking for a graph without
    cycles in the first place.
   */
  method LinkItems(g: Graph, root: Item) returns (ok: bool, items: seq<Item>)
    ensures ok <==> forall chain :: Chain(g, g.canon(root), chain) ==> |chain| <= 21
    ensures ok ==> Distinct(items) && Ordered(g, items)
    ensures ok ==> forall x :: x in items <==> Linked(g, g.canon(root), x)
  {
    ok, items := LinkItemsWithin(g, root, MAX_DEPTH);
  }

  lemma ReachIff(g: Graph, item: Item, n: nat)
    requires Within(g, item, n)
    ensures forall x :: x in Reach(g, item, n) <==> Linked(g, item, x)
  {
    forall x
      ensures x in Reach(g, item, n) <==> Linked(g, item, x)
    {
      if x in Reach(g, item, n) {
        var chain := ReachIsLinked(g, item, n, x);
      }
      if Linked(g, item, x) {
        var chain :| Chain(g, item, chain) && chain[|chain| - 1] == x;
        LinkedIsReach(g, item, n, chain);
      }
    }
  }
}
