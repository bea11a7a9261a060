/**
 Children as the writer's calls tell them: nodes one level below a node, and the
 proof that enumerating subnodes in the finished blob finds exactly those.
 */
module FdtTree {
  import opened Bytes
  import opened Fdt
  import opened FdtWriter
  import opened FdtFinish
  import opened FdtRoundTrip
  import opened FdtSubnodes

  /** What a call does to the number of open nodes. */
  function Rise(c: Call): int {
    if c.Begin? then 1 else if c.EndCall? then -1 else 0
  }

  function Rises(cs: seq<Call>): (r: seq<int>)
    ensures |r| == |cs|
  {
    seq(|cs|, i requires 0 <= i < |cs| => Rise(cs[i]))
  }

  /** Begin and end calls balance, starting inside `depth` open nodes. */
  predicate Balanced(cs: seq<Call>, depth: nat) {
    if cs == [] then depth == 0
    else depth + Rise(cs[0]) >= 0 && Balanced(cs[1..], depth + Rise(cs[0]))
  }

  /** How many more nodes are open before step `k` than before step `i`. */
  function Height(ds: seq<int>, i: nat, k: nat): int
    requires i <= k <= |ds|
  {
    if k == i then 0 else Height(ds, i, k - 1) + ds[k - 1]
  }

  /** Step `k` opens a node at height `h`. */
  predicate Opens(ds: seq<int>, i: nat, k: nat, h: int)
    requires i <= k < |ds|
  {
    ds[k] == 1 && Height(ds, i, k) == h
  }

  predicate Above(ds: seq<int>, i: nat, m: nat, h: int)
    requires i <= m <= |ds|
  {
    Height(ds, i, m) >= h
  }

  predicate Over(ds: seq<int>, i: nat, m: nat, h: int)
    requires i <= m <= |ds|
  {
    Height(ds, i, m) > h
  }

  /** Call `k` begins a node directly inside the one that call `i` began: that one is open all the while. */
  ghost predicate IsChild(cs: seq<Call>, i: nat, k: nat) {
    && i < k < |cs| && Opens(Rises(cs), i, k, 1)
    && forall m :: i < m <= k ==> Above(Rises(cs), i, m, 1)
  }

  /** The children of the node that call `i` began, among the calls from `k` on, in order. */
  ghost function ChildCalls(cs: seq<Call>, i: nat, k: nat): seq<nat>
    decreases |cs| - k
  {
    if k >= |cs| then []
    else (if IsChild(cs, i, k) then [k] else []) + ChildCalls(cs, i, k + 1)
  }

  ghost predicate Ascending(c: seq<nat>) {
    forall x, y :: 0 <= x < y < |c| ==> c[x] < c[y]
  }

  /** It holds each child once, and nothing else. */
  lemma {:induction false} ChildCallsMembers(cs: seq<Call>, i: nat, k: nat)
    ensures Ascending(ChildCalls(cs, i, k))
    ensures forall x: nat :: x in ChildCalls(cs, i, k) <==> x >= k && IsChild(cs, i, x)
    decreases |cs| - k
  {
    if k < |cs| {
      var head, rest := if IsChild(cs, i, k) then [k] else [], ChildCalls(cs, i, k + 1);
      ChildCallsMembers(cs, i, k + 1);
      assert ChildCalls(cs, i, k) == head + rest;
      forall x | 0 <= x < |rest| ensures rest[x] > k {
        assert rest[x] in rest;
      }
      forall x: nat ensures x in head + rest <==> x >= k && IsChild(cs, i, x) {
        assert x in head + rest <==> x in head || x in rest;
      }
    }
  }

  /** There is one ascending list with given members. */
  lemma {:induction false} AscendingUnique(c: seq<nat>, d: seq<nat>)
    requires Ascending(c) && Ascending(d) && forall x: nat :: x in c <==> x in d
    ensures c == d
  {
    if c == [] {
      assert d == [] by {
        assert forall x :: 0 <= x < |d| ==> d[x] in d;
      }
    } else {
      assert c[0] in d && d[0] in c by {
        assert c[0] in c;
        assert d != [] && d[0] in d;
      }
      assert c[0] == d[0];
      forall x: nat ensures x in c[1..] <==> x in d[1..] {
        assert x in c <==> x == c[0] || x in c[1..];
        assert x in d <==> x == d[0] || x in d[1..];
      }
      AscendingUnique(c[1..], d[1..]);
      assert c == [c[0]] + c[1..] && d == [d[0]] + d[1..];
    }
  }

  function TokenRise(t: Token): int {
    if t.BeginNode? then 1 else if t.EndNode? then -1 else 0
  }

  /** The steps are those of the tokens in front of END. */
  ghost predicate Agree(ds: seq<int>, ts: seq<Token>) {
    |ts| == |ds| + 1 && ts[|ds|].End? && forall k :: 0 <= k < |ds| ==> ds[k] == TokenRise(ts[k])
  }

  /** While an item stands, the height stays at or above the start, strictly inside a node above it. */
  lemma {:induction false} ItemHeights(ds: seq<int>, ts: seq<Token>, i: nat, j: nat, item: Item)
    requires Agree(ds, ts) && i <= j && Stands(ts, j, Tokens(item)) && j + |Tokens(item)| <= |ds|
    ensures var h, e := Height(ds, i, j), j + |Tokens(item)|;
      && j < e && Height(ds, i, e) == h && ds[j] == (if item.Node? then 1 else 0)
      && forall m :: j < m < e ==> Over(ds, i, m, h)
    decreases item, 1
  {
    match item
    case PropItem(nameoff, value) => StandsHead(ts, j, Prop(nameoff, value));
    case NopItem => StandsHead(ts, j, Nop);
    case Node(name, inner) =>
      NodeParts(ts, j, name, inner);
      ItemsHeights(ds, ts, i, j + 1, inner);
      var h, e := Height(ds, i, j), j + |Tokens(item)|;
      forall m | j < m < e ensures Over(ds, i, m, h) {
        assert Above(ds, i, m, Height(ds, i, j + 1));
      }
  }

  /** Over a list of items, the children are the begin steps at the height of the start. */
  lemma {:induction false} ItemsHeights(ds: seq<int>, ts: seq<Token>, i: nat, j: nat, items: seq<Item>)
    requires Agree(ds, ts) && i <= j && Stands(ts, j, TokensOf(items)) && j + |TokensOf(items)| <= |ds|
    ensures var h, e := Height(ds, i, j), j + |TokensOf(items)|;
      && Height(ds, i, e) == h
      && (forall m :: j <= m <= e ==> Above(ds, i, m, h))
      && (forall k :: k in Children(items, j) ==> j <= k < e)
      && (forall k :: j <= k < e ==> (k in Children(items, j) <==> Opens(ds, i, k, h)))
    decreases items, 0
  {
    if items != [] {
      var next := j + |Tokens(items[0])|;
      StandsSplit(ts, j, Tokens(items[0]), TokensOf(items[1..]));
      ItemHeights(ds, ts, i, j, items[0]);
      ItemsHeights(ds, ts, i, next, items[1..]);
      FirstThenRest(ds, i, j, items, next, Children(items[1..], next));
    }
  }

  lemma {:induction false} FirstThenRest(ds: seq<int>, i: nat, j: nat, items: seq<Item>, next: nat, rest: seq<nat>)
    requires items != [] && rest == Children(items[1..], next)
    requires next == j + |Tokens(items[0])| && next + |TokensOf(items[1..])| <= |ds| && i <= j < next
    requires Height(ds, i, next) == Height(ds, i, j) && ds[j] == (if items[0].Node? then 1 else 0)
    requires forall m :: j < m < next ==> Over(ds, i, m, Height(ds, i, j))
    requires var h, e := Height(ds, i, j), next + |TokensOf(items[1..])|;
      && (forall m :: next <= m <= e ==> Above(ds, i, m, h))
      && (forall k :: k in rest ==> next <= k < e)
      && (forall k :: next <= k < e ==> (k in rest <==> Opens(ds, i, k, h)))
    ensures var h, e := Height(ds, i, j), next + |TokensOf(items[1..])|;
      && |TokensOf(items)| == e - j
      && (forall m :: j <= m <= e ==> Above(ds, i, m, h))
      && (forall k :: k in Children(items, j) ==> j <= k < e)
      && (forall k :: j <= k < e ==> (k in Children(items, j) <==> Opens(ds, i, k, h)))
  {
    var h, e := Height(ds, i, j), next + |TokensOf(items[1..])|;
    var head := if items[0].Node? then [j] else [];
    assert Children(items, j) == head + rest;
    forall m | j <= m <= e ensures Above(ds, i, m, h) {
      assert j < m < next ==> Over(ds, i, m, h);
    }
    forall k | k in head + rest ensures j <= k < e {
      assert k in head || k in rest;
    }
    forall k | j <= k < e ensures k in head + rest <==> Opens(ds, i, k, h) {
      assert k in head + rest <==> (k in head || k in rest);
      assert k in rest ==> next <= k;
      assert j < k < next ==> Over(ds, i, k, h);
    }
  }

  lemma {:induction false} ChildrenAscend(items: seq<Item>, base: nat)
    ensures forall k :: 0 <= k < |Children(items, base)| ==> Children(items, base)[k] >= base
    ensures forall j, k :: 0 <= j < k < |Children(items, base)| ==> Children(items, base)[j] < Children(items, base)[k]
  {
    if items != [] {
      ChildrenAscend(items[1..], base + |Tokens(items[0])|);
    }
  }

  /** Heights around a node: at least 1 up to its end at `e`, where it is closed. */
  lemma {:induction false} NodeHeights(ds: seq<int>, ts: seq<Token>, i: nat, name: seq<byte>, items: seq<Item>)
    requires Agree(ds, ts) && i < |ds| && Stands(ts, i, Tokens(Node(name, items)))
    ensures var c, e := Children(items, i + 1), i + 1 + |TokensOf(items)|;
      && e < |ds| && ds[e] == -1 && !Above(ds, i, e + 1, 1)
      && (forall m :: i < m <= e ==> Above(ds, i, m, 1))
      && (forall k :: k in c ==> i < k < e)
      && (forall k :: i < k < e ==> (k in c <==> Opens(ds, i, k, 1)))
  {
    NodeParts(ts, i, name, items);
    assert Height(ds, i, i) == 0;
    assert ds[i] == 1 && Height(ds, i, i + 1) == 1;
    ItemsHeights(ds, ts, i, i + 1, items);
  }

  /** The tree's children of a node are its children by the calls. */
  lemma {:induction false} ChildrenByCalls(cs: seq<Call>, ts: seq<Token>, i: nat, name: seq<byte>, items: seq<Item>,
      k: nat)
    requires Agree(Rises(cs), ts) && i < |cs| && Stands(ts, i, Tokens(Node(name, items)))
    ensures k in Children(items, i + 1) <==> IsChild(cs, i, k)
  {
    NodeHeights(Rises(cs), ts, i, name, items);
  }

  lemma {:induction false} ChildrenAreChildCalls(cs: seq<Call>, ts: seq<Token>, i: nat, name: seq<byte>,
      items: seq<Item>)
    requires Agree(Rises(cs), ts) && i < |cs| && Stands(ts, i, Tokens(Node(name, items)))
    ensures Children(items, i + 1) == ChildCalls(cs, i, i + 1)
  {
    ChildrenAscend(items, i + 1);
    ChildCallsMembers(cs, i, i + 1);
    var c, d := Children(items, i + 1), ChildCalls(cs, i, i + 1);
    forall k: nat ensures k in c <==> k in d {
      ChildrenByCalls(cs, ts, i, name, items, k);
    }
    AscendingUnique(c, d);
  }

  /** The tokens of a finished blob take the steps of the calls they stand for. */
  lemma {:induction false} StepsAgree(w: Writer, cs: seq<Call>)
    requires Matches(w, cs)
    ensures Agree(Rises(cs), FinalTokens(w))
  {
    var ts := FinalTokens(w);
    forall k | 0 <= k < |cs| ensures Rises(cs)[k] == TokenRise(ts[k]) {
      assert StandsFor(w.tokens[k], cs[k], w.strings);
    }
  }

  /** Balanced calls write nested tokens. */
  lemma {:induction false} BalancedNests(cs: seq<Call>, ts: seq<Token>, depth: nat)
    requires |ts| == |cs| && Balanced(cs, depth)
    requires forall k :: 0 <= k < |cs| ==> !ts[k].End? && Rise(cs[k]) == TokenRise(ts[k])
    ensures Nested(ts, depth)
  {
    if cs != [] {
      BalancedNests(cs[1..], ts[1..], depth + Rise(cs[0]));
    }
  }

  lemma {:induction false} WriterNests(w: Writer, cs: seq<Call>)
    requires Matches(w, cs) && Balanced(cs, 0)
    ensures |FinalTokens(w)| == |cs| + 1 && Nested(FinalTokens(w)[..|cs|], 0)
  {
    var ts := FinalTokens(w)[..|cs|];
    forall k | 0 <= k < |cs| ensures !ts[k].End? && Rise(cs[k]) == TokenRise(ts[k]) {
      assert StandsFor(w.tokens[k], cs[k], w.strings);
    }
    BalancedNests(cs, ts, 0);
  }

  lemma {:induction false} StandsBeyond(ts: seq<Token>, n: nat, i: nat, part: seq<Token>)
    requires n <= |ts| && Stands(ts[..n], i, part)
    ensures Stands(ts, i, part)
  {
    assert ts[i..i + |part|] == ts[..n][i..i + |part|];
  }

  lemma {:induction false} BeginToken(w: Writer, cs: seq<Call>, i: nat)
    requires Matches(w, cs) && i < |cs| && cs[i].Begin?
    ensures |FinalTokens(w)| == |cs| + 1 && FinalTokens(w)[i] == BeginNode(cs[i].name)
  {
    assert StandsFor(w.tokens[i], cs[i], w.strings);
  }

  /** After balanced calls, every node of the finished blob is a whole tree. */
  lemma {:induction false} WriterNodeStands(w: Writer, cs: seq<Call>, i: nat) returns (items: seq<Item>)
    requires Matches(w, cs) && Balanced(cs, 0) && i < |cs| && cs[i].Begin?
    ensures Stands(FinalTokens(w), i, Tokens(Node(cs[i].name, items)))
  {
    var ts := FinalTokens(w);
    BeginToken(w, cs, i);
    WriterNests(w, cs);
    items := NodeStands(ts[..|cs|], i);
    StandsBeyond(ts, |cs|, i, Tokens(Node(cs[i].name, items)));
  }

  /** A finished blob ends with END and has it nowhere else. */
  lemma {:induction false} WriterFinishes(w: Writer, buf: seq<byte>)
    requires Fits(w) && Gap(w) >= 4 && FinalBlob(w) <= buf
    ensures |buf| >= HEADER_SIZE && Finished(Parse(buf), FinalTokens(w))
  {
    FinalShape(w, buf);
  }

  /**
   For every run of writer calls whose successful structure calls balance, and
   every node they begin: on any buffer that starts with the finished blob, first
   subnode and next subnode return the offsets of exactly its direct children, in
   order.
   */
  method WriterSubnodes(buf: seq<byte>, offset: nat, ghost total: nat, ghost calls: seq<Call>, ghost i: nat)
    returns (r: seq<nat>)
    requires RSVMAP_OFFSET <= total < INT_LIMIT && (forall k :: 0 <= k < |calls| ==> GoodCall(calls[k]))
    requires Run(total, calls).Some? && Gap(Run(total, calls).value.0) >= 4
    requires Fits(Run(total, calls).value.0) && FinalBlob(Run(total, calls).value.0) <= buf
    requires var (w, done) := Run(total, calls).value;
      && Balanced(Structural(done), 0) && i < |Structural(done)| && Structural(done)[i].Begin?
      && i < |FinalTokens(w)| && offset == Offset(FinalTokens(w), i)
    ensures var (w, done) := Run(total, calls).value;
      var c := ChildCalls(Structural(done), i, i + 1);
      && |r| == |c|
      && (forall k :: 0 <= k < |c| ==> c[k] < |FinalTokens(w)| && r[k] == Offset(FinalTokens(w), c[k]))
  {
    ghost var (w, done) := Run(total, calls).value;
    ghost var cs := Structural(done);
    RunKeepsInv(total, calls);
    WriterFinishes(w, buf);
    ghost var items := WriterNodeStands(w, cs, i);
    StepsAgree(w, cs);
    ChildrenAreChildCalls(cs, FinalTokens(w), i, cs[i].name, items);
    r := Subnodes(Parse(buf), offset, FinalTokens(w), i, cs[i].name, items);
  }
}
