/**
 Enumerating the children of a node: the walker keeps a depth counter over a
 flat token list, and on a properly nested tree it visits exactly the direct
 children, in order.
 */
module FdtSubnodes {
  import opened Bytes
  import opened Options
  import opened Fdt
  import opened FdtWalk

  /** A tree as nested writer calls produce it, some of its words perhaps overwritten by NOP. */
  datatype Item = PropItem(nameoff: uint32, value: seq<byte>) | NopItem | Node(name: seq<byte>, items: seq<Item>)

  function Tokens(t: Item): seq<Token>
    decreases t, 1
  {
    match t
    case PropItem(nameoff, value) => [Prop(nameoff, value)]
    case NopItem => [Nop]
    case Node(name, items) => [BeginNode(name)] + TokensOf(items) + [EndNode]
  }

  function TokensOf(items: seq<Item>): seq<Token>
    decreases items, 0
  {
    if items == [] then [] else Tokens(items[0]) + TokensOf(items[1..])
  }

  /** Where the direct child nodes start when the items start at token `base`. */
  function Children(items: seq<Item>, base: nat): seq<nat> {
    if items == [] then []
    else if items[0].Node? then [base] + Children(items[1..], base + |Tokens(items[0])|)
    else Children(items[1..], base + |Tokens(items[0])|)
  }

  /** Outcome of `fdt_next_node`: a node, a place behind the enclosing node's end, or neither. */
  datatype Next = At(i: nat, depth: int) | Left(i: nat, depth: int) | NoMore

  /** `fdt_next_node` from token `j` on. */
  function NextNode(ts: seq<Token>, j: nat, depth: int): Next
    decreases |ts| - j
  {
    if j >= |ts| then NoMore
    else
      match ts[j]
      case Prop(_, _) => NextNode(ts, j + 1, depth)
      case Nop => NextNode(ts, j + 1, depth)
      case BeginNode(_) => At(j, depth + 1)
      case EndNode => if depth - 1 < 0 then Left(j + 1, depth - 1) else NextNode(ts, j + 1, depth - 1)
      case End => NoMore
  }

  /** The token of the next node at depth 1, before the enclosing node ends. */
  function Scan(ts: seq<Token>, j: nat, depth: int): Option<nat>
    decreases |ts| - j
  {
    if j >= |ts| then None
    else
      match ts[j]
      case Prop(_, _) => Scan(ts, j + 1, depth)
      case Nop => Scan(ts, j + 1, depth)
      case BeginNode(_) => if depth + 1 == 1 then Some(j) else Scan(ts, j + 1, depth + 1)
      case EndNode => if depth - 1 < 0 then None else Scan(ts, j + 1, depth - 1)
      case End => None
  }

  /** Repeating `fdt_next_node` until the depth is back at 1 is one scan. */
  lemma {:induction false} NextNodeScans(ts: seq<Token>, j: nat, depth: int)
    requires depth >= 0
    ensures match NextNode(ts, j, depth)
            case At(k, d) =>
              k < |ts| && j <= k && d >= 1 && ts[k].BeginNode?
              && Scan(ts, j, depth) == if d == 1 then Some(k) else Scan(ts, k + 1, d)
            case Left(k, d) => d < 0 && k <= |ts| && Scan(ts, j, depth) == None
            case NoMore => Scan(ts, j, depth) == None
    decreases |ts| - j
  {
    if j < |ts| {
      match ts[j]
      case Prop(_, _) => NextNodeScans(ts, j + 1, depth);
      case Nop => NextNodeScans(ts, j + 1, depth);
      case EndNode =>
        if depth >= 1 {
          NextNodeScans(ts, j + 1, depth - 1);
        }
      case _ =>
    }
  }

  /** `part` stands at token `j`. */
  predicate Stands(ts: seq<Token>, j: nat, part: seq<Token>) {
    j + |part| <= |ts| && ts[j..j + |part|] == part
  }

  lemma {:induction false} StandsSplit(ts: seq<Token>, j: nat, x: seq<Token>, y: seq<Token>)
    requires Stands(ts, j, x + y)
    ensures Stands(ts, j, x) && Stands(ts, j + |x|, y)
  {
    var w := ts[j..j + |x + y|];
    assert ts[j..j + |x|] == w[..|x|] == x;
    assert ts[j + |x|..j + |x| + |y|] == w[|x|..] == y;
  }

  lemma {:induction false} StandsHead(ts: seq<Token>, j: nat, t: Token)
    requires Stands(ts, j, [t])
    ensures j < |ts| && ts[j] == t
  {
    assert ts[j] == ts[j..j + 1][0];
  }

  /** The parts of a node, wherever it stands. */
  lemma {:induction false} NodeParts(ts: seq<Token>, j: nat, name: seq<byte>, items: seq<Item>)
    requires Stands(ts, j, Tokens(Node(name, items)))
    ensures |Tokens(Node(name, items))| == |TokensOf(items)| + 2
    ensures j + |TokensOf(items)| + 1 < |ts| && ts[j] == BeginNode(name)
    ensures Stands(ts, j + 1, TokensOf(items)) && ts[j + 1 + |TokensOf(items)|] == EndNode
  {
    var body := TokensOf(items);
    assert Tokens(Node(name, items)) == [BeginNode(name)] + (body + [EndNode]);
    StandsSplit(ts, j, [BeginNode(name)], body + [EndNode]);
    StandsSplit(ts, j + 1, body, [EndNode]);
    StandsHead(ts, j, BeginNode(name));
    StandsHead(ts, j + 1 + |body|, EndNode);
  }

  /** Inside a child, a scan passes over a whole item. */
  lemma {:induction false} ScanItem(ts: seq<Token>, j: nat, item: Item, depth: int)
    requires depth >= 1 && Stands(ts, j, Tokens(item))
    ensures Scan(ts, j, depth) == Scan(ts, j + |Tokens(item)|, depth)
    decreases item, 1
  {
    match item
    case PropItem(nameoff, value) => StandsHead(ts, j, Prop(nameoff, value));
    case NopItem => StandsHead(ts, j, Nop);
    case Node(name, inner) =>
      NodeParts(ts, j, name, inner);
      ScanOver(ts, j + 1, inner, depth + 1);
  }

  /** And so over all items, one after the other. */
  lemma {:induction false} ScanOver(ts: seq<Token>, j: nat, items: seq<Item>, depth: int)
    requires depth >= 1 && Stands(ts, j, TokensOf(items))
    ensures Scan(ts, j, depth) == Scan(ts, j + |TokensOf(items)|, depth)
    decreases items, 0
  {
    if items != [] {
      StandsSplit(ts, j, Tokens(items[0]), TokensOf(items[1..]));
      ScanItem(ts, j, items[0], depth);
      ScanOver(ts, j + |Tokens(items[0])|, items[1..], depth);
    }
  }

  /** The items of a node are followed by its end. */
  ghost predicate Inside(ts: seq<Token>, j: nat, items: seq<Item>) {
    Stands(ts, j, TokensOf(items)) && j + |TokensOf(items)| < |ts| && ts[j + |TokensOf(items)|] == EndNode
  }

  lemma {:induction false} InsideRest(ts: seq<Token>, j: nat, items: seq<Item>)
    requires Inside(ts, j, items) && items != []
    ensures Stands(ts, j, Tokens(items[0])) && Inside(ts, j + |Tokens(items[0])|, items[1..])
  {
    StandsSplit(ts, j, Tokens(items[0]), TokensOf(items[1..]));
  }

  /** From depth 0, a scan stops at the first child. */
  lemma {:induction false} FirstChild(ts: seq<Token>, j: nat, items: seq<Item>)
    requires Inside(ts, j, items)
    ensures Scan(ts, j, 0) == if Children(items, j) == [] then None else Some(Children(items, j)[0])
    decreases |items|
  {
    if items != [] {
      InsideRest(ts, j, items);
      match items[0]
      case PropItem(nameoff, value) =>
        StandsHead(ts, j, Prop(nameoff, value));
        FirstChild(ts, j + 1, items[1..]);
      case NopItem =>
        StandsHead(ts, j, Nop);
        FirstChild(ts, j + 1, items[1..]);
      case Node(name, inner) => NodeParts(ts, j, name, inner);
    }
  }

  lemma {:induction false} ChildSkipped(ts: seq<Token>, j: nat, name: seq<byte>, inner: seq<Item>)
    requires Stands(ts, j, Tokens(Node(name, inner)))
    ensures j < |ts| && ts[j].BeginNode?
    ensures Scan(ts, j + 1, 1) == Scan(ts, j + |Tokens(Node(name, inner))|, 0)
  {
    NodeParts(ts, j, name, inner);
    ScanOver(ts, j + 1, inner, 1);
  }

  /** From a child, a scan stops at the next one, and after the last it finds none. */
  lemma {:induction false} NextChild(ts: seq<Token>, j: nat, items: seq<Item>, k: nat)
    requires Inside(ts, j, items) && k < |Children(items, j)|
    ensures var c := Children(items, j);
      && c[k] < |ts| && ts[c[k]].BeginNode?
      && Scan(ts, c[k] + 1, 1) == if k + 1 < |c| then Some(c[k + 1]) else None
    decreases |items|
  {
    InsideRest(ts, j, items);
    var next := j + |Tokens(items[0])|;
    match items[0]
    case PropItem(_, _) => NextChild(ts, next, items[1..], k);
    case NopItem => NextChild(ts, next, items[1..], k);
    case Node(name, inner) =>
      if k == 0 {
        ChildSkipped(ts, j, name, inner);
        FirstChild(ts, next, items[1..]);
      } else {
        NextChild(ts, next, items[1..], k - 1);
      }
  }

  /** Begin and end tokens balance, starting inside `depth` open nodes. */
  predicate Nested(ts: seq<Token>, depth: nat) {
    if ts == [] then depth == 0
    else
      match ts[0]
      case BeginNode(_) => Nested(ts[1..], depth + 1)
      case EndNode => depth > 0 && Nested(ts[1..], depth - 1)
      case Prop(_, _) => Nested(ts[1..], depth)
      case Nop => Nested(ts[1..], depth)
      case End => false
  }

  lemma {:induction false} NodeThen(name: seq<byte>, inner: seq<Item>, tail: seq<Token>)
    requires tail != [] && tail[0] == EndNode
    ensures [BeginNode(name)] + (TokensOf(inner) + tail) == Tokens(Node(name, inner)) + tail[1..]
  {
    assert tail == [EndNode] + tail[1..];
  }

  /** Balanced tokens start with whole items, up to the end of the enclosing node. */
  lemma {:induction false} NestedItems(ts: seq<Token>, depth: nat) returns (items: seq<Item>, rest: seq<Token>)
    requires Nested(ts, depth)
    ensures ts == TokensOf(items) + rest
    ensures if depth == 0 then rest == [] else rest != [] && rest[0] == EndNode && Nested(rest[1..], depth - 1)
    decreases |ts|
  {
    if ts == [] || ts[0].EndNode? {
      items, rest := [], ts;
    } else {
      var first: Item, after: seq<Token>;
      if ts[0].Prop? {
        first, after := PropItem(ts[0].nameoff, ts[0].value), ts[1..];
      } else if ts[0].Nop? {
        first, after := NopItem, ts[1..];
      } else {
        var inner, tail := NestedItems(ts[1..], depth + 1);
        first, after := Node(ts[0].name, inner), tail[1..];
        NodeThen(ts[0].name, inner, tail);
      }
      assert ts == [ts[0]] + ts[1..] == Tokens(first) + after;
      items, rest := NestedItems(after, depth);
      ItemThen(first, items, rest);
      items := [first] + items;
    }
  }

  lemma {:induction false} ItemThen(first: Item, items: seq<Item>, rest: seq<Token>)
    ensures Tokens(first) + (TokensOf(items) + rest) == TokensOf([first] + items) + rest
  {
    assert ([first] + items)[1..] == items;
  }

  lemma {:induction false} NestedSuffix(ts: seq<Token>, depth: nat, i: nat) returns (d: nat)
    requires Nested(ts, depth) && i <= |ts|
    ensures Nested(ts[i..], d)
  {
    if i == 0 {
      d := depth;
      assert ts[0..] == ts;
    } else {
      var up := if ts[0].BeginNode? then depth + 1 else if ts[0].EndNode? then depth - 1 else depth;
      d := NestedSuffix(ts[1..], up, i - 1);
      assert ts[1..][i - 1..] == ts[i..];
    }
  }

  lemma {:induction false} PrefixStands(ts: seq<Token>, i: nat, x: seq<Token>, y: seq<Token>)
    requires i <= |ts| && ts[i..] == x + y
    ensures Stands(ts, i, x)
  {
    assert ts[i..i + |x|] == ts[i..][..|x|];
  }

  /** In balanced tokens, every begin token starts a whole node. */
  lemma {:induction false} NodeStands(ts: seq<Token>, i: nat) returns (items: seq<Item>)
    requires Nested(ts, 0) && i < |ts| && ts[i].BeginNode?
    ensures Stands(ts, i, Tokens(Node(ts[i].name, items)))
  {
    var d := NestedSuffix(ts, 0, i);
    assert ts[i..][0] == ts[i] && ts[i..][1..] == ts[i + 1..];
    var rest: seq<Token>;
    items, rest := NestedItems(ts[i + 1..], d + 1);
    NodeThen(ts[i].name, items, rest);
    assert ts[i..] == [ts[i]] + ts[i + 1..];
    PrefixStands(ts, i, Tokens(Node(ts[i].name, items)), rest[1..]);
  }

  /** A finished structure block: END stands last and only there. */
  ghost predicate Finished(b: Blob, ts: seq<Token>) {
    && HasTokens(b, ts) && ts != [] && ts[|ts| - 1].End?
    && forall i :: 0 <= i < |ts| - 1 ==> !ts[i].End?
  }

  /** Behind the name of the node that starts at `offset`, or an error. */
  function NodeEnd(b: Blob, offset: int): int
    requires Sound(b) && IsInt(offset)
  {
    if offset >= 0 && offset % 4 == 0 && NextTag(b, offset).tag == TAG_BEGIN_NODE then NextTag(b, offset).next
    else ERR_BADOFFSET
  }

  /** `_fdt_check_node_offset`, on any blob and any offset. */
  method CheckNodeOffset(b: Blob, offset: int) returns (r: int)
    requires Sound(b) && IsInt(offset)
    ensures r == NodeEnd(b, offset)
  {
    if offset < 0 || offset % 4 != 0 {
      return ERR_BADOFFSET;
    }
    var tag, next := FdtNextTag(b, offset);
    if tag != TAG_BEGIN_NODE {
      return ERR_BADOFFSET;
    }
    r := next;
  }

  /** On any bytes, the check accepts exactly the aligned offsets of a begin word with a name that ends in the block. */
  lemma {:induction false} NodeAccepted(b: Blob, offset: int)
    requires Sound(b) && IsInt(offset)
    ensures if offset >= 0 && offset % 4 == 0 && offset + 4 <= Room(b) && Word(b, offset) == 1 && HasNul(b, offset + 4)
            then NodeEnd(b, offset) >= 0 else NodeEnd(b, offset) == ERR_BADOFFSET
  {
    if offset >= 0 {
      TokenAccepted(b, offset);
    }
  }

  /** Among token offsets, the check accepts exactly the starts of nodes. */
  lemma {:induction false} NodeEndAt(b: Blob, ts: seq<Token>, i: nat)
    requires HasTokens(b, ts) && i < |ts|
    ensures Offset(ts, i) < INT_LIMIT
    ensures NodeEnd(b, Offset(ts, i)) == if ts[i].BeginNode? then Offset(ts, i + 1) else ERR_BADOFFSET
  {
    NextTagAt(b, ts, i);
    OffsetAligned(ts, i);
  }

  /** The offset is negative, is refused, or is that of token `i`: no offset into a token that looks like a node. */
  ghost predicate Known(b: Blob, ts: seq<Token>, offset: int, i: nat) {
    && Finished(b, ts) && IsInt(offset) && i < |ts|
    && (offset < 0 || NodeEnd(b, offset) == ERR_BADOFFSET || (offset == Offset(ts, i) && ts[i].BeginNode?))
  }

  /** A search that is refused, and the token where the others start: the first one for a negative offset. */
  predicate Refused(b: Blob, offset: int)
    requires Sound(b) && IsInt(offset)
  {
    offset >= 0 && NodeEnd(b, offset) == ERR_BADOFFSET
  }

  function From(offset: int, i: nat): nat {
    if offset < 0 then 0 else i + 1
  }

  /** `fdt_next_node`; the depth is the caller's counter. */
  method FdtNextNode(b: Blob, offset: int, depth: int, ghost ts: seq<Token>, ghost i: nat)
    returns (r: int, depth': int)
    requires Known(b, ts, offset, i)
    ensures Refused(b, offset) ==> r == ERR_BADOFFSET && depth' == depth
    ensures !Refused(b, offset) ==>
      match NextNode(ts, From(offset, i), depth)
      case At(k, d) => k < |ts| && r == Offset(ts, k) && depth' == d
      case Left(k, d) => k <= |ts| && r == Offset(ts, k) && depth' == d
      case NoMore => r == ERR_NOTFOUND
  {
    depth' := depth;
    var nextoffset := 0;
    if offset >= 0 {
      nextoffset := CheckNodeOffset(b, offset);
      if nextoffset < 0 {
        return nextoffset, depth;
      }
      NodeEndAt(b, ts, i);
    }
    r, depth' := Search(b, nextoffset, depth, ts, From(offset, i));
  }

  /** The loop of `fdt_next_node`. */
  method Search(b: Blob, from: nat, depth: int, ghost ts: seq<Token>, ghost j0: nat) returns (r: int, depth': int)
    requires Finished(b, ts) && j0 < |ts| && from == Offset(ts, j0)
    ensures match NextNode(ts, j0, depth)
            case At(k, d) => k < |ts| && r == Offset(ts, k) && depth' == d
            case Left(k, d) => k <= |ts| && r == Offset(ts, k) && depth' == d
            case NoMore => r == ERR_NOTFOUND
  {
    depth' := depth;
    var nextoffset := from;
    ghost var j := j0;
    while true
      invariant j < |ts| && nextoffset == Offset(ts, j)
      invariant NextNode(ts, j, depth') == NextNode(ts, j0, depth)
      decreases |ts| - j
    {
      NextTagAt(b, ts, j);
      var here := nextoffset;
      var tag;
      tag, nextoffset := FdtNextTag(b, here);
      if tag == TAG_BEGIN_NODE {
        depth' := depth' + 1;
        return here, depth';
      }
      if tag == TAG_END_NODE {
        depth' := depth' - 1;
        if depth' < 0 {
          return nextoffset, depth';
        }
      }
      if tag == TAG_END {
        return ERR_NOTFOUND, depth';
      }
      j := j + 1;
    }
  }

  /** `fdt_first_subnode` */
  method FdtFirstSubnode(b: Blob, offset: int, ghost ts: seq<Token>, ghost i: nat) returns (r: int)
    requires Known(b, ts, offset, i)
    ensures Refused(b, offset) ==> r == ERR_NOTFOUND
    ensures !Refused(b, offset) ==>
      match Scan(ts, From(offset, i), 0)
      case Some(k) => k < |ts| && r == Offset(ts, k)
      case None => r == ERR_NOTFOUND
  {
    NextNodeScans(ts, From(offset, i), 0);
    AtDepthOne(ts, From(offset, i));
    var o, depth := FdtNextNode(b, offset, 0, ts, i);
    if o < 0 || depth != 1 {
      return ERR_NOTFOUND;
    }
    r := o;
  }

  lemma {:induction false} AtDepthOne(ts: seq<Token>, j: nat)
    ensures NextNode(ts, j, 0).At? ==> NextNode(ts, j, 0).depth == 1
    decreases |ts| - j
  {
    if j < |ts| && (ts[j].Prop? || ts[j].Nop?) {
      AtDepthOne(ts, j + 1);
    }
  }

  /** `fdt_next_subnode` */
  method FdtNextSubnode(b: Blob, offset: int, ghost ts: seq<Token>, ghost i: nat) returns (r: int)
    requires Known(b, ts, offset, i)
    ensures Refused(b, offset) ==> r == ERR_NOTFOUND
    ensures !Refused(b, offset) ==>
      match Scan(ts, From(offset, i), 1)
      case Some(k) => k < |ts| && r == Offset(ts, k)
      case None => r == ERR_NOTFOUND
  {
    var o, depth := offset, 1;
    ghost var j := i;
    if Refused(b, offset) {
      o, depth := FdtNextNode(b, offset, depth, ts, i);
      return ERR_NOTFOUND;
    }
    while true
      invariant Known(b, ts, o, j) && depth >= 1 && !Refused(b, o)
      invariant Scan(ts, From(o, j), depth) == Scan(ts, From(offset, i), 1)
      decreases |ts| - From(o, j)
    {
      o, depth, j := NextDeeper(b, o, depth, ts, j);
      if o < 0 || depth < 1 {
        return ERR_NOTFOUND;
      }
      if depth <= 1 {
        return o;
      }
    }
  }

  /** One step of the loop: none left, found, or a deeper node to go on from. */
  method NextDeeper(b: Blob, offset: int, depth: int, ghost ts: seq<Token>, ghost i: nat)
    returns (r: int, depth': int, ghost k: nat)
    requires Known(b, ts, offset, i) && depth >= 1 && !Refused(b, offset)
    ensures r < 0 || depth' < 1 ==> Scan(ts, From(offset, i), depth) == None
    ensures r >= 0 && depth' == 1 ==> k < |ts| && r == Offset(ts, k) && Scan(ts, From(offset, i), depth) == Some(k)
    ensures r >= 0 && depth' > 1 ==>
      && Known(b, ts, r, k) && !Refused(b, r) && From(offset, i) < From(r, k) <= |ts|
      && Scan(ts, From(r, k), depth') == Scan(ts, From(offset, i), depth)
  {
    NextNodeScans(ts, From(offset, i), depth);
    ghost var found := NextNode(ts, From(offset, i), depth);
    r, depth' := FdtNextNode(b, offset, depth, ts, i);
    k := if found.At? then found.i else 0;
    if found.At? {
      NodeEndAt(b, ts, k);
    }
  }

  /** From each of these nodes the walker goes to the next, and from the last to none. */
  ghost predicate Chain(ts: seq<Token>, c: seq<nat>) {
    forall k :: 0 <= k < |c| ==>
      && c[k] < |ts| && ts[c[k]].BeginNode?
      && Scan(ts, c[k] + 1, 1) == if k + 1 < |c| then Some(c[k + 1]) else None
  }

  /** The children of a node are what the subnode calls go through. */
  lemma {:induction false} ChildrenChain(ts: seq<Token>, i: nat, name: seq<byte>, items: seq<Item>)
    requires Stands(ts, i, Tokens(Node(name, items)))
    ensures i < |ts| && ts[i] == BeginNode(name)
    ensures var c := Children(items, i + 1);
      Chain(ts, c) && Scan(ts, i + 1, 0) == if c == [] then None else Some(c[0])
  {
    NodeParts(ts, i, name, items);
    FirstChild(ts, i + 1, items);
    var c := Children(items, i + 1);
    forall k | 0 <= k < |c|
      ensures c[k] < |ts| && ts[c[k]].BeginNode?
      ensures Scan(ts, c[k] + 1, 1) == if k + 1 < |c| then Some(c[k + 1]) else None
    {
      NextChild(ts, i + 1, items, k);
    }
  }

  /** First subnode, then next subnode until not found: exactly the direct children, in order. */
  method Subnodes(b: Blob, offset: nat, ghost ts: seq<Token>, ghost i: nat, ghost name: seq<byte>,
      ghost items: seq<Item>)
    returns (r: seq<nat>)
    requires Finished(b, ts) && i < |ts| && offset == Offset(ts, i) && Stands(ts, i, Tokens(Node(name, items)))
    ensures var c := Children(items, i + 1);
      |r| == |c| && forall k :: 0 <= k < |c| ==> c[k] < |ts| && r[k] == Offset(ts, c[k])
  {
    ChildrenChain(ts, i, name, items);
    NodeEndAt(b, ts, i);
    var o := FdtFirstSubnode(b, offset, ts, i);
    r := Follow(b, o, ts, Children(items, i + 1));
  }

  method Follow(b: Blob, first: int, ghost ts: seq<Token>, ghost c: seq<nat>) returns (r: seq<nat>)
    requires Finished(b, ts) && Chain(ts, c)
    requires first == if c == [] then ERR_NOTFOUND else Offset(ts, c[0])
    ensures |r| == |c| && forall k :: 0 <= k < |c| ==> c[k] < |ts| && r[k] == Offset(ts, c[k])
  {
    var o := first;
    r := [];
    while o != ERR_NOTFOUND
      invariant |r| <= |c| && forall k :: 0 <= k < |r| ==> r[k] == Offset(ts, c[k])
      invariant o == if |r| == |c| then ERR_NOTFOUND else Offset(ts, c[|r|])
      decreases |c| - |r|
    {
      ghost var k := |r|;
      r := r + [o];
      NodeEndAt(b, ts, c[k]);
      o := FdtNextSubnode(b, o, ts, c[k]);
    }
  }
}
