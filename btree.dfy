/** The B-tree index: nodes holding sorted keys with their record offsets,
    insertion with splits of full nodes on the way down, lookup, range
    search and deletion. A node belongs to exactly one parent, so nodes are
    values here and the index object holds the root. Keys are integers. */
module BTree {
  import opened Wrappers

  datatype Entry = Entry(key: int, value: int)

  datatype Node = Node(keys: seq<int>, values: seq<int>, children: seq<Node>, leaf: bool)

  /** `BTreeNode(order)`: a leaf with no keys. */
  const EmptyLeaf := Node([], [], [], true)

  /** A node is full at `2*order - 1` keys. */
  function MaxKeys(order: int): int {
    2 * order - 1
  }

  /** The shape the index keeps: keys and values aligned, at most
      `MaxKeys(order)` keys per node, one more child than keys in an inner
      node, and every leaf at depth `d` below the node. */
  ghost predicate WF(n: Node, order: int, d: nat)
    decreases n
  {
    && |n.values| == |n.keys|
    && |n.keys| <= MaxKeys(order)
    && (n.leaf <==> d == 0)
    && (n.leaf ==> n.children == [])
    && (!n.leaf ==> |n.children| == |n.keys| + 1 && forall i :: 0 <= i < |n.children| ==> WF(n.children[i], order, d - 1))
  }

  /** The shape lookup needs: keys and values aligned and a child for every
      position a search can stop at. */
  ghost predicate Aligned(n: Node)
    decreases n
  {
    && |n.values| == |n.keys|
    && (!n.leaf ==> |n.children| > |n.keys| && forall i :: 0 <= i < |n.children| ==> Aligned(n.children[i]))
  }

  lemma {:induction false} WFAligned(n: Node, order: int, d: nat)
    requires WF(n, order, d)
    ensures Aligned(n)
    decreases n
  {
    if !n.leaf {
      forall i | 0 <= i < |n.children|
        ensures Aligned(n.children[i])
      {
        WFAligned(n.children[i], order, d - 1);
      }
    }
  }

  function Pairs(ks: seq<int>, vs: seq<int>): seq<Entry>
    requires |ks| == |vs|
  {
    seq(|ks|, i requires 0 <= i < |ks| => Entry(ks[i], vs[i]))
  }

  /** A node's own keys with their values. */
  function Own(n: Node): seq<Entry> {
    if |n.keys| == |n.values| then Pairs(n.keys, n.values) else []
  }

  /** The entries of a node in key order: each child's entries before the
      key that follows it. */
  function Flatten(n: Node): seq<Entry>
    decreases n
  {
    if n.leaf then Own(n)
    else if n.children == [] then []
    else Weave(Parts(n.children), Own(n))
  }

  /** The entries of each child. */
  function Parts(cs: seq<Node>): (r: seq<seq<Entry>>)
    ensures |r| == |cs|
    decreases cs
  {
    if cs == [] then [] else [Flatten(cs[0])] + Parts(cs[1..])
  }

  lemma {:induction false} PartsAppend(a: seq<Node>, b: seq<Node>)
    ensures Parts(a + b) == Parts(a) + Parts(b)
  {
    if a != [] {
      assert (a + b)[1..] == a[1..] + b && (a + b)[0] == a[0];
      PartsAppend(a[1..], b);
      var h := [Flatten(a[0])];
      assert Parts(a + b) == h + (Parts(a[1..]) + Parts(b));
      assert Parts(a) == h + Parts(a[1..]);
      Regroup3(h, Parts(a[1..]), Parts(b));
    } else {
      assert a + b == b;
    }
  }

  lemma {:induction false} Regroup3<T>(a: seq<T>, b: seq<T>, c: seq<T>)
    ensures a + (b + c) == a + b + c
  {
  }

  lemma {:induction false} PartsAt(cs: seq<Node>, i: nat)
    requires i < |cs|
    ensures Parts(cs)[i] == Flatten(cs[i])
  {
    if i > 0 {
      PartsAt(cs[1..], i - 1);
    }
  }

  /** Parts of a sequence of children with `k` of them replaced. */
  lemma {:induction false} PartsSplice(cs: seq<Node>, c: nat, k: nat, mid: seq<Node>)
    requires c + k <= |cs|
    ensures Parts(cs[..c] + mid + cs[c + k..]) == Parts(cs)[..c] + Parts(mid) + Parts(cs)[c + k..]
  {
    var a, m, b := cs[..c], cs[c..c + k], cs[c + k..];
    assert cs == a + m + b;
    PartsAppend(a + mid, b);
    PartsAppend(a, mid);
    PartsAppend(a + m, b);
    PartsAppend(a, m);
    var pa, pb := Parts(a), Parts(b);
    assert Parts(cs) == pa + Parts(m) + pb;
    assert |pa| == c && |Parts(m)| == k;
    SliceAround(pa, Parts(m), pb);
  }

  lemma {:induction false} SliceAround<T>(a: seq<T>, m: seq<T>, b: seq<T>)
    ensures (a + m + b)[..|a|] == a && (a + m + b)[|a| + |m|..] == b
  {
  }

  /** The parts interleaved with the keys; parts past the last key but one
      are out of reach. */
  function Weave<T>(parts: seq<seq<T>>, es: seq<T>): seq<T>
    requires parts != []
  {
    if |parts| == 1 || es == [] then parts[0]
    else parts[0] + [es[0]] + Weave(parts[1..], es[1..])
  }

  /** What comes before part `c`. */
  function Pre<T>(parts: seq<seq<T>>, es: seq<T>, c: nat): seq<T>
    requires |parts| == |es| + 1 && c <= |es|
  {
    if c == 0 then [] else parts[0] + [es[0]] + Pre(parts[1..], es[1..], c - 1)
  }

  /** What comes after part `c`. */
  function Post<T>(parts: seq<seq<T>>, es: seq<T>, c: nat): seq<T>
    requires |parts| == |es| + 1 && c <= |es|
  {
    if c == |es| then [] else [es[c]] + Weave(parts[c + 1..], es[c + 1..])
  }

  /** Part `c` sits between `Pre` and `Post`, whatever it holds. */
  lemma {:induction false} WeaveAround<T>(parts: seq<seq<T>>, es: seq<T>, c: nat, x: seq<T>)
    requires |parts| == |es| + 1 && c <= |es|
    ensures Weave(parts[c := x], es) == Pre(parts, es, c) + x + Post(parts, es, c)
  {
    if c == 0 {
      if es != [] {
        assert parts[c := x][1..] == parts[1..];
      }
    } else {
      WeaveAround(parts[1..], es[1..], c - 1, x);
      WeaveAroundStep(parts, es, c, x);
    }
  }

  lemma {:induction false} WeaveAroundStep<T>(parts: seq<seq<T>>, es: seq<T>, c: nat, x: seq<T>)
    requires |parts| == |es| + 1 && 0 < c <= |es|
    requires Weave(parts[1..][c - 1 := x], es[1..])
      == Pre(parts[1..], es[1..], c - 1) + x + Post(parts[1..], es[1..], c - 1)
    ensures Weave(parts[c := x], es) == Pre(parts, es, c) + x + Post(parts, es, c)
  {
    assert parts[c := x][1..] == parts[1..][c - 1 := x];
    PostShift(parts, es, c);
    var head := parts[0] + [es[0]];
    var pre, post := Pre(parts[1..], es[1..], c - 1), Post(parts, es, c);
    assert Weave(parts[c := x], es) == head + (pre + x + post);
    assert head + (pre + x + post) == head + pre + x + post;
  }

  lemma {:induction false} PostShift<T>(parts: seq<seq<T>>, es: seq<T>, c: nat)
    requires |parts| == |es| + 1 && 0 < c <= |es|
    ensures Post(parts[1..], es[1..], c - 1) == Post(parts, es, c)
  {
    if c < |es| {
      assert parts[1..][c - 1 + 1..] == parts[c + 1..];
      assert es[1..][c - 1 + 1..] == es[c + 1..];
    }
  }

  /** Two parts and an element in place of part `c`. */
  lemma {:induction false} WeaveSplitAt<T>(parts: seq<seq<T>>, es: seq<T>, c: nat, left: seq<T>, m: T, right: seq<T>)
    requires |parts| == |es| + 1 && c <= |es|
    ensures Weave(parts[..c] + [left, right] + parts[c + 1..], es[..c] + [m] + es[c..])
      == Pre(parts, es, c) + left + [m] + right + Post(parts, es, c)
  {
    var parts', es' := parts[..c] + [left, right] + parts[c + 1..], es[..c] + [m] + es[c..];
    var pre, post := Pre(parts, es, c), Post(parts, es, c);
    WeaveAt(parts', es', c);
    assert parts'[..c] == parts[..c] && es'[..c] == es[..c];
    PreFrame(parts', es', parts, es, c);
    assert Pre(parts', es', c) == pre;
    PostNext(parts', es', c);
    assert parts'[c + 2..] == parts[c + 1..] && es'[c + 1..] == es[c..];
    PostFrame(parts', es', c + 1, parts, es, c);
    assert parts'[c] == left && parts'[c + 1] == right && es'[c] == m;
    var tail := [m] + right + post;
    assert Post(parts', es', c) == tail;
    assert Weave(parts', es') == pre + left + tail;
    Regroup3(pre + left, [m] + right, post);
    Regroup3(pre + left, [m], right);
  }

  lemma {:induction false} RegroupHead<T>(h: seq<T>, a: seq<T>, b: seq<T>, c: seq<T>, d: seq<T>, e: seq<T>)
    ensures h + (a + b + c + d + e) == h + a + b + c + d + e
  {
  }

  /** `Weave` takes the first part and the first element off the front. */
  lemma {:induction false} WeaveCons<T>(p: seq<T>, parts: seq<seq<T>>, e: T, es: seq<T>)
    requires parts != []
    ensures Weave([p] + parts, [e] + es) == p + [e] + Weave(parts, es)
  {
    ConsTail(p, parts);
    ConsTail(e, es);
  }

  lemma {:induction false} ConsTail<T>(a: T, s: seq<T>)
    ensures ([a] + s)[0] == a && ([a] + s)[1..] == s
  {
  }

  /** The parts and elements cut at element `m`. */
  lemma {:induction false} WeaveCut<T>(parts: seq<seq<T>>, es: seq<T>, m: nat)
    requires |parts| == |es| + 1 && m < |es|
    ensures Weave(parts, es) == Weave(parts[..m + 1], es[..m]) + [es[m]] + Weave(parts[m + 1..], es[m + 1..])
  {
    if m > 0 {
      WeaveCut(parts[1..], es[1..], m - 1);
      assert parts[..m + 1][1..] == parts[1..][..m] && es[..m][1..] == es[1..][..m - 1];
      assert parts[1..][m..] == parts[m + 1..] && es[1..][m..] == es[m + 1..];
      var head := parts[0] + [es[0]];
      var a, b := Weave(parts[1..][..m], es[1..][..m - 1]), Weave(parts[m + 1..], es[m + 1..]);
      assert head + (a + [es[m]] + b) == head + a + [es[m]] + b;
    }
  }

  /** `Pre` grows by one part and one element at a time. */
  lemma {:induction false} PreLast<T>(parts: seq<seq<T>>, es: seq<T>, c: nat)
    requires |parts| == |es| + 1 && 0 < c <= |es|
    ensures Pre(parts, es, c) == Pre(parts, es, c - 1) + parts[c - 1] + [es[c - 1]]
  {
    if c > 1 {
      PreLast(parts[1..], es[1..], c - 1);
      var head := parts[0] + [es[0]];
      var a := Pre(parts[1..], es[1..], c - 2);
      assert head + (a + parts[c - 1] + [es[c - 1]]) == head + a + parts[c - 1] + [es[c - 1]];
    }
  }

  /** The keys of a full node split around the middle one, `order - 1`. */
  function Left(full: Node, order: int): Node
    requires 1 <= order && |full.keys| == |full.values| == MaxKeys(order)
    requires !full.leaf ==> |full.children| == |full.keys| + 1
  {
    var mid := order - 1;
    Node(full.keys[..mid], full.values[..mid], if full.leaf then [] else full.children[..mid + 1], full.leaf)
  }

  function Right(full: Node, order: int): Node
    requires 1 <= order && |full.keys| == |full.values| == MaxKeys(order)
    requires !full.leaf ==> |full.children| == |full.keys| + 1
  {
    var mid := order - 1;
    Node(full.keys[mid + 1..], full.values[mid + 1..], if full.leaf then [] else full.children[mid + 1..], full.leaf)
  }

  /** The halves of a full node and its middle entry hold its entries, in
      order, and each half holds `order - 1` keys. */
  lemma {:induction false} SplitHalves(full: Node, order: int, d: nat)
    requires 1 <= order && WF(full, order, d) && |full.keys| == MaxKeys(order)
    ensures WF(Left(full, order), order, d) && WF(Right(full, order), order, d)
    ensures |Left(full, order).keys| == order - 1 && |Right(full, order).keys| == order - 1
    ensures Flatten(full)
      == Flatten(Left(full, order)) + [Entry(full.keys[order - 1], full.values[order - 1])] + Flatten(Right(full, order))
  {
    var mid := order - 1;
    var l, r := Left(full, order), Right(full, order);
    assert Own(l) == Own(full)[..mid];
    assert Own(r) == Own(full)[mid + 1..];
    if full.leaf {
      assert Own(full) == Own(full)[..mid] + [Own(full)[mid]] + Own(full)[mid + 1..];
    } else {
      PartsAppend(full.children[..mid + 1], full.children[mid + 1..]);
      assert full.children[..mid + 1] + full.children[mid + 1..] == full.children;
      WeaveCut(Parts(full.children), Own(full), mid);
    }
  }

  /** `_split_child`: the full child at `index` keeps its lower half, its
      middle key and value move up to the parent at `index`, and its upper
      half becomes a new child at `index + 1`. */
  function SplitChild(parent: Node, index: nat, order: int, ghost d: nat): (r: Node)
    requires 1 <= order && WF(parent, order, d) && !parent.leaf && |parent.keys| < MaxKeys(order)
    requires index < |parent.children| && |parent.children[index].keys| == MaxKeys(order)
    ensures WF(r, order, d) && Flatten(r) == Flatten(parent)
    ensures |r.keys| == |parent.keys| + 1 && |r.children| == |parent.children| + 1
    ensures var full := parent.children[index];
      && r.keys == parent.keys[..index] + [full.keys[order - 1]] + parent.keys[index..]
      && r.children[..index] == parent.children[..index] && r.children[index + 2..] == parent.children[index + 1..]
      && r.children[index].keys == full.keys[..order - 1] && r.children[index + 1].keys == full.keys[order..]
      && (!full.leaf ==> |full.children| == 2 * order && r.children[index].children == full.children[..order] && r.children[index + 1].children == full.children[order..])
  {
    var full := parent.children[index];
    assert WF(full, order, d - 1);
    var mid := order - 1;
    var l, rt := Left(full, order), Right(full, order);
    var r := Node(parent.keys[..index] + [full.keys[mid]] + parent.keys[index..], parent.values[..index] + [full.values[mid]] + parent.values[index..],
      parent.children[..index] + [l, rt] + parent.children[index + 1..], false);
    SplitKeeps(parent, index, order, d, r);
    r
  }

  /** The node `SplitChild` builds keeps the shape and the entries. */
  lemma {:induction false} SplitKeeps(parent: Node, index: nat, order: int, d: nat, r: Node)
    requires 1 <= order && WF(parent, order, d) && !parent.leaf && |parent.keys| < MaxKeys(order)
    requires index < |parent.children| && |parent.children[index].keys| == MaxKeys(order)
    requires var full := parent.children[index];
      && WF(full, order, d - 1)
      && r == Node(parent.keys[..index] + [full.keys[order - 1]] + parent.keys[index..],
          parent.values[..index] + [full.values[order - 1]] + parent.values[index..],
          parent.children[..index] + [Left(full, order), Right(full, order)] + parent.children[index + 1..], false)
    ensures WF(r, order, d) && Flatten(r) == Flatten(parent)
  {
    var full := parent.children[index];
    SplitHalves(full, order, d - 1);
    SplitShape(parent, index, order, d, r);
    SplitEntries(parent, index, order, r);
  }

  lemma {:induction false} SplitShape(parent: Node, index: nat, order: int, d: nat, r: Node)
    requires 1 <= order && WF(parent, order, d) && !parent.leaf && |parent.keys| < MaxKeys(order)
    requires index < |parent.children| && |parent.children[index].keys| == MaxKeys(order)
    requires var full := parent.children[index];
      && WF(full, order, d - 1)
      && WF(Left(full, order), order, d - 1) && WF(Right(full, order), order, d - 1)
      && r == Node(parent.keys[..index] + [full.keys[order - 1]] + parent.keys[index..],
          parent.values[..index] + [full.values[order - 1]] + parent.values[index..],
          parent.children[..index] + [Left(full, order), Right(full, order)] + parent.children[index + 1..], false)
    ensures WF(r, order, d)
  {
    var cs := r.children;
    forall i | 0 <= i < |cs|
      ensures WF(cs[i], order, d - 1)
    {
      if i < index {
        assert cs[i] == parent.children[i];
      } else if i > index + 1 {
        assert cs[i] == parent.children[i - 1];
      }
    }
  }

  lemma {:induction false} SplitEntries(parent: Node, index: nat, order: int, r: Node)
    requires 1 <= order && !parent.leaf && |parent.children| == |parent.keys| + 1 && |parent.values| == |parent.keys|
    requires index < |parent.children|
    requires var full := parent.children[index];
      && |full.keys| == |full.values| == MaxKeys(order) && (!full.leaf ==> |full.children| == |full.keys| + 1)
      && Flatten(full) == Flatten(Left(full, order)) + [Entry(full.keys[order - 1], full.values[order - 1])] + Flatten(Right(full, order))
      && r == Node(parent.keys[..index] + [full.keys[order - 1]] + parent.keys[index..],
          parent.values[..index] + [full.values[order - 1]] + parent.values[index..],
          parent.children[..index] + [Left(full, order), Right(full, order)] + parent.children[index + 1..], false)
    ensures Flatten(r) == Flatten(parent)
  {
    var full := parent.children[index];
    var m := Entry(full.keys[order - 1], full.values[order - 1]);
    var l, rt := Left(full, order), Right(full, order);
    SplitFlatten(parent, index, l, rt, m, r);
    ReplaceChild(parent, index, full);
    var parts, es := Parts(parent.children), Own(parent);
    var pre, post := Pre(parts, es, index), Post(parts, es, index);
    var fl, fr := Flatten(l), Flatten(rt);
    assert Flatten(parent) == pre + Flatten(full) + post;
    Regroup(pre, fl, [m], fr, post);
  }

  /** The entries of a parent with two children and an entry in place of
      child `index`. */
  lemma {:induction false} SplitFlatten(parent: Node, index: nat, l: Node, rt: Node, m: Entry, r: Node)
    requires !parent.leaf && |parent.children| == |parent.keys| + 1 && |parent.values| == |parent.keys|
    requires index < |parent.children|
    requires r == Node(parent.keys[..index] + [m.key] + parent.keys[index..],
      parent.values[..index] + [m.value] + parent.values[index..],
      parent.children[..index] + [l, rt] + parent.children[index + 1..], false)
    ensures var parts, es := Parts(parent.children), Own(parent);
      Flatten(r) == Pre(parts, es, index) + Flatten(l) + [m] + Flatten(rt) + Post(parts, es, index)
  {
    var parts, es := Parts(parent.children), Own(parent);
    SplicedParts(parent, index, l, rt, r);
    assert Own(r) == es[..index] + [m] + es[index..];
    WeaveSplitAt(parts, es, index, Flatten(l), m, Flatten(rt));
  }

  lemma {:induction false} Regroup<T>(a: seq<T>, b: seq<T>, c: seq<T>, d: seq<T>, e: seq<T>)
    ensures a + (b + c + d) + e == a + b + c + d + e
  {
  }

  lemma {:induction false} SplicedParts(parent: Node, index: nat, l: Node, rt: Node, r: Node)
    requires index < |parent.children| && r.children == parent.children[..index] + [l, rt] + parent.children[index + 1..]
    ensures Parts(r.children) == Parts(parent.children)[..index] + [Flatten(l), Flatten(rt)] + Parts(parent.children)[index + 1..]
  {
    PartsSplice(parent.children, index, 1, [l, rt]);
    assert Parts([l, rt]) == [Flatten(l), Flatten(rt)] by {
      assert [l, rt][1..] == [rt];
      assert Parts([rt]) == [Flatten(rt)];
    }
  }

  /** The shifting loop of `_insert_non_full` on a leaf: the new key goes
      after the last key, counting from the end, that is not larger. */
  method InsertInLeaf(keys: seq<int>, values: seq<int>, key: int, value: int) returns (ks: seq<int>, vs: seq<int>, ghost p: nat)
    requires |keys| == |values|
    ensures p <= |keys|
    ensures ks == keys[..p] + [key] + keys[p..] && vs == values[..p] + [value] + values[p..]
    ensures (p > 0 ==> keys[p - 1] <= key) && forall j :: p <= j < |keys| ==> key < keys[j]
  {
    ks, vs := keys + [key], values + [value];
    var i := |keys| - 1;
    while i >= 0 && key < ks[i]
      invariant -1 <= i < |keys| && |ks| == |keys| + 1 && |vs| == |keys| + 1
      invariant forall j :: 0 <= j <= i ==> ks[j] == keys[j] && vs[j] == values[j]
      invariant forall j :: i + 1 < j < |ks| ==> ks[j] == keys[j - 1] && vs[j] == values[j - 1]
      invariant forall j :: i < j < |keys| ==> key < keys[j]
    {
      ks, vs := ks[i + 1 := ks[i]], vs[i + 1 := vs[i]];
      i := i - 1;
    }
    ks, vs := ks[i + 1 := key], vs[i + 1 := value];
    p := i + 1;
    assert ks == keys[..p] + [key] + keys[p..];
    assert vs == values[..p] + [value] + values[p..];
  }

  /** The new entry sits in its neighbours' order. */
  ghost predicate Fits(s: seq<Entry>, p: nat, key: int)
    requires p <= |s|
  {
    (p > 0 ==> s[p - 1].key <= key) && (p < |s| ==> key <= s[p].key)
  }

  lemma {:induction false} LeafInsert(keys: seq<int>, values: seq<int>, key: int, value: int, p: nat)
    requires |keys| == |values| && p <= |keys|
    ensures Pairs(keys[..p] + [key] + keys[p..], values[..p] + [value] + values[p..])
      == Pairs(keys, values)[..p] + [Entry(key, value)] + Pairs(keys, values)[p..]
  {
  }

  /** Inserting into child `c` of an inner node inserts into the node, at
      the same place relative to the child's entries. */
  lemma {:induction false} DescendInsert(node: Node, c: nat, child: Node, key: int, value: int, q: nat, p: nat)
    requires !node.leaf && |node.children| == |node.keys| + 1 && |node.values| == |node.keys| && c <= |node.keys|
    requires q <= |Flatten(node.children[c])| && p == |Pre(Parts(node.children), Own(node), c)| + q
    requires Flatten(child) == Flatten(node.children[c])[..q] + [Entry(key, value)] + Flatten(node.children[c])[q..]
    ensures p <= |Flatten(node)|
    ensures Flatten(node.(children := node.children[c := child])) == Flatten(node)[..p] + [Entry(key, value)] + Flatten(node)[p..]
  {
    var parts, es := Parts(node.children), Own(node);
    var pre, post, mid := Pre(parts, es, c), Post(parts, es, c), Flatten(node.children[c]);
    ReplaceChild(node, c, child);
    var x := Entry(key, value);
    var s := Flatten(node);
    var newMid := Flatten(child);
    assert s == pre + mid + post;
    assert Flatten(node.(children := node.children[c := child])) == pre + newMid + post;
    assert newMid == mid[..q] + [x] + mid[q..];
    InsertBetween(pre, mid, post, q, x, s, p);
  }

  /** The place `DescendInsert` finds sits between the keys around child
      `c` and between the child's entries around the child's own place. */
  lemma {:induction false} DescendFits(node: Node, c: nat, key: int, q: nat, p: nat)
    requires !node.leaf && |node.children| == |node.keys| + 1 && |node.values| == |node.keys| && c <= |node.keys|
    requires q <= |Flatten(node.children[c])| && p == |Pre(Parts(node.children), Own(node), c)| + q
    requires Fits(Flatten(node.children[c]), q, key)
    requires c > 0 ==> node.keys[c - 1] <= key
    requires c < |node.keys| ==> key <= node.keys[c]
    ensures p <= |Flatten(node)| && Fits(Flatten(node), p, key)
  {
    var parts, es := Parts(node.children), Own(node);
    var pre, post, mid := Pre(parts, es, c), Post(parts, es, c), Flatten(node.children[c]);
    ReplaceChild(node, c, node.children[c]);
    assert Flatten(node) == pre + mid + post;
    InsertBetween(pre, mid, post, q, Entry(key, 0), Flatten(node), p);
    NeighbourKeys(node, c);
  }

  /** An inner node's entries around child `c`, before and after the child
      is replaced. */
  lemma {:induction false} ReplaceChild(node: Node, c: nat, child: Node)
    requires !node.leaf && |node.children| == |node.keys| + 1 && |node.values| == |node.keys| && c <= |node.keys|
    ensures var parts, es := Parts(node.children), Own(node);
      && Flatten(node.(children := node.children[c := child])) == Pre(parts, es, c) + Flatten(child) + Post(parts, es, c)
      && Flatten(node) == Pre(parts, es, c) + Flatten(node.children[c]) + Post(parts, es, c)
  {
    var parts, es := Parts(node.children), Own(node);
    var cs := node.children;
    PartsSplice(cs, c, 1, [child]);
    assert cs[c := child] == cs[..c] + [child] + cs[c + 1..];
    assert Parts([child]) == [Flatten(child)];
    assert parts[..c] + [Flatten(child)] + parts[c + 1..] == parts[c := Flatten(child)];
    PartsAt(cs, c);
    WeaveAround(parts, es, c, Flatten(child));
    WeaveAround(parts, es, c, parts[c]);
    assert parts[c := parts[c]] == parts;
  }

  /** The keys next to child `c` end `Pre` and start `Post`. */
  lemma {:induction false} NeighbourKeys(node: Node, c: nat)
    requires |node.children| == |node.keys| + 1 && |node.values| == |node.keys| && c <= |node.keys|
    ensures var pre := Pre(Parts(node.children), Own(node), c);
      c > 0 ==> pre != [] && pre[|pre| - 1] == Entry(node.keys[c - 1], node.values[c - 1])
    ensures var post := Post(Parts(node.children), Own(node), c);
      c < |node.keys| ==> post != [] && post[0] == Entry(node.keys[c], node.values[c])
  {
    if c > 0 {
      PreLast(Parts(node.children), Own(node), c);
    }
  }

  /** Inserting into the middle part of `a + b + c`. */
  lemma {:induction false} InsertBetween<T>(a: seq<T>, b: seq<T>, c: seq<T>, q: nat, x: T, s: seq<T>, p: nat)
    requires q <= |b| && s == a + b + c && p == |a| + q
    ensures p <= |s| && a + (b[..q] + [x] + b[q..]) + c == s[..p] + [x] + s[p..]
    ensures p > 0 ==> s[p - 1] == if q > 0 then b[q - 1] else a[|a| - 1]
    ensures p < |s| ==> s[p] == if q < |b| then b[q] else c[0]
  {
    assert s[..p] == a + b[..q];
    assert s[p..] == b[q..] + c;
  }

  /** A node `_insert_non_full` can take: one with room for a key, or an
      inner node none of whose children is full, as the root is right after
      it is split at order 1. */
  ghost predicate Roomy(n: Node, order: int) {
    || |n.keys| < MaxKeys(order)
    || (!n.leaf && forall i :: 0 <= i < |n.children| ==> |n.children[i].keys| < MaxKeys(order))
  }

  /** `_insert_non_full`: the entry goes into this node if it is a leaf;
      otherwise into the child that covers the key, split first if it is
      full. The entry lands where its neighbours are in order. */
  method InsertNonFull(n: Node, key: int, value: int, order: int, ghost d: nat) returns (r: Node, ghost p: nat)
    requires 1 <= order && WF(n, order, d) && Roomy(n, order)
    ensures WF(r, order, d) && p <= |Flatten(n)|
    ensures Flatten(r) == Flatten(n)[..p] + [Entry(key, value)] + Flatten(n)[p..]
    ensures Fits(Flatten(n), p, key)
    decreases d
  {
    if n.leaf {
      var ks, vs, q := InsertInLeaf(n.keys, n.values, key, value);
      r := Node(ks, vs, [], true);
      LeafInsert(n.keys, n.values, key, value, q);
      assert Flatten(n) == Pairs(n.keys, n.values);
      assert Flatten(r) == Pairs(ks, vs);
      p := q;
      return;
    }
    var node, c := ChildFor(n, key, order, d);
    var child, q := InsertNonFull(node.children[c], key, value, order, d - 1);
    r := node.(children := node.children[c := child]);
    p := |Pre(Parts(node.children), Own(node), c)| + q;
    DescendStep(n, node, c, child, key, value, q, order, d, r, p);
  }

  /** The inner-node half of `_insert_non_full` before it descends: the
      child whose range covers the key, counting from the last key, split
      first if it is full and then the half that covers the key. */
  method ChildFor(n: Node, key: int, order: int, ghost d: nat) returns (node: Node, c: nat)
    requires 1 <= order && WF(n, order, d) && !n.leaf && Roomy(n, order)
    ensures WF(node, order, d) && !node.leaf && Flatten(node) == Flatten(n)
    ensures c <= |node.keys| && |node.children[c].keys| < MaxKeys(order)
    ensures c > 0 ==> node.keys[c - 1] <= key
    ensures c < |node.keys| ==> key <= node.keys[c]
  {
    c := ChildIndex(n.keys, key);
    node := n;
    if |n.children[c].keys| >= MaxKeys(order) {
      assert WF(n.children[c], order, d - 1);
      node := SplitChild(n, c, order, d);
      KeysAfterSplit(n.keys, c, n.children[c].keys[order - 1], key);
      if key > node.keys[c] {
        c := c + 1;
      }
    }
  }

  /** The scan of `_insert_non_full` over an inner node's keys: the child
      after the last key, counting from the end, that is not larger. */
  method ChildIndex(keys: seq<int>, key: int) returns (c: nat)
    ensures c <= |keys|
    ensures c > 0 ==> keys[c - 1] <= key
    ensures forall j :: c <= j < |keys| ==> key < keys[j]
  {
    var i := |keys| - 1;
    while i >= 0 && key < keys[i]
      invariant -1 <= i < |keys|
      invariant forall j :: i < j < |keys| ==> key < keys[j]
    {
      i := i - 1;
    }
    c := i + 1;
  }

  /** The middle key a split moves up to `c` falls on one side of the key. */
  lemma {:induction false} KeysAfterSplit(ks: seq<int>, c: nat, m: int, key: int)
    requires c <= |ks| && (c > 0 ==> ks[c - 1] <= key) && (c < |ks| ==> key < ks[c])
    ensures var ks' := ks[..c] + [m] + ks[c..];
      && ks'[c] == m
      && (key > m ==> ks'[c] <= key && (c + 1 < |ks'| ==> key <= ks'[c + 1]))
      && (key <= m ==> (c > 0 ==> ks'[c - 1] <= key))
  {
  }

  /** Putting the child back after inserting into it keeps the node's shape
      and inserts the entry into the node's entries, in order. */
  lemma {:induction false} DescendStep(n: Node, node: Node, c: nat, child: Node, key: int, value: int, q: nat, order: int, d: nat, r: Node, p: nat)
    requires 1 <= order && WF(node, order, d) && !node.leaf && Flatten(node) == Flatten(n) && c <= |node.keys|
    requires r == node.(children := node.children[c := child]) && p == |Pre(Parts(node.children), Own(node), c)| + q
    requires WF(child, order, d - 1) && q <= |Flatten(node.children[c])|
    requires Flatten(child) == Flatten(node.children[c])[..q] + [Entry(key, value)] + Flatten(node.children[c])[q..]
    requires Fits(Flatten(node.children[c]), q, key)
    requires c > 0 ==> node.keys[c - 1] <= key
    requires c < |node.keys| ==> key <= node.keys[c]
    ensures WF(r, order, d) && p <= |Flatten(n)|
    ensures Flatten(r) == Flatten(n)[..p] + [Entry(key, value)] + Flatten(n)[p..]
    ensures Fits(Flatten(n), p, key)
  {
    forall j | 0 <= j < |r.children|
      ensures WF(r.children[j], order, d - 1)
    {
      if j != c {
        assert r.children[j] == node.children[j];
      }
    }
    DescendInsert(node, c, child, key, value, q, p);
    DescendFits(node, c, key, q, p);
  }

  /** Part `c` sits between `Pre` and `Post`. */
  lemma {:induction false} WeaveAt<T>(parts: seq<seq<T>>, es: seq<T>, c: nat)
    requires |parts| == |es| + 1 && c <= |es|
    ensures Weave(parts, es) == Pre(parts, es, c) + parts[c] + Post(parts, es, c)
  {
    WeaveAround(parts, es, c, parts[c]);
    assert parts[c := parts[c]] == parts;
  }

  /** `Pre` only looks at the parts and elements before `c`. */
  lemma {:induction false} PreFrame<T>(parts: seq<seq<T>>, es: seq<T>, parts': seq<seq<T>>, es': seq<T>, c: nat)
    requires |parts| == |es| + 1 && |parts'| == |es'| + 1 && c <= |es| && c <= |es'|
    requires parts[..c] == parts'[..c] && es[..c] == es'[..c]
    ensures Pre(parts, es, c) == Pre(parts', es', c)
  {
    if c > 0 {
      assert parts[0] == parts[..c][0] && parts'[0] == parts'[..c][0];
      assert es[0] == es[..c][0] && es'[0] == es'[..c][0];
      assert parts[1..][..c - 1] == parts[..c][1..] && parts'[1..][..c - 1] == parts'[..c][1..];
      assert es[1..][..c - 1] == es[..c][1..] && es'[1..][..c - 1] == es'[..c][1..];
      PreFrame(parts[1..], es[1..], parts'[1..], es'[1..], c - 1);
    }
  }

  /** `Post` only looks at the element at `c` and what follows it. */
  lemma {:induction false} PostFrame<T>(parts: seq<seq<T>>, es: seq<T>, c: nat, parts': seq<seq<T>>, es': seq<T>, c': nat)
    requires |parts| == |es| + 1 && |parts'| == |es'| + 1 && c <= |es| && c' <= |es'|
    requires parts[c + 1..] == parts'[c' + 1..] && es[c..] == es'[c'..]
    ensures Post(parts, es, c) == Post(parts', es', c')
  {
    assert |es| - c == |es[c..]| == |es'[c'..]| == |es'| - c';
    if c < |es| {
      assert es[c] == es[c..][0] && es'[c'] == es'[c'..][0];
      assert es[c + 1..] == es[c..][1..] && es'[c' + 1..] == es'[c'..][1..];
    }
  }

  /** `Post` at `c` is the element at `c`, the next part and `Post` at `c + 1`. */
  lemma {:induction false} PostNext<T>(parts: seq<seq<T>>, es: seq<T>, c: nat)
    requires |parts| == |es| + 1 && c < |es|
    ensures Post(parts, es, c) == [es[c]] + parts[c + 1] + Post(parts, es, c + 1)
  {
    var w := Weave(parts[c + 1..], es[c + 1..]);
    if c + 1 == |es| {
      assert w == parts[c + 1];
    } else {
      assert parts[c + 1..] == [parts[c + 1]] + parts[c + 2..];
      assert es[c + 1..] == [es[c + 1]] + es[c + 2..];
      WeaveCons(parts[c + 1], parts[c + 2..], es[c + 1], es[c + 2..]);
      Regroup3(parts[c + 1], [es[c + 1]], Weave(parts[c + 2..], es[c + 2..]));
    }
    Regroup3([es[c]], parts[c + 1], Post(parts, es, c + 1));
  }

  /** An inner node's entries around key `c`. */
  lemma {:induction false} NodeAtKey(node: Node, c: nat, parts: seq<seq<Entry>>, es: seq<Entry>)
    requires !node.leaf && |node.children| == |node.keys| + 1 && |node.values| == |node.keys| && c < |node.keys|
    requires parts == Parts(node.children) && es == Own(node)
    ensures parts[c] == Flatten(node.children[c]) && parts[c + 1] == Flatten(node.children[c + 1])
    ensures es[c] == Entry(node.keys[c], node.values[c])
    ensures Flatten(node) == Pre(parts, es, c) + parts[c] + [es[c]] + parts[c + 1] + Post(parts, es, c + 1)
  {
    PartsAt(node.children, c);
    PartsAt(node.children, c + 1);
    WeaveAt(parts, es, c);
    PostNext(parts, es, c);
    var pre := Pre(parts, es, c);
    RegroupHead(pre, parts[c], [es[c]], parts[c + 1], Post(parts, es, c + 1), []);
    assert pre + parts[c] + ([es[c]] + parts[c + 1] + Post(parts, es, c + 1))
      == pre + parts[c] + [es[c]] + parts[c + 1] + Post(parts, es, c + 1);
  }

  /** The node with key `c` taken out and the children on both sides of
      it replaced by `x`. */
  function Merged(node: Node, c: nat, x: Node): Node
    requires |node.children| == |node.keys| + 1 && |node.values| == |node.keys| && c < |node.keys|
  {
    Node(node.keys[..c] + node.keys[c + 1..], node.values[..c] + node.values[c + 1..],
      node.children[..c] + [x] + node.children[c + 2..], false)
  }

  /** The entries of a merged node: those before key `c`, then `x`'s, then
      those after child `c + 1`. */
  lemma {:induction false} MergeAt(node: Node, c: nat, x: Node, r: Node)
    requires !node.leaf && |node.children| == |node.keys| + 1 && |node.values| == |node.keys| && c < |node.keys|
    requires r == Merged(node, c, x)
    ensures Flatten(r) == Pre(Parts(node.children), Own(node), c) + Flatten(x) + Post(Parts(node.children), Own(node), c + 1)
  {
    var parts, es := Parts(node.children), Own(node);
    PartsSplice(node.children, c, 2, [x]);
    assert Parts([x]) == [Flatten(x)];
    var parts', es' := Parts(r.children), Own(r);
    assert parts' == parts[..c] + [Flatten(x)] + parts[c + 2..];
    assert es' == es[..c] + es[c + 1..];
    WeaveAt(parts', es', c);
    assert parts'[..c] == parts[..c] && es'[..c] == es[..c];
    PreFrame(parts', es', parts, es, c);
    assert parts'[c + 1..] == parts[c + 2..] && es'[c..] == es[c + 1..];
    PostFrame(parts', es', c, parts, es, c + 1);
  }

  /** The node with entry `e` in place of key `c` and `x` in place of
      child `c`. */
  function Swapped(node: Node, c: nat, x: Node, e: Entry): Node
    requires |node.children| == |node.keys| + 1 && |node.values| == |node.keys| && c < |node.keys|
  {
    Node(node.keys[c := e.key], node.values[c := e.value], node.children[c := x], false)
  }

  /** The entries of a swapped node: `x`'s and `e` in place of child `c`
      and key `c`. */
  lemma {:induction false} SwapAt(node: Node, c: nat, x: Node, e: Entry, r: Node)
    requires !node.leaf && |node.children| == |node.keys| + 1 && |node.values| == |node.keys| && c < |node.keys|
    requires r == Swapped(node, c, x, e)
    ensures Flatten(r) == Pre(Parts(node.children), Own(node), c) + Flatten(x) + [e]
      + Parts(node.children)[c + 1] + Post(Parts(node.children), Own(node), c + 1)
  {
    SwapParts(node, c, x, e, r);
    WeaveSwap(Parts(node.children), Own(node), c, Flatten(x), e, Parts(r.children), Own(r));
  }

  lemma {:induction false} SwapParts(node: Node, c: nat, x: Node, e: Entry, r: Node)
    requires !node.leaf && |node.children| == |node.keys| + 1 && |node.values| == |node.keys| && c < |node.keys|
    requires r == Swapped(node, c, x, e)
    ensures Parts(r.children) == Parts(node.children)[c := Flatten(x)]
    ensures Own(r) == Own(node)[c := e]
  {
    var cs := node.children;
    PartsSplice(cs, c, 1, [x]);
    assert cs[c := x] == cs[..c] + [x] + cs[c + 1..];
    assert Parts([x]) == [Flatten(x)];
    var parts := Parts(cs);
    assert parts[..c] + [Flatten(x)] + parts[c + 1..] == parts[c := Flatten(x)];
  }

  /** Part `c` and element `c` replaced. */
  lemma {:induction false} WeaveSwap<T>(parts: seq<seq<T>>, es: seq<T>, c: nat, p: seq<T>, e: T, parts': seq<seq<T>>, es': seq<T>)
    requires |parts| == |es| + 1 && c < |es|
    requires parts' == parts[c := p] && es' == es[c := e]
    ensures Weave(parts', es') == Pre(parts, es, c) + p + [e] + parts[c + 1] + Post(parts, es, c + 1)
  {
    var pre, post := Pre(parts, es, c), Post(parts, es, c + 1);
    WeaveAt(parts', es', c);
    assert parts'[..c] == parts[..c] && es'[..c] == es[..c];
    PreFrame(parts', es', parts, es, c);
    assert Pre(parts', es', c) == pre;
    PostNext(parts', es', c);
    assert parts'[c + 2..] == parts[c + 2..] && es'[c + 1..] == es[c + 1..];
    PostFrame(parts', es', c + 1, parts, es, c + 1);
    var tail := [e] + parts[c + 1] + post;
    assert Post(parts', es', c) == tail;
    assert Weave(parts', es') == pre + p + tail;
    Regroup3(pre + p, [e] + parts[c + 1], post);
    Regroup3(pre + p, [e], parts[c + 1]);
  }

  /** The shape of an inner node, checked one child at a time. */
  lemma {:induction false} InnerWF(r: Node, order: int, d: nat)
    requires d > 0 && !r.leaf && |r.values| == |r.keys| <= MaxKeys(order) && |r.children| == |r.keys| + 1
    requires forall j :: 0 <= j < |r.children| ==> WF(r.children[j], order, d - 1)
    ensures WF(r, order, d)
  {
  }

  // Keys in order

  /** Entries in non-decreasing key order; equal keys may repeat. */
  ghost predicate Sorted(s: seq<Entry>) {
    forall i, j :: 0 <= i < j < |s| ==> s[i].key <= s[j].key
  }

  /** Some entry has the key. */
  ghost predicate KeyIn(s: seq<Entry>, key: int) {
    exists i :: 0 <= i < |s| && s[i].key == key
  }

  lemma {:induction false} IndexMiddle<T>(a: seq<T>, b: seq<T>, c: seq<T>, k: nat)
    requires k < |b|
    ensures (a + b + c)[|a| + k] == b[k]
  {
  }

  lemma {:induction false} IndexAfter<T>(a: seq<T>, b: seq<T>, x: T, c: seq<T>, d: seq<T>)
    ensures |a| + |b| < |a + b + [x] + c + d| && (a + b + [x] + c + d)[|a| + |b|] == x
  {
  }

  /** An entry placed between neighbours in order keeps the entries in
      order. */
  lemma {:induction false} InsertFits(s: seq<Entry>, p: nat, e: Entry)
    requires Sorted(s) && p <= |s| && Fits(s, p, e.key)
    ensures Sorted(s[..p] + [e] + s[p..])
  {
    var t := s[..p] + [e] + s[p..];
    forall i, j | 0 <= i < j < |t|
      ensures t[i].key <= t[j].key
    {
      if j < p || i > p {
      } else if i == p {
        assert t[j] == s[j - 1];
      } else if j == p {
        assert t[i] == s[i];
      } else {
        assert t[i] == s[i] && t[j] == s[j - 1];
      }
    }
  }

  /** Taking out one entry keeps the rest in order. */
  lemma {:induction false} RemoveSorted(s: seq<Entry>, p: nat)
    requires Sorted(s) && p < |s|
    ensures Sorted(s[..p] + s[p + 1..])
  {
    var t := s[..p] + s[p + 1..];
    forall i, j | 0 <= i < j < |t|
      ensures t[i].key <= t[j].key
    {
      var i', j' := if i < p then i else i + 1, if j < p then j else j + 1;
      assert t[i] == s[i'] && t[j] == s[j'];
    }
  }

  /** The middle of a sorted sequence is sorted and lies between its
      neighbours. */
  lemma {:induction false} SortedParts(a: seq<Entry>, b: seq<Entry>, c: seq<Entry>)
    requires Sorted(a + b + c)
    ensures Sorted(b)
    ensures a != [] ==> forall i :: 0 <= i < |b| ==> a[|a| - 1].key <= b[i].key
    ensures c != [] ==> forall i :: 0 <= i < |b| ==> b[i].key <= c[0].key
    ensures a != [] ==> forall i :: 0 <= i < |a| ==> a[i].key <= a[|a| - 1].key
    ensures forall i :: 0 <= i < |c| ==> c[0].key <= c[i].key
  {
    var s := a + b + c;
    assert forall i :: 0 <= i < |a| ==> s[i] == a[i];
    assert forall i :: 0 <= i < |b| ==> s[|a| + i] == b[i];
    assert forall i :: 0 <= i < |c| ==> s[|a| + |b| + i] == c[i];
  }

  /** In a sorted sequence, a key strictly between the end of `a` and the
      start of `c` can only be in `b`. */
  lemma {:induction false} KeyInMiddle(a: seq<Entry>, b: seq<Entry>, c: seq<Entry>, key: int)
    requires Sorted(a + b + c)
    requires a != [] ==> a[|a| - 1].key < key
    requires c != [] ==> key < c[0].key
    ensures KeyIn(a + b + c, key) <==> KeyIn(b, key)
  {
    SortedParts(a, b, c);
    KeyOutside(a, b, c, key);
  }

  /** A key that no entry of `a` or `c` has is in `a + b + c` exactly when
      it is in `b`. */
  lemma {:induction false} KeyOutside(a: seq<Entry>, b: seq<Entry>, c: seq<Entry>, key: int)
    requires forall i :: 0 <= i < |a| ==> a[i].key < key
    requires forall i :: 0 <= i < |c| ==> key < c[i].key
    ensures KeyIn(a + b + c, key) <==> KeyIn(b, key)
  {
    var s := a + b + c;
    assert forall i :: 0 <= i < |s| ==>
      && (i < |a| ==> s[i] == a[i])
      && (|a| <= i < |a| + |b| ==> s[i] == b[i - |a|])
      && (|a| + |b| <= i ==> s[i] == c[i - |a| - |b|]);
    if KeyIn(s, key) {
      var i :| 0 <= i < |s| && s[i].key == key;
      assert |a| <= i < |a| + |b|;
      assert b[i - |a|].key == key;
    }
    if KeyIn(b, key) {
      var i :| 0 <= i < |b| && b[i].key == key;
      assert s[|a| + i] == b[i];
    }
  }

  /** The entries of child `c` are sorted and lie between the keys around
      it. */
  lemma {:induction false} ChildBounds(node: Node, c: nat)
    requires !node.leaf && |node.children| == |node.keys| + 1 && |node.values| == |node.keys| && c <= |node.keys|
    requires Sorted(Flatten(node))
    ensures var f := Flatten(node.children[c]);
      && Sorted(f)
      && (c > 0 ==> forall i :: 0 <= i < |f| ==> node.keys[c - 1] <= f[i].key)
      && (c < |node.keys| ==> forall i :: 0 <= i < |f| ==> f[i].key <= node.keys[c])
  {
    var parts, es := Parts(node.children), Own(node);
    ReplaceChild(node, c, node.children[c]);
    NeighbourKeys(node, c);
    SortedParts(Pre(parts, es, c), Flatten(node.children[c]), Post(parts, es, c));
  }

  lemma {:induction false} ChildSorted(node: Node, c: nat)
    requires !node.leaf && |node.children| == |node.keys| + 1 && |node.values| == |node.keys| && c <= |node.keys|
    requires Sorted(Flatten(node))
    ensures Sorted(Flatten(node.children[c]))
  {
    ChildBounds(node, c);
  }

  // Search

  /** The first key that is not smaller than `key`; a search stops there. */
  function FirstAtLeast(keys: seq<int>, key: int): (i: nat)
    ensures i <= |keys|
    ensures forall j :: 0 <= j < i ==> keys[j] < key
    ensures i < |keys| ==> key <= keys[i]
  {
    if keys == [] || key <= keys[0] then 0 else 1 + FirstAtLeast(keys[1..], key)
  }

  /** The scan of `_search_node`: skip the keys smaller than `key`. */
  method FindIndex(keys: seq<int>, key: int) returns (i: nat)
    ensures i == FirstAtLeast(keys, key)
  {
    i := 0;
    while i < |keys| && key > keys[i]
      invariant i <= |keys| && FirstAtLeast(keys[i..], key) + i == FirstAtLeast(keys, key)
    {
      assert keys[i..][1..] == keys[i + 1..];
      i := i + 1;
    }
  }

  /** `_search_node`: the value at the first key not smaller than `key`
      if that key equals it, otherwise the search goes on in the child
      before that key. */
  function Lookup(n: Node, key: int): Option<int>
    requires Aligned(n)
    decreases n
  {
    var i := FirstAtLeast(n.keys, key);
    if i < |n.keys| && n.keys[i] == key then Some(n.values[i])
    else if n.leaf then None
    else Lookup(n.children[i], key)
  }

  /** In a tree of the index's shape with its entries in order, the search
      finds a key exactly when some entry has it, and then returns a value
      stored with that key. */
  lemma {:induction false} LookupMeaning(n: Node, order: int, d: nat, key: int)
    requires WF(n, order, d) && Aligned(n) && Sorted(Flatten(n))
    ensures Lookup(n, key).Some? <==> KeyIn(Flatten(n), key)
    ensures Lookup(n, key).Some? ==> Entry(key, Lookup(n, key).value) in Flatten(n)
    decreases d
  {
    var i := FirstAtLeast(n.keys, key);
    if n.leaf {
      LookupLeaf(n, key);
    } else if i < |n.keys| && n.keys[i] == key {
      LookupHere(n, i);
    } else {
      ChildSorted(n, i);
      WFAligned(n, order, d);
      LookupMeaning(n.children[i], order, d - 1, key);
      LookupDescend(n, i, key, Lookup(n.children[i], key));
    }
  }

  /** A key of an inner node is one of its entries. */
  lemma {:induction false} LookupHere(n: Node, i: nat)
    requires !n.leaf && |n.children| == |n.keys| + 1 && |n.values| == |n.keys| && i < |n.keys|
    ensures KeyIn(Flatten(n), n.keys[i]) && Entry(n.keys[i], n.values[i]) in Flatten(n)
  {
    var parts, es := Parts(n.children), Own(n);
    NodeAtKey(n, i, parts, es);
    var pre := Pre(parts, es, i);
    IndexAfter(pre, parts[i], es[i], parts[i + 1], Post(parts, es, i + 1));
  }

  /** The answer for the child the search descends into is the answer for
      the node: the key cannot be among the entries around that child. */
  lemma {:induction false} LookupDescend(n: Node, i: nat, key: int, v: Option<int>)
    requires !n.leaf && |n.children| == |n.keys| + 1 && |n.values| == |n.keys| && Sorted(Flatten(n))
    requires i == FirstAtLeast(n.keys, key) && !(i < |n.keys| && n.keys[i] == key)
    requires v.Some? <==> KeyIn(Flatten(n.children[i]), key)
    requires v.Some? ==> Entry(key, v.value) in Flatten(n.children[i])
    ensures v.Some? <==> KeyIn(Flatten(n), key)
    ensures v.Some? ==> Entry(key, v.value) in Flatten(n)
  {
    var parts, es := Parts(n.children), Own(n);
    var child := n.children[i];
    ReplaceChild(n, i, child);
    NeighbourKeys(n, i);
    var pre, post := Pre(parts, es, i), Post(parts, es, i);
    assert Flatten(n) == pre + Flatten(child) + post;
    KeyInMiddle(pre, Flatten(child), post, key);
    if v.Some? {
      var k :| 0 <= k < |Flatten(child)| && Flatten(child)[k] == Entry(key, v.value);
      IndexMiddle(pre, Flatten(child), post, k);
    }
  }

  lemma {:induction false} LookupLeaf(n: Node, key: int)
    requires n.leaf && |n.values| == |n.keys| && n.children == [] && Sorted(Flatten(n))
    ensures Lookup(n, key).Some? <==> KeyIn(Flatten(n), key)
    ensures Lookup(n, key).Some? ==> Entry(key, Lookup(n, key).value) in Flatten(n)
  {
    var i := FirstAtLeast(n.keys, key);
    var f := Flatten(n);
    assert f == Pairs(n.keys, n.values);
    assert forall j :: 0 <= j < |f| ==> f[j] == Entry(n.keys[j], n.values[j]);
    if i < |n.keys| {
      assert forall j :: i <= j < |f| ==> f[i].key <= f[j].key;
    }
  }

  /** `_search_node` with its scan. */
  method SearchNode(n: Node, key: int) returns (r: Option<int>)
    requires Aligned(n)
    ensures r == Lookup(n, key)
    decreases n
  {
    var i := FindIndex(n.keys, key);
    if i < |n.keys| && key == n.keys[i] {
      return Some(n.values[i]);
    }
    if n.leaf {
      return None;
    }
    r := SearchNode(n.children[i], key);
  }

  // Range search

  /** The entries with `start <= key <= end`, in their order. */
  function InRange(s: seq<Entry>, start: int, end: int): seq<Entry> {
    if s == [] then []
    else
      var rest := InRange(s[1..], start, end);
      if start <= s[0].key <= end then [s[0]] + rest else rest
  }

  /** The entries in range are exactly those of `s` with a key in
      `start..end`, and they keep their order. */
  lemma {:induction false} InRangeMeaning(s: seq<Entry>, start: int, end: int)
    ensures forall e :: e in InRange(s, start, end) <==> e in s && start <= e.key <= end
    ensures Sorted(s) ==> Sorted(InRange(s, start, end))
  {
    if s != [] {
      InRangeMeaning(s[1..], start, end);
      assert forall e :: e in s <==> e == s[0] || e in s[1..];
      if Sorted(s) {
        assert Sorted(s[1..]);
        var r := InRange(s, start, end);
        if start <= s[0].key <= end {
          forall i | 0 < i < |r| ensures s[0].key <= r[i].key {
            assert r[i] in InRange(s[1..], start, end);
          }
        }
      }
    }
  }

  lemma {:induction false} InRangeAppend(a: seq<Entry>, b: seq<Entry>, start: int, end: int)
    ensures InRange(a + b, start, end) == InRange(a, start, end) + InRange(b, start, end)
  {
    if a == [] {
      assert a + b == b;
    } else {
      assert (a + b)[1..] == a[1..] + b && (a + b)[0] == a[0];
      InRangeAppend(a[1..], b, start, end);
    }
  }

  lemma {:induction false} InRangeNone(s: seq<Entry>, start: int, end: int)
    requires forall i :: 0 <= i < |s| ==> s[i].key < start || end < s[i].key
    ensures InRange(s, start, end) == []
  {
    if s != [] {
      InRangeNone(s[1..], start, end);
    }
  }

  /** What one more part and one more entry add to the results. */
  lemma {:induction false} RangeStep(results: seq<Entry>, done: seq<Entry>, part: seq<Entry>, e: Entry, start: int, end: int)
    ensures results + InRange(done, start, end) + InRange(part, start, end) + InRange([e], start, end)
      == results + InRange(done + part + [e], start, end)
  {
    InRangeAppend(done, part, start, end);
    InRangeAppend(done + part, [e], start, end);
  }

  /** The error `range_search` raises. */
  datatype IndexError = IndexError

  /** Every inner node has a key; at order 1 splits make inner nodes
      without keys. */
  ghost predicate NoEmptyInner(n: Node)
    decreases n
  {
    !n.leaf ==> |n.keys| > 0 && forall i :: 0 <= i < |n.children| ==> NoEmptyInner(n.children[i])
  }

  /** `_range_search_node`: each child is visited only when its keys can
      reach `start`, the last one only when they can reach `end`, and the
      node's own keys in range are added in between; the results are the
      entries in range, in key order. An inner node without keys raises
      `IndexError` at its last child. */
  method RangeNode(n: Node, start: int, end: int, results: seq<Entry>, ghost order: int, ghost d: nat)
    returns (r: Result<seq<Entry>, IndexError>)
    requires WF(n, order, d) && Sorted(Flatten(n))
    ensures r.Ok? ==> r.value == results + InRange(Flatten(n), start, end)
    ensures NoEmptyInner(n) ==> r.Ok?
    decreases d, 2
  {
    var acc := results;
    var i := 0;
    while i < |n.keys|
      invariant i <= |n.keys|
      invariant acc == results + InRange(Done(n, i), start, end)
    {
      ghost var before := acc;
      if !n.leaf && start <= n.keys[i] {
        var sub := RangeChild(n, i, start, end, acc, order, d);
        if sub.Err? {
          return sub;
        }
        acc := sub.value;
      }
      RangeLoopStep(n, i, start, end, results, before, acc);
      if start <= n.keys[i] <= end {
        acc := acc + [Entry(n.keys[i], n.values[i])];
      }
      i := i + 1;
    }
    r := RangeRest(n, start, end, results, acc, order, d);
  }

  /** What `_range_search_node` does after its loop: a leaf is done, an
      inner node without keys fails on `node.keys[-1]`, and the last child
      is visited only when its keys can reach `end`. */
  method RangeRest(n: Node, start: int, end: int, results: seq<Entry>, acc: seq<Entry>, ghost order: int, ghost d: nat)
    returns (r: Result<seq<Entry>, IndexError>)
    requires WF(n, order, d) && Sorted(Flatten(n))
    requires acc == results + InRange(Done(n, |n.keys|), start, end)
    ensures r.Ok? ==> r.value == results + InRange(Flatten(n), start, end)
    ensures NoEmptyInner(n) ==> r.Ok?
    decreases d, 1
  {
    if n.leaf {
      LeafDone(n);
      return Ok(acc);
    }
    if |n.keys| == 0 {
      return Err(IndexError);
    }
    RangeEnd(n, start, end, results, acc);
    if end >= n.keys[|n.keys| - 1] {
      r := RangeChild(n, |n.keys|, start, end, acc, order, d);
    } else {
      SkipLast(n, start, end);
      r := Ok(acc);
    }
  }

  /** The recursive call of `_range_search_node` on one child. */
  method RangeChild(n: Node, c: nat, start: int, end: int, results: seq<Entry>, ghost order: int, ghost d: nat)
    returns (r: Result<seq<Entry>, IndexError>)
    requires WF(n, order, d) && Sorted(Flatten(n)) && !n.leaf && c <= |n.keys|
    ensures r.Ok? ==> r.value == results + InRange(Flatten(n.children[c]), start, end)
    ensures NoEmptyInner(n) ==> r.Ok?
    decreases d, 0
  {
    ChildSorted(n, c);
    r := RangeNode(n.children[c], start, end, results, order, d - 1);
  }

  /** The entries the loop of `_range_search_node` has passed after `i`
      keys. */
  ghost function Done(n: Node, i: nat): seq<Entry>
    requires |n.values| == |n.keys| && i <= |n.keys| && (!n.leaf ==> |n.children| == |n.keys| + 1)
  {
    if n.leaf then Own(n)[..i] else Pre(Parts(n.children), Own(n), i)
  }

  lemma {:induction false} LeafDone(n: Node)
    requires n.leaf && |n.values| == |n.keys| && n.children == []
    ensures Done(n, |n.keys|) == Flatten(n)
  {
  }

  /** One step of the loop: the child, if visited, then the key. */
  lemma {:induction false} RangeLoopStep(n: Node, i: nat, start: int, end: int, results: seq<Entry>, before: seq<Entry>, acc: seq<Entry>)
    requires |n.values| == |n.keys| && i < |n.keys| && (!n.leaf ==> |n.children| == |n.keys| + 1 && Sorted(Flatten(n)))
    requires before == results + InRange(Done(n, i), start, end)
    requires !n.leaf && start <= n.keys[i] ==> acc == before + InRange(Flatten(n.children[i]), start, end)
    requires n.leaf || n.keys[i] < start ==> acc == before
    ensures acc + (if start <= n.keys[i] <= end then [Entry(n.keys[i], n.values[i])] else [])
      == results + InRange(Done(n, i + 1), start, end)
  {
    RangeOne(Entry(n.keys[i], n.values[i]), start, end);
    if n.leaf {
      RangeLeafStep(n, i, start, end, results);
    } else {
      RangeChildStep(n, i, start, end, results, before, acc);
    }
  }

  /** A child of the loop and the key after it: the child's entries in
      range are added when it is visited, and there are none when it is
      skipped. */
  lemma {:induction false} RangeChildStep(n: Node, i: nat, start: int, end: int, results: seq<Entry>, before: seq<Entry>, acc: seq<Entry>)
    requires !n.leaf && |n.children| == |n.keys| + 1 && |n.values| == |n.keys| && i < |n.keys| && Sorted(Flatten(n))
    requires before == results + InRange(Pre(Parts(n.children), Own(n), i), start, end)
    requires start <= n.keys[i] ==> acc == before + InRange(Flatten(n.children[i]), start, end)
    requires n.keys[i] < start ==> acc == before
    ensures acc + InRange([Entry(n.keys[i], n.values[i])], start, end)
      == results + InRange(Pre(Parts(n.children), Own(n), i + 1), start, end)
  {
    var parts, es := Parts(n.children), Own(n);
    ChildBounds(n, i);
    if n.keys[i] < start {
      InRangeNone(Flatten(n.children[i]), start, end);
      assert acc == before + InRange(Flatten(n.children[i]), start, end);
    }
    PartsAt(n.children, i);
    PreLast(parts, es, i + 1);
    assert es[i] == Entry(n.keys[i], n.values[i]);
    RangeStep(results, Pre(parts, es, i), parts[i], es[i], start, end);
  }

  lemma {:induction false} RangeLeafStep(n: Node, i: nat, start: int, end: int, results: seq<Entry>)
    requires |n.values| == |n.keys| && i < |n.keys|
    ensures results + InRange(Own(n)[..i], start, end) + InRange([Entry(n.keys[i], n.values[i])], start, end)
      == results + InRange(Own(n)[..i + 1], start, end)
  {
    var es := Own(n);
    assert es[..i + 1] == es[..i] + [] + [es[i]];
    assert es[i] == Entry(n.keys[i], n.values[i]);
    RangeStep(results, es[..i], [], es[i], start, end);
    assert InRange([], start, end) == [];
  }

  lemma {:induction false} RangeOne(e: Entry, start: int, end: int)
    ensures InRange([e], start, end) == if start <= e.key <= end then [e] else []
  {
    assert [e][1..] == [];
  }

  /** After the loop only the last child is left. */
  lemma {:induction false} RangeEnd(n: Node, start: int, end: int, results: seq<Entry>, acc: seq<Entry>)
    requires !n.leaf && |n.children| == |n.keys| + 1 && |n.values| == |n.keys|
    requires acc == results + InRange(Pre(Parts(n.children), Own(n), |n.keys|), start, end)
    ensures results + InRange(Flatten(n), start, end) == acc + InRange(Flatten(n.children[|n.keys|]), start, end)
  {
    var k := |n.keys|;
    FlattenLast(n);
    InRangeAppend(Pre(Parts(n.children), Own(n), k), Flatten(n.children[k]), start, end);
  }

  /** The last child has no entries in range when `end` is below the last
      key. */
  lemma {:induction false} SkipLast(n: Node, start: int, end: int)
    requires !n.leaf && |n.children| == |n.keys| + 1 && |n.values| == |n.keys| && |n.keys| > 0 && Sorted(Flatten(n))
    requires end < n.keys[|n.keys| - 1]
    ensures InRange(Flatten(n.children[|n.keys|]), start, end) == []
  {
    ChildBounds(n, |n.keys|);
    InRangeNone(Flatten(n.children[|n.keys|]), start, end);
  }

  /** An inner node's entries end with those of its last child. */
  lemma {:induction false} FlattenLast(n: Node)
    requires !n.leaf && |n.children| == |n.keys| + 1 && |n.values| == |n.keys|
    ensures Flatten(n) == Pre(Parts(n.children), Own(n), |n.keys|) + Flatten(n.children[|n.keys|])
  {
    var parts, es := Parts(n.children), Own(n);
    var k := |n.keys|;
    PartsAt(n.children, k);
    WeaveAt(parts, es, k);
    assert Flatten(n) == Pre(parts, es, k) + Flatten(n.children[k]) + [];
  }

  // Deletion

  /** `key in keys` and `keys.index(key)`: the first position holding the
      key, if any. */
  function IndexOf(keys: seq<int>, key: int): (r: Option<nat>)
    ensures r.Some? ==> r.value < |keys| && keys[r.value] == key && forall j :: 0 <= j < r.value ==> keys[j] != key
    ensures r.None? ==> forall j :: 0 <= j < |keys| ==> keys[j] != key
  {
    if keys == [] then None
    else if keys[0] == key then Some(0)
    else
      assert forall j :: 1 <= j < |keys| ==> keys[j] == keys[1..][j - 1];
      match IndexOf(keys[1..], key)
      case None => None
      case Some(i) => Some(i + 1)
  }

  /** Taking key `i` out of a leaf takes its entry out of the leaf's
      entries. */
  lemma {:induction false} LeafRemove(n: Node, i: nat, r: Node)
    requires n.leaf && |n.values| == |n.keys| && i < |n.keys|
    requires r == Node(n.keys[..i] + n.keys[i + 1..], n.values[..i] + n.values[i + 1..], [], true)
    ensures i < |Flatten(n)| && Flatten(n)[i] == Entry(n.keys[i], n.values[i])
    ensures Flatten(r) == Flatten(n)[..i] + Flatten(n)[i + 1..]
  {
    var f, g := Flatten(n), Flatten(r);
    assert f == Pairs(n.keys, n.values);
    assert g == Pairs(r.keys, r.values);
    assert forall j :: 0 <= j < |g| ==> g[j] == if j < i then f[j] else f[j + 1];
  }

  /** A leaf none of whose keys is `key` has no entry with it. */
  lemma {:induction false} LeafNoKey(n: Node, key: int)
    requires n.leaf && |n.values| == |n.keys|
    requires forall j :: 0 <= j < |n.keys| ==> n.keys[j] != key
    ensures !KeyIn(Flatten(n), key)
  {
    assert Flatten(n) == Pairs(n.keys, n.values);
  }

  /** The shape is kept when child `c` is replaced by a tree of the same
      height. */
  lemma {:induction false} ChildWF(n: Node, c: nat, x: Node, order: int, d: nat)
    requires WF(n, order, d) && !n.leaf && c <= |n.keys| && WF(x, order, d - 1)
    ensures WF(n.(children := n.children[c := x]), order, d)
  {
    var r := n.(children := n.children[c := x]);
    forall j | 0 <= j < |r.children|
      ensures WF(r.children[j], order, d - 1)
    {
      if j != c {
        assert r.children[j] == n.children[j];
      }
    }
  }

  lemma {:induction false} MergedWF(n: Node, c: nat, x: Node, order: int, d: nat)
    requires WF(n, order, d) && !n.leaf && c < |n.keys| && WF(x, order, d - 1)
    ensures WF(Merged(n, c, x), order, d)
  {
    var r := Merged(n, c, x);
    forall j | 0 <= j < |r.children|
      ensures WF(r.children[j], order, d - 1)
    {
      if j < c {
        assert r.children[j] == n.children[j];
      } else if j > c {
        assert r.children[j] == n.children[j + 1];
      }
    }
  }

  lemma {:induction false} SwappedWF(n: Node, c: nat, x: Node, e: Entry, order: int, d: nat)
    requires WF(n, order, d) && !n.leaf && c < |n.keys| && WF(x, order, d - 1)
    ensures WF(Swapped(n, c, x, e), order, d)
  {
    var r := Swapped(n, c, x, e);
    forall j | 0 <= j < |r.children|
      ensures WF(r.children[j], order, d - 1)
    {
      if j != c {
        assert r.children[j] == n.children[j];
      }
    }
  }

  /** Taking out element `q` of the middle part of `a + b + c`. */
  lemma {:induction false} RemoveBetween<T>(a: seq<T>, b: seq<T>, c: seq<T>, q: nat, s: seq<T>, p: nat)
    requires q < |b| && s == a + b + c && p == |a| + q
    ensures p < |s| && s[p] == b[q] && a + (b[..q] + b[q + 1..]) + c == s[..p] + s[p + 1..]
  {
    assert s[..p] == a + b[..q];
    assert s[p + 1..] == b[q + 1..] + c;
  }

  /** The largest entry of a non-empty subtree taken out: the last key of
      its rightmost leaf, or the last key of an inner node whose last child
      holds no entries, merged away with that child. */
  method RemoveMax(n: Node, order: int, ghost d: nat) returns (r: Node, e: Entry)
    requires WF(n, order, d) && Flatten(n) != []
    ensures WF(r, order, d) && Flatten(n) == Flatten(r) + [e]
    decreases d
  {
    if n.leaf {
      assert Flatten(n) == Pairs(n.keys, n.values);
      var k := |n.keys| - 1;
      r := Node(n.keys[..k], n.values[..k], [], true);
      e := Entry(n.keys[k], n.values[k]);
      LeafRemove(n, k, r);
      assert Flatten(n) == Flatten(n)[..k] + [Flatten(n)[k]];
      return;
    }
    var c := |n.keys|;
    FlattenLast(n);
    if Flatten(n.children[c]) != [] {
      var last, m := RemoveMax(n.children[c], order, d - 1);
      r := n.(children := n.children[c := last]);
      e := m;
      RemoveMaxLast(n, last, e, order, d, r);
    } else {
      assert c > 0;
      r := Merged(n, c - 1, n.children[c - 1]);
      e := Entry(n.keys[c - 1], n.values[c - 1]);
      RemoveMaxMerge(n, order, d, r, e);
    }
  }

  lemma {:induction false} RemoveMaxLast(n: Node, last: Node, e: Entry, order: int, d: nat, r: Node)
    requires WF(n, order, d) && !n.leaf
    requires WF(last, order, d - 1) && Flatten(n.children[|n.keys|]) == Flatten(last) + [e]
    requires r == n.(children := n.children[|n.keys| := last])
    ensures WF(r, order, d) && Flatten(n) == Flatten(r) + [e]
  {
    var c := |n.keys|;
    ChildWF(n, c, last, order, d);
    ReplaceChild(n, c, last);
    var pre, post := Pre(Parts(n.children), Own(n), c), Post(Parts(n.children), Own(n), c);
    assert post == [];
    assert Flatten(n) == pre + (Flatten(last) + [e]) + [];
    assert Flatten(r) == pre + Flatten(last) + [];
  }

  lemma {:induction false} RemoveMaxMerge(n: Node, order: int, d: nat, r: Node, e: Entry)
    requires WF(n, order, d) && !n.leaf && |n.keys| > 0 && Flatten(n.children[|n.keys|]) == []
    requires r == Merged(n, |n.keys| - 1, n.children[|n.keys| - 1])
    requires e == Entry(n.keys[|n.keys| - 1], n.values[|n.keys| - 1])
    ensures WF(r, order, d) && Flatten(n) == Flatten(r) + [e]
  {
    var k := |n.keys| - 1;
    var parts, es := Parts(n.children), Own(n);
    MergedWF(n, k, n.children[k], order, d);
    MergeAt(n, k, n.children[k], r);
    NodeAtKey(n, k, parts, es);
    var pre, post := Pre(parts, es, k), Post(parts, es, k + 1);
    assert post == [] && parts[k + 1] == [];
    DropLast(pre, parts[k], e, Flatten(n), Flatten(r));
  }

  lemma {:induction false} DropLast<T>(pre: seq<T>, m: seq<T>, x: T, s: seq<T>, t: seq<T>)
    requires s == pre + m + [x] + [] + [] && t == pre + m + []
    ensures s == t + [x]
  {
  }

  /** Key `i` of an inner node taken out: replaced by the largest entry
      before it, or merged away with its empty left child. */
  method RemoveKeyAt(n: Node, i: nat, order: int, ghost d: nat) returns (r: Node, ghost p: nat)
    requires WF(n, order, d) && !n.leaf && i < |n.keys|
    ensures WF(r, order, d) && p < |Flatten(n)| && Flatten(n)[p] == Entry(n.keys[i], n.values[i])
    ensures Flatten(r) == Flatten(n)[..p] + Flatten(n)[p + 1..]
  {
    p := |Pre(Parts(n.children), Own(n), i)| + |Flatten(n.children[i])|;
    if Flatten(n.children[i]) == [] {
      r := Merged(n, i, n.children[i + 1]);
      MergedWF(n, i, n.children[i + 1], order, d);
      RemoveKeyMerge(n, i, r, p);
    } else {
      var left, e := RemoveMax(n.children[i], order, d - 1);
      r := Swapped(n, i, left, e);
      SwappedWF(n, i, left, e, order, d);
      RemoveKeySwap(n, i, left, e, r, p);
    }
  }

  lemma {:induction false} RemoveKeyMerge(n: Node, i: nat, r: Node, p: nat)
    requires !n.leaf && |n.children| == |n.keys| + 1 && |n.values| == |n.keys| && i < |n.keys|
    requires Flatten(n.children[i]) == [] && r == Merged(n, i, n.children[i + 1])
    requires p == |Pre(Parts(n.children), Own(n), i)| + |Flatten(n.children[i])|
    ensures p < |Flatten(n)| && Flatten(n)[p] == Entry(n.keys[i], n.values[i])
    ensures Flatten(r) == Flatten(n)[..p] + Flatten(n)[p + 1..]
  {
    var parts, es := Parts(n.children), Own(n);
    MergeAt(n, i, n.children[i + 1], r);
    NodeAtKey(n, i, parts, es);
    var pre, post := Pre(parts, es, i), Post(parts, es, i + 1);
    DropMiddle(pre, parts[i], es[i], parts[i + 1], post, Flatten(n), p);
    assert pre + parts[i] == pre;
  }

  lemma {:induction false} RemoveKeySwap(n: Node, i: nat, left: Node, e: Entry, r: Node, p: nat)
    requires !n.leaf && |n.children| == |n.keys| + 1 && |n.values| == |n.keys| && i < |n.keys|
    requires Flatten(n.children[i]) == Flatten(left) + [e] && r == Swapped(n, i, left, e)
    requires p == |Pre(Parts(n.children), Own(n), i)| + |Flatten(n.children[i])|
    ensures p < |Flatten(n)| && Flatten(n)[p] == Entry(n.keys[i], n.values[i])
    ensures Flatten(r) == Flatten(n)[..p] + Flatten(n)[p + 1..]
  {
    var parts, es := Parts(n.children), Own(n);
    SwapAt(n, i, left, e, r);
    NodeAtKey(n, i, parts, es);
    var pre, post := Pre(parts, es, i), Post(parts, es, i + 1);
    DropMiddle(pre, parts[i], es[i], parts[i + 1], post, Flatten(n), p);
    Regroup3(pre, Flatten(left), [e]);
  }

  /** Taking out the element after `pre + m` in `pre + m + [x] + b + post`. */
  lemma {:induction false} DropMiddle<T>(pre: seq<T>, m: seq<T>, x: T, b: seq<T>, post: seq<T>, s: seq<T>, p: nat)
    requires s == pre + m + [x] + b + post && p == |pre| + |m|
    ensures p < |s| && s[p] == x && s[..p] + s[p + 1..] == pre + m + b + post
  {
    assert s[..p] == pre + m;
    assert s[p + 1..] == b + post;
  }

  /** `_delete_from_node` with the inner-node case completed: a key of
      this node is taken out (see `RemoveKeyAt`), otherwise the search goes
      on in the child before the first larger key. Exactly one entry with
      the key goes, and nothing else changes. */
  method DeleteFrom(n: Node, key: int, order: int, ghost d: nat) returns (r: Node, found: bool, ghost p: nat)
    requires WF(n, order, d) && Sorted(Flatten(n))
    ensures WF(r, order, d)
    ensures found <==> KeyIn(Flatten(n), key)
    ensures found ==> p < |Flatten(n)| && Flatten(n)[p].key == key && Flatten(r) == Flatten(n)[..p] + Flatten(n)[p + 1..]
    ensures !found ==> r == n
    decreases d
  {
    match IndexOf(n.keys, key)
    case Some(i) =>
      found := true;
      if n.leaf {
        r := Node(n.keys[..i] + n.keys[i + 1..], n.values[..i] + n.values[i + 1..], [], true);
        LeafRemove(n, i, r);
        p := i;
      } else {
        r, p := RemoveKeyAt(n, i, order, d);
      }
    case None =>
      if n.leaf {
        LeafNoKey(n, key);
        r, found, p := n, false, 0;
      } else {
        var i := FindIndex(n.keys, key);
        ChildSorted(n, i);
        var child, f, q := DeleteFrom(n.children[i], key, order, d - 1);
        r := n.(children := n.children[i := child]);
        found := f;
        p := |Pre(Parts(n.children), Own(n), i)| + q;
        DescendDelete(n, i, key, child, f, q, order, d, r, p);
      }
  }

  /** Putting the child back after deleting from it. */
  lemma {:induction false} DescendDelete(n: Node, i: nat, key: int, child: Node, f: bool, q: nat, order: int, d: nat, r: Node, p: nat)
    requires WF(n, order, d) && !n.leaf && Sorted(Flatten(n))
    requires i == FirstAtLeast(n.keys, key) && forall j :: 0 <= j < |n.keys| ==> n.keys[j] != key
    requires WF(child, order, d - 1)
    requires f <==> KeyIn(Flatten(n.children[i]), key)
    requires f ==> q < |Flatten(n.children[i])| && Flatten(n.children[i])[q].key == key
    requires f ==> Flatten(child) == Flatten(n.children[i])[..q] + Flatten(n.children[i])[q + 1..]
    requires !f ==> child == n.children[i]
    requires r == n.(children := n.children[i := child]) && p == |Pre(Parts(n.children), Own(n), i)| + q
    ensures WF(r, order, d)
    ensures f <==> KeyIn(Flatten(n), key)
    ensures f ==> p < |Flatten(n)| && Flatten(n)[p].key == key && Flatten(r) == Flatten(n)[..p] + Flatten(n)[p + 1..]
    ensures !f ==> r == n
  {
    ChildWF(n, i, child, order, d);
    DescendKeyIn(n, i, key);
    if f {
      DescendRemove(n, i, child, q, p);
    } else {
      assert n.children[i := child] == n.children;
    }
  }

  /** A key that is none of the node's keys is in the node's entries
      exactly when it is in those of the child the search descends into. */
  lemma {:induction false} DescendKeyIn(n: Node, i: nat, key: int)
    requires !n.leaf && |n.children| == |n.keys| + 1 && |n.values| == |n.keys| && Sorted(Flatten(n))
    requires i == FirstAtLeast(n.keys, key) && forall j :: 0 <= j < |n.keys| ==> n.keys[j] != key
    ensures KeyIn(Flatten(n), key) <==> KeyIn(Flatten(n.children[i]), key)
  {
    var parts, es := Parts(n.children), Own(n);
    ReplaceChild(n, i, n.children[i]);
    NeighbourKeys(n, i);
    var pre, post := Pre(parts, es, i), Post(parts, es, i);
    assert Flatten(n) == pre + Flatten(n.children[i]) + post;
    KeyInMiddle(pre, Flatten(n.children[i]), post, key);
  }

  /** Taking an entry out of child `i` takes it out of the node. */
  lemma {:induction false} DescendRemove(n: Node, i: nat, child: Node, q: nat, p: nat)
    requires !n.leaf && |n.children| == |n.keys| + 1 && |n.values| == |n.keys| && i <= |n.keys|
    requires q < |Flatten(n.children[i])| && p == |Pre(Parts(n.children), Own(n), i)| + q
    requires Flatten(child) == Flatten(n.children[i])[..q] + Flatten(n.children[i])[q + 1..]
    ensures p < |Flatten(n)| && Flatten(n)[p] == Flatten(n.children[i])[q]
    ensures Flatten(n.(children := n.children[i := child])) == Flatten(n)[..p] + Flatten(n)[p + 1..]
  {
    var parts, es := Parts(n.children), Own(n);
    ReplaceChild(n, i, child);
    var pre, post := Pre(parts, es, i), Post(parts, es, i);
    RemoveBetween(pre, Flatten(n.children[i]), post, q, Flatten(n), p);
  }

  /** `_delete_from_node` as written: a key found in an inner node is
      taken out with its value, but the node keeps all its children. */
  function DeleteAsWritten(n: Node, key: int): (r: (Node, bool))
    requires Aligned(n)
    ensures Aligned(r.0)
    ensures !r.1 ==> r.0 == n
    decreases n
  {
    match IndexOf(n.keys, key)
    case Some(i) =>
      (n.(keys := n.keys[..i] + n.keys[i + 1..], values := n.values[..i] + n.values[i + 1..]), true)
    case None =>
      if n.leaf then (n, false)
      else
        var i := FirstAtLeast(n.keys, key);
        var (child, found) := DeleteAsWritten(n.children[i], key);
        var cs := n.children[i := child];
        assert forall j :: 0 <= j < |cs| ==> cs[j] == n.children[j] || j == i;
        assert n.children[i := n.children[i]] == n.children;
        (n.(children := cs), found)
  }

  /** The index after inserting 1, 2, 3 and 4 at order 2, each key with ten
      times its value as offset: the root holds 2 over leaves holding 1 and
      3, 4. */
  const Sample := Node([2], [20], [Node([1], [10], [], true), Node([3, 4], [30, 40], [], true)], false)

  /** The sample has the index's shape, its entries in order, and key 3
      is found. */
  lemma {:induction false} SampleIndex()
    ensures Flatten(Sample) == [Entry(1, 10), Entry(2, 20), Entry(3, 30), Entry(4, 40)]
    ensures WF(Sample, 2, 1) && Sorted(Flatten(Sample))
    ensures Lookup(Sample, 3) == Some(30)
  {
    var l, r := Node([1], [10], [], true), Node([3, 4], [30, 40], [], true);
    assert Flatten(l) == [Entry(1, 10)];
    assert Flatten(r) == [Entry(3, 30), Entry(4, 40)];
    assert Parts(Sample.children) == [Flatten(l), Flatten(r)];
    assert Own(Sample) == [Entry(2, 20)];
    assert FirstAtLeast([2], 3) == 1;
    assert FirstAtLeast([3, 4], 3) == 0;
  }

  /** Deleting the root key 2 as written leaves a root with no keys over
      both leaves, and key 3, which was not deleted, can no longer be
      found: the search goes to the first child. */
  lemma {:induction false} DeleteAsWrittenLosesEntries()
    ensures WF(Sample, 2, 1) && Sorted(Flatten(Sample))
    ensures Lookup(Sample, 3) == Some(30)
    ensures DeleteAsWritten(Sample, 2).1
    ensures Lookup(DeleteAsWritten(Sample, 2).0, 3) == None
    ensures !WF(DeleteAsWritten(Sample, 2).0, 2, 1)
  {
    SampleIndex();
    var l, r := Node([1], [10], [], true), Node([3, 4], [30, 40], [], true);
    assert IndexOf([2], 2) == Some(0);
    var t := DeleteAsWritten(Sample, 2).0;
    assert t == Node([], [], [l, r], false);
    assert FirstAtLeast([1], 3) == 1;
  }

  /** `BTreeIndex`: the root node, the order and the entry count. */
  class BTreeIndex {
    const order: int
    var root: Node
    var size: int
    /** The depth of every leaf below the root. */
    ghost var height: nat

    /** The tree has the index's shape, its entries are in key order and
        the count is their number. */
    ghost predicate Valid()
      reads this
    {
      1 <= order && WF(root, order, height) && Sorted(Flatten(root)) && size == |Flatten(root)|
    }

    /** The entries, in key order. */
    function Entries(): seq<Entry>
      reads this
    {
      Flatten(root)
    }

    /** An empty leaf as the root. */
    constructor (order: int)
      requires 1 <= order
      ensures Valid() && this.order == order && Entries() == [] && size == 0
    {
      this.order := order;
      root := EmptyLeaf;
      size := 0;
      height := 0;
    }

    /** `insert`: a full root is split under a new root first; the entry
        goes in among the others in key order, after any with the same
        key that it passes, and the count goes up by one. */
    method Insert(key: int, value: int)
      requires Valid()
      modifies this
      ensures Valid() && size == old(size) + 1
      ensures exists p :: 0 <= p <= |old(Entries())| && Entries() == old(Entries())[..p] + [Entry(key, value)] + old(Entries())[p..]
    {
      ghost var before := Entries();
      if |root.keys| >= MaxKeys(order) {
        var top := Node([], [], [root], false);
        assert Flatten(top) == Flatten(root) by {
          assert Parts([root]) == [Flatten(root)];
        }
        height := height + 1;
        root := SplitChild(top, 0, order, height);
        assert Roomy(root, order) by {
          assert |root.children| == 2;
        }
      }
      var r, p := InsertNonFull(root, key, value, order, height);
      InsertFits(Flatten(root), p, Entry(key, value));
      assert Flatten(root) == before;
      root := r;
      size := size + 1;
      assert Entries() == before[..p] + [Entry(key, value)] + before[p..];
    }

    /** `search`: a value stored with the key, exactly when some entry has
        it. */
    method Search(key: int) returns (r: Option<int>)
      requires Valid()
      ensures r.Some? <==> KeyIn(Entries(), key)
      ensures r.Some? ==> Entry(key, r.value) in Entries()
    {
      WFAligned(root, order, height);
      r := SearchNode(root, key);
      LookupMeaning(root, order, height, key);
    }

    /** `range_search`: the entries with `start <= key <= end`, in key
        order; it fails only where an inner node has no keys. */
    method RangeSearch(start: int, end: int) returns (r: Result<seq<Entry>, IndexError>)
      requires Valid()
      ensures r.Ok? ==> r.value == InRange(Entries(), start, end)
      ensures NoEmptyInner(root) ==> r.Ok?
    {
      r := RangeNode(root, start, end, [], order, height);
      assert r.Ok? ==> [] + InRange(Entries(), start, end) == InRange(Entries(), start, end);
    }

    /** `delete`, with the inner-node case completed: one entry with the
        key is taken out when there is one, and the count goes down. */
    method Delete(key: int) returns (found: bool)
      requires Valid()
      modifies this
      ensures Valid()
      ensures found <==> KeyIn(old(Entries()), key)
      ensures found ==> size == old(size) - 1
      ensures found ==> exists p :: (0 <= p < |old(Entries())| && old(Entries())[p].key == key
                                     && Entries() == old(Entries())[..p] + old(Entries())[p + 1..])
      ensures !found ==> Entries() == old(Entries()) && size == old(size)
    {
      var r, f, p := DeleteFrom(root, key, order, height);
      if f {
        RemoveSorted(Flatten(root), p);
        size := size - 1;
      }
      root, found := r, f;
    }

    /** `size`: the number of entries. */
    function Size(): (n: int)
      requires Valid()
      reads this
      ensures n == |Entries()|
    {
      size
    }

    /** `clear`: an empty leaf as the root again. */
    method Clear()
      requires Valid()
      modifies this
      ensures Valid() && Entries() == [] && size == 0
    {
      root := EmptyLeaf;
      size := 0;
      height := 0;
    }
  }
}
