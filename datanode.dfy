/**
 * The data-node tree and string list (libavformat/datanode.c). An INI-style
 * text is parsed into nodes linked by child, parent, next-sibling and
 * previous-sibling pointers; the logical successor walks the tree in
 * preorder; the filters collect, in that order, the values (or names) of
 * nodes whose name (or value) starts with a given prefix into a string list.
 *
 * The nodes live in a sequence in the order they were made, and a link is
 * the index of the node it points to. The parser only ever adds a node
 * after the last one on the path from the newest node to the root, so the
 * order of making is the preorder; `Preorder` states this, and the parser
 * keeps it.
 */
module DataNode {
  import opened Common

  /** A node: its name and value strings (NULL as None) and its four links. */
  datatype Node = Node(
    name: Option<seq<byte>>, value: Option<seq<byte>>,
    child: Option<nat>, parent: Option<nat>, next: Option<nat>, prev: Option<nat>)

  /** A zeroed node. */
  const Zeroed: Node := Node(None, None, None, None, None, None)

  const NUL: byte := 0
  const NEWLINE: byte := 10
  const HASH: byte := 35
  const EQUALS: byte := 61
  const LBRACKET: byte := 91
  const RBRACKET: byte := 93

  // ---------------------------------------------------------------------
  // Making nodes

  /** `nodes` after `mkchild(o)`: a zeroed node, child of `o`, is added. */
  function AddChild(nodes: seq<Node>, o: nat): (r: seq<Node>)
    requires o < |nodes|
    ensures |r| == |nodes| + 1
    ensures forall k :: 0 <= k < |nodes| && k != o ==> r[k] == nodes[k]
    ensures r[o] == nodes[o].(child := Some(|nodes|))
    ensures r[|nodes|] == Node(None, None, None, Some(o), None, None)
  {
    nodes[o := nodes[o].(child := Some(|nodes|))] + [Zeroed.(parent := Some(o))]
  }

  /**
   * `nodes` after `mknext(o)`: a zeroed node is added as the next sibling
   * of `o`, with `o` before it and the same parent.
   */
  function AddNext(nodes: seq<Node>, o: nat): (r: seq<Node>)
    requires o < |nodes|
    ensures |r| == |nodes| + 1
    ensures forall k :: 0 <= k < |nodes| && k != o ==> r[k] == nodes[k]
    ensures r[o] == nodes[o].(next := Some(|nodes|))
    ensures r[|nodes|] == Node(None, None, None, nodes[o].parent, None, Some(o))
  {
    nodes[o := nodes[o].(next := Some(|nodes|))] + [Zeroed.(parent := nodes[o].parent, prev := Some(o))]
  }

  // ---------------------------------------------------------------------
  // Links and the logical successor

  /** Every parent was made before its children. */
  predicate ParentsBefore(nodes: seq<Node>) {
    forall i :: 0 <= i < |nodes| && nodes[i].parent.Some? ==> nodes[i].parent.value < i
  }

  /**
   * The links agree with each other: a child's parent is the node it hangs
   * from, and a next sibling has its predecessor as previous sibling and
   * shares its parent.
   */
  predicate LinksAgree(nodes: seq<Node>) {
    forall i :: 0 <= i < |nodes| ==>
      (nodes[i].child.Some? ==>
         nodes[i].child.value < |nodes| && nodes[nodes[i].child.value].parent == Some(i))
      && (nodes[i].next.Some? ==>
            nodes[i].next.value < |nodes| && nodes[nodes[i].next.value].parent == nodes[i].parent
            && nodes[nodes[i].next.value].prev == Some(i))
  }

  /** The next sibling of `j` or of its nearest ancestor that has one. */
  function UpNext(nodes: seq<Node>, j: nat): Option<nat>
    requires ParentsBefore(nodes) && j < |nodes|
    decreases j
  {
    if nodes[j].next.Some? then nodes[j].next
    else if nodes[j].parent.Some? then UpNext(nodes, nodes[j].parent.value)
    else None
  }

  /** The logical successor: the first child, else `UpNext`. */
  function LogNext(nodes: seq<Node>, j: nat): Option<nat>
    requires ParentsBefore(nodes) && j < |nodes|
  {
    if nodes[j].child.Some? then nodes[j].child else UpNext(nodes, j)
  }

  /**
   * The logical successor of every node is the node made after it, and the
   * newest node has none: walking successors from the first node visits
   * every node once, in the order they were made.
   */
  predicate Preorder(nodes: seq<Node>)
    requires ParentsBefore(nodes)
  {
    |nodes| > 0
    && (forall j :: 0 <= j < |nodes| - 1 ==> LogNext(nodes, j) == Some(j + 1))
    && LogNext(nodes, |nodes| - 1) == None
  }

  /** `UpNext(j)` reads only the parent and next links of nodes up to `j`. */
  lemma {:induction false} UpNextReads(n1: seq<Node>, n2: seq<Node>, j: nat)
    requires ParentsBefore(n1) && ParentsBefore(n2) && j < |n1| && j < |n2|
    requires forall k :: 0 <= k <= j ==> n1[k].parent == n2[k].parent && n1[k].next == n2[k].next
    ensures UpNext(n1, j) == UpNext(n2, j)
    decreases j
  {
    if n1[j].next.None? && n1[j].parent.Some? {
      UpNextReads(n1, n2, n1[j].parent.value);
    }
  }

  /**
   * Giving `p` a next sibling, where no next sibling was found from `p`
   * upwards, changes no successor that was found before.
   */
  lemma {:induction false} NextUpdateKeeps(nodes: seq<Node>, p: nat, x: nat, j: nat)
    requires ParentsBefore(nodes) && p < |nodes| && j < |nodes|
    requires UpNext(nodes, p) == None && UpNext(nodes, j).Some?
    ensures ParentsBefore(nodes[p := nodes[p].(next := Some(x))])
    ensures UpNext(nodes[p := nodes[p].(next := Some(x))], j) == UpNext(nodes, j)
    decreases j
  {
    var m := nodes[p := nodes[p].(next := Some(x))];
    if nodes[j].next.None? {
      assert j != p;
      NextUpdateKeeps(nodes, p, x, nodes[j].parent.value);
    }
  }

  /** Adding a child to the newest node keeps the preorder. */
  lemma AddChildKeepsPreorder(nodes: seq<Node>)
    requires ParentsBefore(nodes) && Preorder(nodes)
    ensures ParentsBefore(AddChild(nodes, |nodes| - 1))
    ensures Preorder(AddChild(nodes, |nodes| - 1))
  {
    var n := |nodes|;
    var o := n - 1;
    var r := AddChild(nodes, o);
    assert ParentsBefore(r);
    forall j | 0 <= j < n
      ensures UpNext(r, j) == UpNext(nodes, j)
    {
      UpNextReads(r, nodes, j);
    }
    forall j | 0 <= j < n - 1 ensures LogNext(r, j) == Some(j + 1) {
      assert r[j] == nodes[j];
      assert LogNext(nodes, j) == Some(j + 1);
      UpNextReads(r, nodes, j);
    }
    assert LogNext(r, o) == Some(n);
    assert LogNext(nodes, o) == None;
    UpNextReads(r, nodes, o);
    assert UpNext(r, n) == UpNext(r, o);
  }

  /**
   * Adding a next sibling to the newest node, or to its parent, keeps the
   * preorder.
   */
  lemma AddNextKeepsPreorder(nodes: seq<Node>, o: nat)
    requires ParentsBefore(nodes) && Preorder(nodes)
    requires o == |nodes| - 1 || nodes[|nodes| - 1].parent == Some(o)
    ensures ParentsBefore(AddNext(nodes, o))
    ensures Preorder(AddNext(nodes, o))
  {
    var n := |nodes|;
    var last := n - 1;
    var m := nodes[o := nodes[o].(next := Some(n))];
    var r := AddNext(nodes, o);
    assert UpNext(nodes, o) == None by {
      if o != last {
        assert UpNext(nodes, last) == UpNext(nodes, o);
      }
    }
    assert ParentsBefore(m);
    assert ParentsBefore(r);
    forall j | 0 <= j < n ensures UpNext(r, j) == UpNext(m, j) {
      UpNextReads(r, m, j);
    }
    forall j | 0 <= j < n - 1 ensures LogNext(r, j) == Some(j + 1) {
      assert LogNext(nodes, j) == Some(j + 1);
      UpNextReads(r, m, j);
      if nodes[j].child.None? {
        NextUpdateKeeps(nodes, o, n, j);
      }
    }
    UpNextReads(r, m, last);
    assert LogNext(nodes, last) == None;
    if o == last {
      assert UpNext(m, last) == Some(n);
    } else {
      assert UpNext(m, o) == Some(n);
      assert UpNext(m, last) == UpNext(m, o);
    }
    if nodes[o].parent.Some? {
      var q := nodes[o].parent.value;
      UpNextReads(r, nodes, q);
      assert UpNext(nodes, o) == UpNext(nodes, q);
      assert UpNext(r, n) == UpNext(r, q);
    }
  }

  /** Changing a node's strings keeps every link and so the preorder. */
  lemma SameLinksKeepPreorder(n1: seq<Node>, n2: seq<Node>)
    requires ParentsBefore(n1) && Preorder(n1) && |n1| == |n2|
    requires forall k :: 0 <= k < |n1| ==>
               n1[k].parent == n2[k].parent && n1[k].next == n2[k].next && n1[k].child == n2[k].child
    ensures ParentsBefore(n2) && Preorder(n2)
  {
    assert ParentsBefore(n2);
    forall j | 0 <= j < |n1| ensures LogNext(n2, j) == LogNext(n1, j) {
      UpNextReads(n1, n2, j);
    }
  }

  /**
   * The shape the parser keeps: parents made first, links that agree,
   * making order equal to preorder, values only on named nodes and no
   * syntax in any string.
   */
  predicate TreeShape(nodes: seq<Node>) {
    ParentsBefore(nodes) && LinksAgree(nodes) && Preorder(nodes) && ValuedNamed(nodes)
  }

  /** `mkchild` on the newest node keeps the shape. */
  lemma AddChildKeepsShape(nodes: seq<Node>)
    requires TreeShape(nodes)
    ensures TreeShape(AddChild(nodes, |nodes| - 1))
  {
    AddChildKeepsPreorder(nodes);
    var r := AddChild(nodes, |nodes| - 1);
    forall i | 0 <= i < |r| ensures (r[i].value.Some? ==> r[i].name.Some?)
      && (r[i].name.Some? ==> CleanText(r[i].name.value))
      && (r[i].value.Some? ==> CleanText(r[i].value.value))
    {
      if i < |nodes| {
        assert r[i].name == nodes[i].name && r[i].value == nodes[i].value;
      }
    }
  }

  /** `mknext` on the newest node or its parent keeps the shape. */
  lemma AddNextKeepsShape(nodes: seq<Node>, o: nat)
    requires TreeShape(nodes)
    requires o == |nodes| - 1 || nodes[|nodes| - 1].parent == Some(o)
    ensures TreeShape(AddNext(nodes, o))
  {
    AddNextKeepsPreorder(nodes, o);
    AddNextKeepsLinks(nodes, o);
    var r := AddNext(nodes, o);
    forall i | 0 <= i < |r| ensures (r[i].value.Some? ==> r[i].name.Some?)
      && (r[i].name.Some? ==> CleanText(r[i].name.value))
      && (r[i].value.Some? ==> CleanText(r[i].value.value))
    {
      if i < |nodes| {
        assert r[i].name == nodes[i].name && r[i].value == nodes[i].value;
      }
    }
  }

  /** A new next sibling is linked back to the node it follows and shares its parent. */
  lemma AddNextKeepsLinks(nodes: seq<Node>, o: nat)
    requires LinksAgree(nodes) && o < |nodes|
    ensures LinksAgree(AddNext(nodes, o))
  {
    var n := |nodes|;
    var r := AddNext(nodes, o);
    forall k | 0 <= k < n
      ensures r[k].parent == nodes[k].parent && r[k].prev == nodes[k].prev && r[k].child == nodes[k].child
      ensures k != o ==> r[k].next == nodes[k].next
    {
    }
    assert r[o].next == Some(n) && r[n].parent == nodes[o].parent && r[n].prev == Some(o);
    assert r[n].child.None? && r[n].next.None?;
  }

  /** Storing clean strings, a value only beside a name, keeps the shape. */
  lemma SetStringsKeepsShape(nodes: seq<Node>, d: nat, name: Option<seq<byte>>, value: Option<seq<byte>>)
    requires TreeShape(nodes) && d < |nodes|
    requires value.Some? ==> name.Some?
    requires name.Some? ==> CleanText(name.value)
    requires value.Some? ==> CleanText(value.value)
    ensures TreeShape(nodes[d := nodes[d].(name := name, value := value)])
  {
    var r := nodes[d := nodes[d].(name := name, value := value)];
    forall k | 0 <= k < |nodes|
      ensures r[k].parent == nodes[k].parent && r[k].next == nodes[k].next && r[k].child == nodes[k].child
      ensures r[k].prev == nodes[k].prev
    {
    }
    SameLinksKeepPreorder(nodes, r);
    assert LinksAgree(r);
    forall i | 0 <= i < |r|
      ensures (r[i].value.Some? ==> r[i].name.Some?)
              && (r[i].name.Some? ==> CleanText(r[i].name.value))
              && (r[i].value.Some? ==> CleanText(r[i].value.value))
    {
      if i != d {
        assert r[i] == nodes[i];
      }
    }
  }

  // ---------------------------------------------------------------------
  // Depth

  /** The number of parent links from `j` to a node without parent. */
  function Depth(nodes: seq<Node>, j: nat): nat
    requires ParentsBefore(nodes) && j < |nodes|
    decreases j
  {
    if nodes[j].parent.Some? then 1 + Depth(nodes, nodes[j].parent.value) else 0
  }

  /** A child is one level deeper than its parent; a next sibling is level with it. */
  lemma DepthOfLinks(nodes: seq<Node>, i: nat)
    requires ParentsBefore(nodes) && LinksAgree(nodes) && i < |nodes|
    ensures nodes[i].child.Some? ==> Depth(nodes, nodes[i].child.value) == Depth(nodes, i) + 1
    ensures nodes[i].next.Some? ==> Depth(nodes, nodes[i].next.value) == Depth(nodes, i)
  {
    if nodes[i].next.Some? {
      var x := nodes[i].next.value;
      assert nodes[x].parent == nodes[i].parent;
    }
  }

  // ---------------------------------------------------------------------
  // What the filters collect

  /** No stored string holds a byte the parser treats as syntax. */
  predicate CleanText(s: seq<byte>) {
    forall c <- s :: c != NUL && c != NEWLINE && c != HASH && c != EQUALS && c != LBRACKET && c != RBRACKET
  }

  /** Every node with a value has a name, and no string holds syntax. */
  predicate ValuedNamed(nodes: seq<Node>) {
    forall i :: 0 <= i < |nodes| ==>
      (nodes[i].value.Some? ==> nodes[i].name.Some?)
      && (nodes[i].name.Some? ==> CleanText(nodes[i].name.value))
      && (nodes[i].value.Some? ==> CleanText(nodes[i].value.value))
  }

  /** In making order from `from` on, the values of nodes whose name starts with `prefix`. */
  function ValuesNamed(nodes: seq<Node>, from: nat, prefix: seq<byte>): (r: seq<seq<byte>>)
    requires ValuedNamed(nodes)
    ensures forall s <- r :: CleanText(s)
    decreases |nodes| - from
  {
    if from >= |nodes| then []
    else
      var n := nodes[from];
      (if n.value.Some? && prefix <= n.name.value then [n.value.value] else [])
      + ValuesNamed(nodes, from + 1, prefix)
  }

  /** In making order from `from` on, the names of nodes whose value starts with `prefix`. */
  function NamesValued(nodes: seq<Node>, from: nat, prefix: seq<byte>): (r: seq<seq<byte>>)
    requires ValuedNamed(nodes)
    ensures forall s <- r :: CleanText(s)
    decreases |nodes| - from
  {
    if from >= |nodes| then []
    else
      var n := nodes[from];
      (if n.value.Some? && prefix <= n.value.value then [n.name.value] else [])
      + NamesValued(nodes, from + 1, prefix)
  }

  /**
   * A string is collected by the value filter exactly when some node from
   * `from` on holds it as value and has a name starting with `prefix`.
   */
  lemma {:induction false} ValuesNamedMembers(nodes: seq<Node>, from: nat, prefix: seq<byte>, v: seq<byte>)
    requires ValuedNamed(nodes)
    ensures v in ValuesNamed(nodes, from, prefix) <==>
              exists i :: from <= i < |nodes| && nodes[i].value == Some(v) && prefix <= nodes[i].name.value
    decreases |nodes| - from
  {
    if from < |nodes| {
      ValuesNamedMembers(nodes, from + 1, prefix, v);
      var n := nodes[from];
      var here: seq<seq<byte>> := if n.value.Some? && prefix <= n.name.value then [n.value.value] else [];
      var rest := ValuesNamed(nodes, from + 1, prefix);
      assert ValuesNamed(nodes, from, prefix) == here + rest;
      if v in here {
        assert nodes[from].value == Some(v) && prefix <= nodes[from].name.value;
      } else if v in rest {
        var i :| from + 1 <= i < |nodes| && nodes[i].value == Some(v) && prefix <= nodes[i].name.value;
        assert from <= i;
      } else {
        forall i | from <= i < |nodes| && nodes[i].value == Some(v)
          ensures !(prefix <= nodes[i].name.value)
        {
          if i == from {
            assert v !in here;
          }
        }
      }
    }
  }

  /**
   * A string is collected by the name filter exactly when some node from
   * `from` on holds it as name and has a value starting with `prefix`.
   */
  lemma {:induction false} NamesValuedMembers(nodes: seq<Node>, from: nat, prefix: seq<byte>, n: seq<byte>)
    requires ValuedNamed(nodes)
    ensures n in NamesValued(nodes, from, prefix) <==>
              exists i :: from <= i < |nodes| && nodes[i].value.Some? && nodes[i].name == Some(n)
                          && prefix <= nodes[i].value.value
    decreases |nodes| - from
  {
    if from < |nodes| {
      NamesValuedMembers(nodes, from + 1, prefix, n);
      var m := nodes[from];
      var here: seq<seq<byte>> := if m.value.Some? && prefix <= m.value.value then [m.name.value] else [];
      var rest := NamesValued(nodes, from + 1, prefix);
      assert NamesValued(nodes, from, prefix) == here + rest;
      if n in here {
        assert nodes[from].value.Some? && nodes[from].name == Some(n) && prefix <= nodes[from].value.value;
      } else if n in rest {
        var i :| from + 1 <= i < |nodes| && nodes[i].value.Some? && nodes[i].name == Some(n)
                 && prefix <= nodes[i].value.value;
        assert from <= i;
      } else {
        forall i | from <= i < |nodes| && nodes[i].value.Some? && nodes[i].name == Some(n)
          ensures !(prefix <= nodes[i].value.value)
        {
          if i == from {
            assert n !in here;
          }
        }
      }
    }
  }

  // ---------------------------------------------------------------------
  // The string list

  /**
   * The strings of a list, head first: only a fresh head holds no string,
   * and it is then alone.
   */
  predicate ListShape(strs: seq<Option<seq<byte>>>) {
    |strs| >= 1 && (forall i :: 1 <= i < |strs| ==> strs[i].Some?)
    && (strs[0].None? ==> |strs| == 1)
  }

  /** The strings a list holds, in order. */
  function StringsOf(strs: seq<Option<seq<byte>>>): (r: seq<seq<byte>>)
    requires ListShape(strs)
    ensures |r| == if strs[0].None? then 0 else |strs|
    ensures strs[0].Some? ==> forall i :: 0 <= i < |strs| ==> r[i] == strs[i].value
  {
    if strs[0].None? then [] else seq(|strs|, i requires 0 <= i < |strs| => strs[i].value)
  }

  /**
   * The node count `len` reports is the number of strings, except for a
   * fresh list, which has no string and still counts its head.
   */
  lemma LenCountsHead(strs: seq<Option<seq<byte>>>)
    requires ListShape(strs)
    ensures |strs| >= 1
    ensures |StringsOf(strs)| == |strs| <==> strs[0].Some?
    ensures strs[0].None? ==> StringsOf(strs) == [] && |strs| == 1
  {
  }

  /** A singly linked list of strings. */
  class StringList {
    /** The string of each list node, head first. */
    var strs: seq<Option<seq<byte>>>

    predicate Valid()
      reads this
    {
      ListShape(strs)
    }

    /** The strings held, in order. */
    function Strings(): seq<seq<byte>>
      reads this
      requires Valid()
    {
      StringsOf(strs)
    }

    /** ff_stringlist_alloc: a single zeroed node. */
    constructor()
      ensures Valid() && strs == [None] && Strings() == []
    {
      strs := [None];
    }

    /**
     * Walks to the last node; a node that holds a string gets a new node
     * after it holding `str`, and a fresh head is filled instead.
     */
    method Append(str: seq<byte>)
      requires Valid()
      modifies this
      ensures Valid() && Strings() == old(Strings()) + [str]
      ensures old(strs)[0].None? ==> strs == [Some(str)]
      ensures old(strs)[0].Some? ==> strs == old(strs) + [Some(str)]
    {
      var k := 0;
      while k + 1 < |strs|
        invariant 0 <= k < |strs|
      {
        k := k + 1;
      }
      if strs[k].Some? {
        strs := strs + [Some(str)];
      } else {
        strs := strs[k := Some(str)];
      }
    }

    /** ff_stringlist_len: the number of nodes, counting the head. */
    method Len() returns (n: nat)
      requires Valid()
      ensures n == |strs|
      ensures n == |Strings()| || (n == 1 && Strings() == [])
    {
      var k := 0;
      while k + 1 < |strs|
        invariant 0 <= k < |strs|
      {
        k := k + 1;
      }
      n := k + 1;
    }

    /**
     * ff_stringlist_at: the string of node `i`, after following `i` next
     * links; a negative index follows none.
     */
    method At(i: int) returns (s: Option<seq<byte>>)
      requires Valid() && i < |strs|
      ensures i <= 0 ==> s == strs[0]
      ensures i > 0 ==> s.Some? && s.value == Strings()[i]
    {
      var k := 0;
      var left := i;
      while left > 0
        invariant i > 0 ==> 0 <= left && k + left == i
        invariant i <= 0 ==> k == 0
      {
        left := left - 1;
        k := k + 1;
      }
      s := strs[k];
    }

    /**
     * ff_stringlist_export: an array of one entry per node, in list order,
     * and a NULL terminator, with the node count.
     */
    method Export() returns (flist: seq<Option<seq<byte>>>, count: nat)
      requires Valid()
      ensures count == |strs| && |flist| == count + 1 && flist[count] == None
      ensures forall i :: 0 <= i < count ==> flist[i] == strs[i]
      ensures strs[0].Some? ==> forall i :: 0 <= i < count ==> flist[i] == Some(Strings()[i])
    {
      count := Len();
      flist := [];
      var i := 0;
      while i < count
        invariant 0 <= i <= count && flist == strs[..i]
      {
        flist := flist + [strs[i]];
        i := i + 1;
      }
      flist := flist + [None];
    }
  }

  // ---------------------------------------------------------------------
  // The tree

  /** The nodes of an INI tree, in the order they were made; node 0 is the first. */
  class DataTree {
    var nodes: seq<Node>

    /** The shape the parser keeps. */
    predicate Valid()
      reads this
    {
      TreeShape(nodes)
    }

    /** A tree of one zeroed node. */
    constructor()
      ensures Valid() && nodes == [Zeroed]
    {
      nodes := [Zeroed];
    }

    /** ff_datanode_mkchild: a zeroed node becomes the child of `o`. */
    method MkChild(o: nat) returns (d: nat)
      requires o < |nodes|
      modifies this
      ensures d == old(|nodes|) && nodes == AddChild(old(nodes), o)
      ensures nodes[o].child == Some(d) && nodes[d].parent == Some(o)
    {
      d := |nodes|;
      nodes := AddChild(nodes, o);
    }

    /**
     * ff_datanode_mknext: a zeroed node becomes the next sibling of `o`,
     * with `o` as previous sibling and `o`'s parent.
     */
    method MkNext(o: nat) returns (d: nat)
      requires o < |nodes|
      modifies this
      ensures d == old(|nodes|) && nodes == AddNext(old(nodes), o)
      ensures nodes[o].next == Some(d) && nodes[d].prev == Some(o) && nodes[d].parent == old(nodes)[o].parent
    {
      d := |nodes|;
      nodes := AddNext(nodes, o);
    }

    /**
     * ff_datanode_getlognext: the child, else the next sibling, else the
     * next sibling of the nearest ancestor that has one, else none.
     */
    method GetLogNext(d: nat) returns (r: Option<nat>)
      requires ParentsBefore(nodes) && d < |nodes|
      ensures r == LogNext(nodes, d)
      ensures Preorder(nodes) ==> r == if d + 1 < |nodes| then Some(d + 1) else None
    {
      if nodes[d].child.Some? {
        return nodes[d].child;
      }
      if nodes[d].next.Some? {
        return nodes[d].next;
      }
      var cur: nat := d;
      while nodes[cur].parent.Some?
        invariant cur < |nodes| && nodes[cur].next.None?
        invariant UpNext(nodes, cur) == UpNext(nodes, d)
        decreases cur
      {
        cur := nodes[cur].parent.value;
        if nodes[cur].next.Some? {
          return nodes[cur].next;
        }
      }
      return None;
    }

    /** ff_datanode_getdepth: counts the parent links up from `d`. */
    method GetDepth(d: nat) returns (depth: nat)
      requires ParentsBefore(nodes) && d < |nodes|
      ensures depth == Depth(nodes, d)
    {
      depth := 0;
      var cur: nat := d;
      while nodes[cur].parent.Some?
        invariant cur < |nodes| && depth + Depth(nodes, cur) == Depth(nodes, d)
        decreases cur
      {
        cur := nodes[cur].parent.value;
        depth := depth + 1;
      }
    }

    /**
     * ff_datanode_filter_values_by_name: from `d` on, following logical
     * successors, appends the value of every node that has one and whose
     * name starts with `prefix`.
     */
    method FilterValuesByName(d: Option<nat>, l: StringList, prefix: seq<byte>)
      requires ParentsBefore(nodes) && Preorder(nodes) && ValuedNamed(nodes) && l.Valid()
      requires d.Some? ==> d.value < |nodes|
      modifies l
      ensures l.Valid()
      ensures l.Strings() == old(l.Strings()) + (if d.Some? then ValuesNamed(nodes, d.value, prefix) else [])
      decreases if d.Some? then |nodes| - d.value else 0
    {
      if d.None? {
        return;
      }
      var k := d.value;
      ghost var before := l.Strings();
      var hit := nodes[k].value.Some? && prefix <= nodes[k].name.value;
      if hit {
        l.Append(nodes[k].value.value);
      }
      ghost var here: seq<seq<byte>> := if hit then [nodes[k].value.value] else [];
      ghost var mid := l.Strings();
      assert mid == before + here;
      var nx := GetLogNext(k);
      ghost var rest := ValuesNamed(nodes, k + 1, prefix);
      assert nx.None? ==> rest == [];
      FilterValuesByName(nx, l, prefix);
      assert l.Strings() == mid + rest;
      assert ValuesNamed(nodes, k, prefix) == here + rest;
      SeqAssoc(before, here, rest);
    }

    /**
     * ff_datanode_filter_names_by_value: from `d` on, following logical
     * successors, appends the name of every node whose value starts with
     * `prefix`.
     */
    method FilterNamesByValue(d: Option<nat>, l: StringList, prefix: seq<byte>)
      requires ParentsBefore(nodes) && Preorder(nodes) && ValuedNamed(nodes) && l.Valid()
      requires d.Some? ==> d.value < |nodes|
      modifies l
      ensures l.Valid()
      ensures l.Strings() == old(l.Strings()) + (if d.Some? then NamesValued(nodes, d.value, prefix) else [])
      decreases if d.Some? then |nodes| - d.value else 0
    {
      if d.None? {
        return;
      }
      var k := d.value;
      ghost var before := l.Strings();
      var hit := nodes[k].value.Some? && prefix <= nodes[k].value.value;
      if hit {
        l.Append(nodes[k].name.value);
      }
      ghost var here: seq<seq<byte>> := if hit then [nodes[k].name.value] else [];
      ghost var mid := l.Strings();
      assert mid == before + here;
      var nx := GetLogNext(k);
      ghost var rest := NamesValued(nodes, k + 1, prefix);
      assert nx.None? ==> rest == [];
      FilterNamesByValue(nx, l, prefix);
      assert l.Strings() == mid + rest;
      assert NamesValued(nodes, k, prefix) == here + rest;
      SeqAssoc(before, here, rest);
    }
  }

  /**
   * ff_datanode_tree_from_ini: reads bytes until a NUL or the end. A newline
   * starts a next sibling; after `#` the rest of the line is skipped; `[`
   * climbs to the parent, if any, and starts its next sibling; `]` starts a
   * child; `=` turns to the value; any other byte extends the string being
   * built, which the first byte after a newline, bracket or `=` starts
   * afresh. A value begun on a node without name is stored as its name.
   */
  method TreeFromIni(input: seq<byte>) returns (t: DataTree)
    ensures fresh(t) && t.Valid()
  {
    t := new DataTree();
    var d := 0;
    var toValue := false;
    var restart := true;
    var live := true;
    var i := 0;
    while i < |input|
      invariant t.Valid() && d == |t.nodes| - 1
      invariant !restart && toValue ==> t.nodes[d].value.Some?
      invariant !restart && !toValue ==> t.nodes[d].name.Some?
    {
      var c := input[i];
      i := i + 1;
      if c == NUL {
        break;
      }
      if c == NEWLINE {
        AddNextKeepsShape(t.nodes, d);
        d := t.MkNext(d);
        toValue, restart, live := false, true, true;
      } else if !live {
      } else if c == HASH {
        live := false;
      } else if c == LBRACKET {
        if t.nodes[d].parent.Some? {
          d := t.nodes[d].parent.value;
        }
        AddNextKeepsShape(t.nodes, d);
        d := t.MkNext(d);
        toValue, restart := false, true;
      } else if c == RBRACKET {
        AddChildKeepsShape(t.nodes);
        d := t.MkChild(d);
        toValue, restart := false, true;
      } else if c == EQUALS {
        toValue, restart := true, true;
      } else {
        var n := t.nodes[d];
        if toValue && n.value.None? && n.name.None? {
          toValue := false;
        }
        var name, value := n.name, n.value;
        assert CleanText([c]);
        if toValue {
          value := Some(if restart then [c] else n.value.value + [c]);
        } else {
          name := Some(if restart then [c] else n.name.value + [c]);
        }
        SetStringsKeepsShape(t.nodes, d, name, value);
        t.nodes := t.nodes[d := n.(name := name, value := value)];
        restart := false;
      }
    }
  }
}
