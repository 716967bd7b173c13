/**
 * The reversed-label tree `TreeNode` and its `add_child`
 * (app/tree_processing/tree_processing.py, lines 46-114).
 *
 * The nodes of one tree live in a list; a node's `children` holds the
 * positions of its child nodes in that list, position 0 is the root, and a
 * node is only ever appended after its parent.
 */
module LabelTree {
  import opened Wrappers
  import opened Text

  /** One `TreeNode`: its label, cached length, child list and stored parent path. */
  datatype Node = Node(text: Option<string>, length: nat, children: Option<seq<nat>>, parent: string)

  function TextLength(text: Option<string>): nat {
    if text.Some? then |text.value| else 0
  }

  /** `TreeNode.__init__(text=text, children=children, parent=parent)`. */
  function MakeNode(text: Option<string>, children: Option<seq<nat>>, parent: Option<string>): (n: Node)
    ensures n.text == text && n.children == children
    ensures n.length == (if text.None? then 0 else |text.value|)
    ensures n.parent == (if parent.None? then "" else parent.value)
  {
    Node(text, TextLength(text), children, if parent.None? then "" else parent.value)
  }

  /** The node `TreeNode()` that `extract_patterns` starts from. */
  const Root: Node := MakeNode(None, None, None)

  /** The child positions of a node; no list reads as no children. */
  function Kids(n: Node): seq<nat> {
    if n.children.Some? then n.children.value else []
  }

  /**
   * The path that `add_child` stores in a new child of `n`: the parent's own path,
   * extended by `"." + text` when the parent has a non-empty text.
   */
  function ChildPath(n: Node): string {
    if n.text.Some? && n.text.value != "" then n.parent + "." + n.text.value else n.parent
  }

  /** Child positions point forward, into the list. */
  predicate WellFormed(ns: seq<Node>) {
    |ns| > 0 &&
    forall i, k :: 0 <= i < |ns| && 0 <= k < |Kids(ns[i])| ==> i < Kids(ns[i])[k] < |ns|
  }

  predicate DistinctSiblings(ns: seq<Node>)
    requires WellFormed(ns)
  {
    forall i, a, b :: 0 <= i < |ns| && 0 <= a < b < |Kids(ns[i])| ==>
      ns[Kids(ns[i])[a]].text != ns[Kids(ns[i])[b]].text
  }

  predicate PathsStored(ns: seq<Node>)
    requires WellFormed(ns)
  {
    forall i, a :: 0 <= i < |ns| && 0 <= a < |Kids(ns[i])| ==> ns[Kids(ns[i])[a]].parent == ChildPath(ns[i])
  }

  /** No node is the child of two nodes. */
  predicate UniqueParents(ns: seq<Node>)
    requires WellFormed(ns)
  {
    forall i, j, c :: 0 <= i < j < |ns| && c in Kids(ns[i]) ==> c !in Kids(ns[j])
  }

  /** The invariant of a tree built from the root by `add_child`. */
  predicate ValidTree(ns: seq<Node>) {
    WellFormed(ns) &&
    ns[0].text == None && ns[0].parent == "" &&
    (forall i :: 0 < i < |ns| ==> ns[i].text.Some?) &&
    (forall i :: 0 <= i < |ns| ==> ns[i].length == TextLength(ns[i].text)) &&
    (forall i :: 0 <= i < |ns| ==> ns[i].children != Some([])) &&
    DistinctSiblings(ns) && PathsStored(ns) && UniqueParents(ns)
  }

  /** The first position in `kids` whose node has the text `p`. */
  function FindFirst(ns: seq<Node>, kids: seq<nat>, p: string): (r: Option<nat>)
    requires forall k :: 0 <= k < |kids| ==> kids[k] < |ns|
    ensures r.Some? ==> r.value in kids && ns[r.value].text == Some(p)
    ensures r.None? ==> forall k :: 0 <= k < |kids| ==> ns[kids[k]].text != Some(p)
  {
    if kids == [] then None
    else
      var found := FindFirst(ns, kids[..|kids| - 1], p);
      if found.Some? then found
      else if ns[kids[|kids| - 1]].text == Some(p) then Some(kids[|kids| - 1])
      else None
  }

  /** The child of node `i` whose label is `p`, if there is one. */
  function FindChild(ns: seq<Node>, i: nat, p: string): (r: Option<nat>)
    requires WellFormed(ns) && i < |ns|
    ensures r.Some? ==> i < r.value < |ns| && r.value in Kids(ns[i]) && ns[r.value].text == Some(p)
    ensures r.None? ==> forall k :: 0 <= k < |Kids(ns[i])| ==> ns[Kids(ns[i])[k]].text != Some(p)
  {
    FindFirst(ns, Kids(ns[i]), p)
  }

  /** A new child labelled `p`, appended to the children of node `start`. */
  function Attach(ns: seq<Node>, start: nat, p: string): (ms: seq<Node>)
    requires WellFormed(ns) && start < |ns|
    ensures WellFormed(ms) && |ms| == |ns| + 1
  {
    var n := ns[start];
    var child := MakeNode(Some(p), None, Some(ChildPath(n)));
    var children := if n.children.Some? then Some(n.children.value + [|ns|]) else Some([|ns|]);
    var ms := ns[start := n.(children := children)] + [child];
    assert forall i :: 0 <= i < |ns| && i != start ==> ms[i] == ns[i];
    assert Kids(ms[start]) == Kids(n) + [|ns|];
    ms
  }

  /**
   * What `add_child(parts)` does below node `start`: consume `rest` from its last
   * element, descending into the child with that label or creating it.
   */
  function InsertFrom(ns: seq<Node>, start: nat, rest: seq<string>): (ms: seq<Node>)
    requires WellFormed(ns) && start < |ns|
    ensures WellFormed(ms) && |ms| >= |ns|
    decreases |rest|
  {
    if rest == [] then ns
    else
      var p := rest[|rest| - 1];
      var found := FindChild(ns, start, p);
      if found.Some? then InsertFrom(ns, found.value, rest[..|rest| - 1])
      else InsertFrom(Attach(ns, start, p), |ns|, rest[..|rest| - 1])
  }

  /** The node reached from node `i` by following the labels `ls`, first label first. */
  function Follow(ns: seq<Node>, i: nat, ls: seq<string>): (r: Option<nat>)
    requires WellFormed(ns) && i < |ns|
    ensures r.Some? ==> r.value < |ns|
    decreases |ls|
  {
    if ls == [] then Some(i)
    else
      var c := FindChild(ns, i, ls[0]);
      if c.None? then None else Follow(ns, c.value, ls[1..])
  }

  /**
   * `ms` is `ns` grown by `add_child`: every old node keeps its text, length and
   * path, and its child list only gains new nodes at its end.
   */
  predicate Extends(ns: seq<Node>, ms: seq<Node>) {
    |ns| <= |ms| &&
    forall i :: 0 <= i < |ns| ==>
      ms[i].text == ns[i].text && ms[i].length == ns[i].length && ms[i].parent == ns[i].parent &&
      Kids(ns[i]) <= Kids(ms[i]) &&
      forall k :: |Kids(ns[i])| <= k < |Kids(ms[i])| ==> Kids(ms[i])[k] >= |ns|
  }

  lemma ExtendsTransitive(ns: seq<Node>, ms: seq<Node>, ls: seq<Node>)
    requires Extends(ns, ms) && Extends(ms, ls)
    ensures Extends(ns, ls)
  {
    forall i | 0 <= i < |ns|
      ensures forall k :: |Kids(ns[i])| <= k < |Kids(ls[i])| ==> Kids(ls[i])[k] >= |ns|
    {
      forall k | |Kids(ns[i])| <= k < |Kids(ls[i])| ensures Kids(ls[i])[k] >= |ns| {
        if k < |Kids(ms[i])| {
          assert Kids(ls[i])[k] == Kids(ms[i])[k];
        }
      }
    }
  }

  lemma AttachExtends(ns: seq<Node>, start: nat, p: string)
    requires WellFormed(ns) && start < |ns|
    ensures Extends(ns, Attach(ns, start, p))
  {
    var ms := Attach(ns, start, p);
    AttachShape(ns, start, p);
    forall i | 0 <= i < |ns|
      ensures ms[i].text == ns[i].text && ms[i].length == ns[i].length && ms[i].parent == ns[i].parent
      ensures Kids(ns[i]) <= Kids(ms[i])
      ensures forall k :: |Kids(ns[i])| <= k < |Kids(ms[i])| ==> Kids(ms[i])[k] >= |ns|
    {
      if i != start {
        AttachOther(ns, start, p, i);
      }
    }
  }

  /** What `Attach` changes: one child list grows by the new last node. */
  lemma AttachShape(ns: seq<Node>, start: nat, p: string)
    requires WellFormed(ns) && start < |ns|
    ensures var ms := Attach(ns, start, p);
      Kids(ms[start]) == Kids(ns[start]) + [|ns|] && Kids(ms[|ns|]) == [] &&
      ms[start].text == ns[start].text && ms[start].parent == ns[start].parent &&
      ms[start].length == ns[start].length && ms[start].children.Some? &&
      ChildPath(ms[start]) == ChildPath(ns[start]) &&
      ms[|ns|] == MakeNode(Some(p), None, Some(ChildPath(ns[start])))
  {
  }

  /** `Attach` leaves every other existing node alone. */
  lemma AttachOther(ns: seq<Node>, start: nat, p: string, i: nat)
    requires WellFormed(ns) && start < |ns| && i < |ns| && i != start
    ensures Attach(ns, start, p)[i] == ns[i]
  {
  }

  lemma AttachDistinct(ns: seq<Node>, start: nat, p: string)
    requires WellFormed(ns) && start < |ns| && DistinctSiblings(ns) && FindChild(ns, start, p).None?
    ensures DistinctSiblings(Attach(ns, start, p))
  {
    var ms := Attach(ns, start, p);
    AttachShape(ns, start, p);
    forall i, a, b | 0 <= i < |ms| && 0 <= a < b < |Kids(ms[i])|
      ensures ms[Kids(ms[i])[a]].text != ms[Kids(ms[i])[b]].text
    {
      if i == start {
        var x := Kids(ns[start])[a];
        assert Kids(ms[i])[a] == x;
        if x != start { AttachOther(ns, start, p, x); }
        if b < |Kids(ns[start])| {
          var y := Kids(ns[start])[b];
          assert Kids(ms[i])[b] == y;
          if y != start { AttachOther(ns, start, p, y); }
        } else {
          assert Kids(ms[i])[b] == |ns|;
          assert ns[x].text != Some(p);
        }
      } else if i < |ns| {
        AttachOther(ns, start, p, i);
        var x := Kids(ns[i])[a];
        var y := Kids(ns[i])[b];
        if x != start { AttachOther(ns, start, p, x); }
        if y != start { AttachOther(ns, start, p, y); }
      }
    }
  }

  lemma AttachPaths(ns: seq<Node>, start: nat, p: string)
    requires WellFormed(ns) && start < |ns| && PathsStored(ns)
    ensures PathsStored(Attach(ns, start, p))
  {
    var ms := Attach(ns, start, p);
    AttachShape(ns, start, p);
    forall i, a | 0 <= i < |ms| && 0 <= a < |Kids(ms[i])|
      ensures ms[Kids(ms[i])[a]].parent == ChildPath(ms[i])
    {
      if i == start {
        if a < |Kids(ns[start])| {
          var x := Kids(ns[start])[a];
          assert Kids(ms[i])[a] == x;
          if x != start { AttachOther(ns, start, p, x); }
        } else {
          assert Kids(ms[i])[a] == |ns|;
        }
      } else if i < |ns| {
        AttachOther(ns, start, p, i);
        var x := Kids(ns[i])[a];
        if x != start { AttachOther(ns, start, p, x); }
      }
    }
  }

  lemma AttachUnique(ns: seq<Node>, start: nat, p: string)
    requires WellFormed(ns) && start < |ns| && UniqueParents(ns)
    ensures UniqueParents(Attach(ns, start, p))
  {
    var ms := Attach(ns, start, p);
    var n := |ns|;
    AttachShape(ns, start, p);
    forall i, j, c | 0 <= i < j < |ms| && c in Kids(ms[i])
      ensures c !in Kids(ms[j])
    {
      if j < n {
        if i != start { AttachOther(ns, start, p, i); }
        if j != start { AttachOther(ns, start, p, j); }
        assert Kids(ms[j]) == if j == start then Kids(ns[j]) + [n] else Kids(ns[j]);
        assert Kids(ms[i]) == if i == start then Kids(ns[i]) + [n] else Kids(ns[i]);
        if c == n {
          assert c !in Kids(ns[j]);
          assert i == start;
        } else {
          assert c in Kids(ns[i]);
        }
      }
    }
  }

  /** Attaching a label that is not yet among the children keeps the tree valid. */
  lemma AttachValid(ns: seq<Node>, start: nat, p: string)
    requires ValidTree(ns) && start < |ns| && FindChild(ns, start, p).None?
    ensures ValidTree(Attach(ns, start, p))
  {
    var ms := Attach(ns, start, p);
    AttachShape(ns, start, p);
    forall i | 0 <= i < |ms|
      ensures (0 < i ==> ms[i].text.Some?) && ms[i].length == TextLength(ms[i].text) && ms[i].children != Some([])
    {
      if i < |ns| && i != start {
        AttachOther(ns, start, p, i);
      }
    }
    AttachDistinct(ns, start, p);
    AttachPaths(ns, start, p);
    AttachUnique(ns, start, p);
  }

  /** `add_child` keeps the tree invariant, sibling labels pairwise distinct included. */
  lemma {:induction false} InsertValid(ns: seq<Node>, start: nat, rest: seq<string>)
    requires ValidTree(ns) && start < |ns|
    ensures ValidTree(InsertFrom(ns, start, rest))
    decreases |rest|
  {
    if rest != [] {
      var p := rest[|rest| - 1];
      var found := FindChild(ns, start, p);
      if found.Some? {
        InsertValid(ns, found.value, rest[..|rest| - 1]);
      } else {
        AttachValid(ns, start, p);
        InsertValid(Attach(ns, start, p), |ns|, rest[..|rest| - 1]);
      }
    }
  }

  /** `add_child` leaves the existing nodes as they were and only appends children. */
  lemma {:induction false} InsertExtends(ns: seq<Node>, start: nat, rest: seq<string>)
    requires WellFormed(ns) && start < |ns|
    ensures Extends(ns, InsertFrom(ns, start, rest))
    decreases |rest|
  {
    if rest != [] {
      var p := rest[|rest| - 1];
      var found := FindChild(ns, start, p);
      if found.Some? {
        InsertExtends(ns, found.value, rest[..|rest| - 1]);
      } else {
        var ms := Attach(ns, start, p);
        AttachExtends(ns, start, p);
        InsertExtends(ms, |ns|, rest[..|rest| - 1]);
        ExtendsTransitive(ns, ms, InsertFrom(ms, |ns|, rest[..|rest| - 1]));
      }
    }
  }

  lemma {:induction false} FindFirstPrefix(ns: seq<Node>, ms: seq<Node>, xs: seq<nat>, ys: seq<nat>, p: string)
    requires forall k :: 0 <= k < |xs| ==> xs[k] < |ns| && xs[k] < |ms| && ms[xs[k]].text == ns[xs[k]].text
    requires forall k :: 0 <= k < |ys| ==> ys[k] < |ms|
    requires FindFirst(ns, xs, p).Some?
    ensures FindFirst(ms, xs + ys, p) == FindFirst(ns, xs, p)
    decreases |ys|
  {
    if ys == [] {
      assert xs + ys == xs;
      FindFirstSame(ns, ms, xs, p);
    } else {
      assert (xs + ys)[..|xs + ys| - 1] == xs + ys[..|ys| - 1];
      FindFirstPrefix(ns, ms, xs, ys[..|ys| - 1], p);
    }
  }

  lemma {:induction false} FindFirstSame(ns: seq<Node>, ms: seq<Node>, xs: seq<nat>, p: string)
    requires forall k :: 0 <= k < |xs| ==> xs[k] < |ns| && xs[k] < |ms| && ms[xs[k]].text == ns[xs[k]].text
    ensures FindFirst(ms, xs, p) == FindFirst(ns, xs, p)
  {
    if xs != [] {
      FindFirstSame(ns, ms, xs[..|xs| - 1], p);
    }
  }

  /** A child found before `add_child` is still the one found after it. */
  lemma FindChildExtends(ns: seq<Node>, ms: seq<Node>, i: nat, p: string)
    requires WellFormed(ns) && WellFormed(ms) && Extends(ns, ms) && i < |ns|
    requires FindChild(ns, i, p).Some?
    ensures FindChild(ms, i, p) == FindChild(ns, i, p)
  {
    var xs := Kids(ns[i]);
    var ys := Kids(ms[i])[|xs|..];
    assert Kids(ms[i]) == xs + ys;
    FindFirstPrefix(ns, ms, xs, ys, p);
  }

  /** A label path that exists before `add_child` exists, to the same node, after it. */
  lemma {:induction false} FollowExtends(ns: seq<Node>, ms: seq<Node>, i: nat, ls: seq<string>)
    requires WellFormed(ns) && WellFormed(ms) && Extends(ns, ms) && i < |ns|
    requires Follow(ns, i, ls).Some?
    ensures Follow(ms, i, ls) == Follow(ns, i, ls)
    decreases |ls|
  {
    if ls != [] {
      FindChildExtends(ns, ms, i, ls[0]);
      FollowExtends(ns, ms, FindChild(ns, i, ls[0]).value, ls[1..]);
    }
  }

  /** After `add_child(parts)`, the labels of `parts` read last to first form a path. */
  lemma {:induction false} InsertReaches(ns: seq<Node>, start: nat, rest: seq<string>)
    requires WellFormed(ns) && start < |ns|
    ensures Follow(InsertFrom(ns, start, rest), start, Reverse(rest)).Some?
    decreases |rest|
  {
    if rest != [] {
      var p := rest[|rest| - 1];
      var init := rest[..|rest| - 1];
      var found := FindChild(ns, start, p);
      var ms := InsertFrom(ns, start, rest);
      assert Reverse(rest) == [p] + Reverse(init);
      assert Reverse(rest)[1..] == Reverse(init);
      if found.Some? {
        InsertReaches(ns, found.value, init);
        InsertExtends(ns, found.value, init);
        FindChildExtends(ns, ms, start, p);
      } else {
        var grown := Attach(ns, start, p);
        assert FindChild(grown, start, p) == Some(|ns|) by {
          var kids := Kids(grown[start]);
          assert kids[..|kids| - 1] == Kids(ns[start]);
          FindFirstSame(ns, grown, Kids(ns[start]), p);
        }
        InsertReaches(grown, |ns|, init);
        InsertExtends(grown, |ns|, init);
        FindChildExtends(grown, ms, start, p);
      }
    }
  }

  /** Inserting a label path that already exists changes nothing. */
  lemma {:induction false} InsertExisting(ns: seq<Node>, start: nat, rest: seq<string>)
    requires WellFormed(ns) && start < |ns|
    requires Follow(ns, start, Reverse(rest)).Some?
    ensures InsertFrom(ns, start, rest) == ns
    decreases |rest|
  {
    if rest != [] {
      var p := rest[|rest| - 1];
      var init := rest[..|rest| - 1];
      assert Reverse(rest) == [p] + Reverse(init);
      assert Reverse(rest)[1..] == Reverse(init);
      InsertExisting(ns, FindChild(ns, start, p).value, init);
    }
  }

  /** `add_child` changes the tree exactly when the label path is not there yet. */
  lemma InsertChangesIff(ns: seq<Node>, start: nat, rest: seq<string>)
    requires WellFormed(ns) && start < |ns|
    ensures InsertFrom(ns, start, rest) == ns <==> Follow(ns, start, Reverse(rest)).Some?
  {
    if InsertFrom(ns, start, rest) == ns {
      InsertReaches(ns, start, rest);
    } else if Follow(ns, start, Reverse(rest)).Some? {
      InsertExisting(ns, start, rest);
    }
  }

  /** The piece of a stored path that a label contributes: nothing for an empty label. */
  function Segment(l: string): string {
    if l == "" then "" else "." + l
  }

  /** The path stored below the labels `ls`, read from the root (the top-level domain first). */
  function PathString(ls: seq<string>): string {
    if ls == [] then "" else Segment(ls[0]) + PathString(ls[1..])
  }

  /** The non-empty labels of `ls`, in order. */
  function NonEmpty(ls: seq<string>): (r: seq<string>)
    ensures forall k :: 0 <= k < |r| ==> r[k] != "" && r[k] in ls
  {
    if ls == [] then []
    else if ls[|ls| - 1] == "" then NonEmpty(ls[..|ls| - 1])
    else NonEmpty(ls[..|ls| - 1]) + [ls[|ls| - 1]]
  }

  lemma {:induction false} PathStringAppend(ls: seq<string>, l: string)
    ensures PathString(ls + [l]) == PathString(ls) + Segment(l)
  {
    if ls != [] {
      assert (ls + [l])[1..] == ls[1..] + [l];
      PathStringAppend(ls[1..], l);
    }
  }

  /** Following one more label is one more child lookup. */
  lemma {:induction false} FollowAppend(ns: seq<Node>, i: nat, ls: seq<string>, l: string)
    requires WellFormed(ns) && i < |ns|
    ensures Follow(ns, i, ls + [l]) ==
      if Follow(ns, i, ls).None? then None else FindChild(ns, Follow(ns, i, ls).value, l)
    decreases |ls|
  {
    if ls == [] {
      assert ([] + [l])[1..] == [];
    } else {
      assert (ls + [l])[0] == ls[0];
      assert (ls + [l])[1..] == ls[1..] + [l];
      var c := FindChild(ns, i, ls[0]);
      if c.Some? {
        FollowAppend(ns, c.value, ls[1..], l);
      }
    }
  }

  lemma ChildPathOf(n: Node, above: string, l: string)
    requires n.parent == above && n.text == Some(l)
    ensures ChildPath(n) == above + Segment(l)
  {
  }

  lemma StoredPath(ns: seq<Node>, i: nat, c: nat)
    requires WellFormed(ns) && PathsStored(ns) && i < |ns| && c in Kids(ns[i])
    ensures ns[c].parent == ChildPath(ns[i])
  {
    var k :| 0 <= k < |Kids(ns[i])| && Kids(ns[i])[k] == c;
  }

  /**
   * The path handed on by the node reached by the labels `ls` is the path
   * handed on by its start node, followed by every non-empty label of `ls`
   * with a dot in front.
   */
  lemma {:induction false} FollowPath(ns: seq<Node>, i: nat, ls: seq<string>)
    requires WellFormed(ns) && PathsStored(ns) && i < |ns|
    requires Follow(ns, i, ls).Some?
    ensures ChildPath(ns[Follow(ns, i, ls).value]) == ChildPath(ns[i]) + PathString(ls)
    decreases |ls|
  {
    if ls != [] {
      var c := FindChild(ns, i, ls[0]).value;
      StoredPath(ns, i, c);
      var above := ChildPath(ns[i]);
      var here := ChildPath(ns[c]);
      assert here == above + Segment(ls[0]) by {
        ChildPathOf(ns[c], above, ls[0]);
      }
      assert Follow(ns, i, ls) == Follow(ns, c, ls[1..]);
      FollowPath(ns, c, ls[1..]);
      assert PathString(ls) == Segment(ls[0]) + PathString(ls[1..]);
      assert here + PathString(ls[1..]) == above + (Segment(ls[0]) + PathString(ls[1..]));
    }
  }

  /**
   * The node reached from the root by a non-empty label path carries the last
   * label and stores the path of the labels above it.
   */
  lemma NodeOfPath(ns: seq<Node>, ls: seq<string>)
    requires ValidTree(ns) && ls != [] && Follow(ns, 0, ls).Some?
    ensures ns[Follow(ns, 0, ls).value].text == Some(ls[|ls| - 1])
    ensures ns[Follow(ns, 0, ls).value].parent == PathString(ls[..|ls| - 1])
  {
    var init := ls[..|ls| - 1];
    assert ls == init + [ls[|ls| - 1]];
    FollowAppend(ns, 0, init, ls[|ls| - 1]);
    var above := Follow(ns, 0, init).value;
    FollowPath(ns, 0, init);
    StoredPath(ns, above, Follow(ns, 0, ls).value);
  }

  /** Splitting a stored path on dots gives a leading empty segment, then its non-empty labels. */
  lemma {:induction false} SplitPathString(ls: seq<string>)
    requires forall k :: 0 <= k < |ls| ==> DotFree(ls[k])
    ensures Split(PathString(ls)) == [""] + NonEmpty(ls)
  {
    if ls != [] {
      var init := ls[..|ls| - 1];
      var l := ls[|ls| - 1];
      assert ls == init + [l];
      PathStringAppend(init, l);
      SplitPathString(init);
      if l != "" {
        SplitAppendSegment(PathString(init), l);
        assert PathString(init) + Segment(l) == PathString(init) + "." + l;
      } else {
        assert PathString(ls) == PathString(init);
      }
    }
  }

  /** `TreeNode()` together with every node added below it. */
  class LabelTree {
    var nodes: seq<Node>

    predicate Valid()
      reads this
    {
      ValidTree(nodes)
    }

    /** `root = TreeNode()`. */
    constructor ()
      ensures Valid() && nodes == [Root]
    {
      nodes := [Root];
    }

    /**
     * The scan of node `start`'s children that `add_child` performs: the
     * first child of node `start` labelled `p`.
     */
    method SearchChildren(start: nat, p: string) returns (found: Option<nat>)
      requires Valid() && start < |nodes| && nodes[start].children.Some?
      ensures found == FindChild(nodes, start, p)
    {
      var kids := nodes[start].children.value;
      assert kids == Kids(nodes[start]);
      assert forall k :: 0 <= k < |kids| ==> kids[k] < |nodes|;
      found := None;
      for k := 0 to |kids|
        invariant found == FindFirst(nodes, kids[..k], p)
      {
        assert kids[..k + 1][..k] == kids[..k];
        if found.None? && nodes[kids[k]].text == Some(p) {
          found := Some(kids[k]);
        }
      }
      assert kids[..|kids|] == kids;
    }

    /**
     * The branch of `add_child` that finds no child labelled `p`: build the new
     * node with the parent's stored path and append it to the parent's children.
     */
    method AppendChild(start: nat, p: string)
      requires Valid() && start < |nodes| && FindChild(nodes, start, p).None?
      modifies this
      ensures Valid() && nodes == Attach(old(nodes), start, p)
    {
      var n := nodes[start];
      var parent := n.parent;
      if n.text.Some? && n.text.value != "" {
        parent := Join([parent, n.text.value]);
        assert [n.parent] + [n.text.value] == [n.parent, n.text.value];
        JoinAppend([n.parent], n.text.value);
      }
      assert parent == ChildPath(n);
      var child := MakeNode(Some(p), None, Some(parent));
      var children := if n.children.Some? then Some(n.children.value + [|nodes|]) else Some([|nodes|]);
      AttachValid(nodes, start, p);
      nodes := nodes[start := n.(children := children)] + [child];
    }

    /** One step of `InsertFrom`, as the loop of `add_child` takes it. */
    static lemma InsertStep(ns: seq<Node>, start: nat, rest: seq<string>)
      requires WellFormed(ns) && start < |ns| && rest != []
      ensures var p := rest[|rest| - 1];
        var found := FindChild(ns, start, p);
        InsertFrom(ns, start, rest) ==
          if found.Some? then InsertFrom(ns, found.value, rest[..|rest| - 1])
          else InsertFrom(Attach(ns, start, p), |ns|, rest[..|rest| - 1])
    {
    }

    /**
     * `root.add_child(parts)`: walk a cursor down from the root, consuming
     * `parts` from its last element; the recursive call on a matching child
     * continues the same walk from that child.
     */
    method AddChild(parts: seq<string>)
      requires Valid()
      modifies this
      ensures Valid()
      ensures nodes == InsertFrom(old(nodes), 0, parts)
    {
      var start: nat := 0;
      var rest := parts;
      while |rest| > 0
        invariant Valid() && start < |nodes|
        invariant InsertFrom(nodes, start, rest) == InsertFrom(old(nodes), 0, parts)
        decreases |rest|
      {
        var p := rest[|rest| - 1];
        var found: Option<nat> := None;
        if nodes[start].children.Some? {
          found := SearchChildren(start, p);
        } else {
          assert Kids(nodes[start]) == [];
        }
        InsertStep(nodes, start, rest);
        if found.Some? {
          start := found.value;
        } else {
          var n := |nodes|;
          AppendChild(start, p);
          start := n;
        }
        rest := rest[..|rest| - 1];
      }
    }
  }
}
