/**
 * The sibling-group classifier `analyze_group`, the breadth-first miner
 * `analyze_tree` and the entry point `extract_patterns`
 * (app/tree_processing/tree_processing.py, lines 160-180 and 194-235).
 */
module Mining {
  import opened Wrappers
  import opened Text
  import opened LabelTree
  import opened Regexp

  // ---------------------------------------------------------------------------
  // analyze_group

  /** The number of nodes of `group` whose cached length is `m`. */
  function Count(group: seq<Node>, m: nat): nat {
    if group == [] then 0
    else Count(group[..|group| - 1], m) + (if group[|group| - 1].length == m then 1 else 0)
  }

  /** Some node of `group` has a non-empty child list. */
  predicate SomeHasChildren(group: seq<Node>) {
    exists k :: 0 <= k < |group| && Kids(group[k]) != []
  }

  lemma {:induction false} CountPositive(group: seq<Node>, m: nat)
    ensures Count(group, m) > 0 <==> exists k :: 0 <= k < |group| && group[k].length == m
  {
    if group != [] {
      var init := group[..|group| - 1];
      CountPositive(init, m);
      if exists k :: 0 <= k < |init| && init[k].length == m {
        var k :| 0 <= k < |init| && init[k].length == m;
        assert group[k].length == m;
      }
      if exists k :: 0 <= k < |group| && group[k].length == m {
        var k :| 0 <= k < |group| && group[k].length == m;
        if k < |init| { assert init[k].length == m; }
      }
    }
  }

  /** `analyze_group(group)` is non-empty: all are leaves and some length repeats. */
  predicate Qualifies(group: seq<Node>) {
    !SomeHasChildren(group) && exists k :: 0 <= k < |group| && Count(group, group[k].length) >= 2
  }

  /**
   * `analyze_group(group)`: the length histogram restricted to the counts other
   * than one, or nothing at all when some node of the group has children.
   */
  method AnalyzeGroup(group: seq<Node>) returns (subgroups: map<nat, nat>)
    ensures forall m :: m in subgroups <==> !SomeHasChildren(group) && Count(group, m) >= 2
    ensures forall m :: m in subgroups ==> subgroups[m] == Count(group, m)
  {
    var hasChildren := false;
    var sizes: map<nat, nat> := map[];
    for i := 0 to |group|
      invariant forall m :: m in sizes <==> Count(group[..i], m) > 0
      invariant forall m :: m in sizes ==> sizes[m] == Count(group[..i], m)
      invariant hasChildren <==> SomeHasChildren(group[..i])
    {
      var node := group[i];
      assert group[..i + 1][..i] == group[..i];
      assert SomeHasChildren(group[..i + 1]) <==> SomeHasChildren(group[..i]) || Kids(node) != [] by {
        if SomeHasChildren(group[..i + 1]) {
          var k :| 0 <= k < i + 1 && Kids(group[..i + 1][k]) != [];
          if k < i { assert group[..i][k] == group[..i + 1][k]; }
        }
        if SomeHasChildren(group[..i]) {
          var k :| 0 <= k < i && Kids(group[..i][k]) != [];
          assert group[..i + 1][k] == group[..i][k];
        }
        assert group[..i + 1][i] == node;
      }
      if node.length !in sizes {
        sizes := sizes[node.length := 0];
      }
      sizes := sizes[node.length := sizes[node.length] + 1];
      if node.children.Some? && |node.children.value| > 0 {
        hasChildren := true;
      }
    }
    assert group[..|group|] == group;
    subgroups := map[];
    var pending := sizes.Keys;
    while pending != {}
      invariant pending <= sizes.Keys
      invariant forall m :: m in subgroups <==> m in sizes && m !in pending && sizes[m] != 1 && !hasChildren
      invariant forall m :: m in subgroups ==> subgroups[m] == sizes[m]
      decreases pending
    {
      var s :| s in pending;
      var num := sizes[s];
      if num != 1 && !hasChildren {
        subgroups := subgroups[s := num];
      }
      pending := pending - {s};
    }
  }

  /** The result of `analyze_group` is non-empty exactly when the group qualifies. */
  lemma SubgroupsNonEmpty(group: seq<Node>, subgroups: map<nat, nat>)
    requires forall m :: m in subgroups <==> !SomeHasChildren(group) && Count(group, m) >= 2
    ensures |subgroups| > 0 <==> Qualifies(group)
  {
    if |subgroups| > 0 {
      var m :| m in subgroups;
      CountPositive(group, m);
      var k :| 0 <= k < |group| && group[k].length == m;
    }
    if Qualifies(group) {
      var k :| 0 <= k < |group| && Count(group, group[k].length) >= 2;
      assert group[k].length in subgroups;
    }
  }

  // ---------------------------------------------------------------------------
  // The tree as seen by the traversal

  /** A node together with the subtrees of its children, in order. */
  datatype Trie = Trie(node: Node, kids: seq<Trie>)

  /** The subtree of the tree `ns` rooted at node `i`. */
  function Subtree(ns: seq<Node>, i: nat): (t: Trie)
    requires WellFormed(ns) && i < |ns|
    ensures t.node == ns[i] && |t.kids| == |Kids(ns[i])|
    decreases |ns| - i
  {
    var ks := Kids(ns[i]);
    Trie(ns[i], seq(|ks|, k requires 0 <= k < |ks| => Subtree(ns, ks[k])))
  }

  /** The subtrees rooted at the nodes `queue`. */
  function Subtrees(ns: seq<Node>, queue: seq<nat>): (ts: seq<Trie>)
    requires WellFormed(ns) && forall k :: 0 <= k < |queue| ==> queue[k] < |ns|
    ensures |ts| == |queue|
  {
    seq(|queue|, k requires 0 <= k < |queue| => Subtree(ns, queue[k]))
  }

  /** The number of nodes of a subtree. */
  function Size(t: Trie): nat
    decreases t
  {
    1 + ForestSize(t.kids)
  }

  /** The number of nodes of a forest. */
  function ForestSize(ts: seq<Trie>): nat
    decreases ts
  {
    if ts == [] then 0 else Size(ts[0]) + ForestSize(ts[1..])
  }

  lemma {:induction false} ForestSizeAppend(ts: seq<Trie>, us: seq<Trie>)
    ensures ForestSize(ts + us) == ForestSize(ts) + ForestSize(us)
  {
    if ts == [] {
      assert ts + us == us;
    } else {
      assert (ts + us)[0] == ts[0] && (ts + us)[1..] == ts[1..] + us;
      ForestSizeAppend(ts[1..], us);
    }
  }

  /** Removing a node from the front of a forest and adding its children. */
  lemma ForestSizeStep(t: Trie, ts: seq<Trie>)
    ensures ForestSize([t] + ts) == 1 + ForestSize(t.kids) + ForestSize(ts)
  {
    assert ([t] + ts)[0] == t && ([t] + ts)[1..] == ts;
  }

  /** The children of a forest's roots, forest by forest. */
  function AllKids(ts: seq<Trie>): seq<Trie> {
    if ts == [] then [] else ts[0].kids + AllKids(ts[1..])
  }

  lemma {:induction false} AllKidsSize(ts: seq<Trie>)
    ensures ForestSize(AllKids(ts)) + |ts| == ForestSize(ts)
  {
    if ts != [] {
      AllKidsSize(ts[1..]);
      ForestSizeAppend(ts[0].kids, AllKids(ts[1..]));
      assert ts == [ts[0]] + ts[1..];
      ForestSizeStep(ts[0], ts[1..]);
    }
  }

  /** Breadth-first order by levels: the forest, then its children's level order. */
  function LevelOrder(ts: seq<Trie>): seq<Trie>
    decreases ForestSize(ts)
  {
    if ts == [] then []
    else
      AllKidsSize(ts);
      ts + LevelOrder(AllKids(ts))
  }

  /** The order in which a FIFO queue initialised with `q` pops subtrees. */
  function Fifo(q: seq<Trie>): seq<Trie>
    decreases ForestSize(q)
  {
    if q == [] then []
    else
      ForestSizeStep(q[0], q[1..]);
      ForestSizeAppend(q[1..], q[0].kids);
      assert q == [q[0]] + q[1..];
      [q[0]] + Fifo(q[1..] + q[0].kids)
  }

  /** Popping the head of a non-empty queue. */
  lemma FifoHead(q: seq<Trie>)
    requires q != []
    ensures Fifo(q) == [q[0]] + Fifo(q[1..] + q[0].kids)
  {
  }

  lemma {:induction false} FifoSplit(f: seq<Trie>, g: seq<Trie>)
    ensures Fifo(f + g) == f + Fifo(g + AllKids(f))
    decreases |f|
  {
    if f == [] {
      assert f + g == g && g + AllKids(f) == g;
    } else {
      var x := f[0];
      var rest := f[1..];
      assert f + g == [x] + (rest + g);
      assert (f + g)[0] == x && (f + g)[1..] == rest + g;
      FifoHead(f + g);
      FifoSplit(rest, g + x.kids);
      assert rest + g + x.kids == rest + (g + x.kids);
      assert AllKids(f) == x.kids + AllKids(rest);
      assert g + x.kids + AllKids(rest) == g + AllKids(f);
      assert [x] + (rest + Fifo(g + AllKids(f))) == f + Fifo(g + AllKids(f));
    }
  }

  /** The FIFO queue of `analyze_tree` pops the subtrees level by level. */
  lemma {:induction false} FifoIsLevelOrder(ts: seq<Trie>)
    ensures Fifo(ts) == LevelOrder(ts)
    decreases ForestSize(ts)
  {
    if ts != [] {
      FifoSplit(ts, []);
      assert ts + [] == ts && [] + AllKids(ts) == AllKids(ts);
      AllKidsSize(ts);
      FifoIsLevelOrder(AllKids(ts));
    }
  }

  /** The level order visits every node of a forest, one visit per node. */
  lemma {:induction false} LevelOrderVisitsAll(ts: seq<Trie>)
    ensures |LevelOrder(ts)| == ForestSize(ts)
    decreases ForestSize(ts)
  {
    if ts != [] {
      AllKidsSize(ts);
      LevelOrderVisitsAll(AllKids(ts));
    }
  }

  // ---------------------------------------------------------------------------
  // Rules

  /** `x.text` inside an f-string: `None` renders as `"None"`. */
  function SelfPart(n: Node): string {
    if n.text.None? then "None" else n.text.value
  }

  /**
   * The parent part of a rule: the dot-separated segments of `path`, reversed,
   * without the last one (the empty segment before the leading dot), rejoined
   * with dots.
   */
  function ParentPart(path: string): string {
    var segments := Reverse(Split(path));
    Join(segments[..|segments| - 1])
  }

  /** What follows a fragment and a dot in every rule emitted at `n`. */
  function RuleSuffix(n: Node): string {
    SelfPart(n) + "." + ParentPart(n.parent)
  }

  /** The nodes of a forest's roots: `x.children` as a list of nodes. */
  function Group(ts: seq<Trie>): (g: seq<Node>)
    ensures |g| == |ts|
  {
    seq(|ts|, k requires 0 <= k < |ts| => ts[k].node)
  }

  /** The texts of a forest's roots, in order; every node below the root has a text. */
  function Labels(ts: seq<Trie>): (ls: seq<string>)
    ensures |ls| == |ts|
  {
    seq(|ts|, k requires 0 <= k < |ts| => if ts[k].node.text.Some? then ts[k].node.text.value else "")
  }

  /** The rules `analyze_tree` emits when it visits the subtree `t`. */
  function NodeRules(order: set<char> -> seq<char>, t: Trie): seq<string> {
    if |t.kids| > 0 && Qualifies(Group(t.kids)) then
      var fragments := Fragments(order, Labels(t.kids));
      seq(|fragments|, k requires 0 <= k < |fragments| => fragments[k] + "." + RuleSuffix(t.node))
    else []
  }

  /** The rules emitted for the subtrees `ts`, visited in that order. */
  function RulesOf(order: set<char> -> seq<char>, ts: seq<Trie>): seq<string> {
    if ts == [] then [] else NodeRules(order, ts[0]) + RulesOf(order, ts[1..])
  }

  /** The result of `analyze_tree` on the tree `ns`. */
  function TreeRules(order: set<char> -> seq<char>, ns: seq<Node>): seq<string>
    requires WellFormed(ns)
  {
    RulesOf(order, LevelOrder([Subtree(ns, 0)]))
  }

  /**
   * A subtree yields rules only when its children qualify; it then yields one
   * rule per distinct child length, lengths counted once included, each the
   * fragment of that length followed by the node's own text and its parent part.
   */
  lemma NodeRulesShape(order: set<char> -> seq<char>, t: Trie)
    ensures var qualifies := |t.kids| > 0 && Qualifies(Group(t.kids));
      |NodeRules(order, t)| == (if qualifies then |Lengths(Labels(t.kids))| else 0) &&
      forall k :: 0 <= k < |NodeRules(order, t)| ==>
        NodeRules(order, t)[k] == Fragments(order, Labels(t.kids))[k] + "." + RuleSuffix(t.node)
  {
  }

  // ---------------------------------------------------------------------------
  // analyze_tree and extract_patterns

  lemma {:induction false} RulesOfAppend(order: set<char> -> seq<char>, ts: seq<Trie>, us: seq<Trie>)
    ensures RulesOf(order, ts + us) == RulesOf(order, ts) + RulesOf(order, us)
  {
    if ts == [] {
      assert ts + us == us;
    } else {
      assert (ts + us)[0] == ts[0] && (ts + us)[1..] == ts[1..] + us;
      RulesOfAppend(order, ts[1..], us);
    }
  }

  /** The children of the subtree at node `x` are the subtrees at its child positions. */
  lemma SubtreeKids(ns: seq<Node>, x: nat)
    requires WellFormed(ns) && x < |ns|
    ensures Subtree(ns, x).kids == Subtrees(ns, Kids(ns[x]))
  {
  }

  lemma SubtreesAppend(ns: seq<Node>, q: seq<nat>, r: seq<nat>)
    requires WellFormed(ns)
    requires forall k :: 0 <= k < |q| ==> q[k] < |ns|
    requires forall k :: 0 <= k < |r| ==> r[k] < |ns|
    ensures Subtrees(ns, q + r) == Subtrees(ns, q) + Subtrees(ns, r)
  {
  }

  /** The nodes at the positions `ks`, as `Group` sees the subtrees there. */
  lemma GroupOfSubtrees(ns: seq<Node>, ks: seq<nat>)
    requires WellFormed(ns) && forall k :: 0 <= k < |ks| ==> ks[k] < |ns|
    ensures Group(Subtrees(ns, ks)) == seq(|ks|, k requires 0 <= k < |ks| => ns[ks[k]])
    ensures Labels(Subtrees(ns, ks)) ==
      seq(|ks|, k requires 0 <= k < |ks| => if ns[ks[k]].text.Some? then ns[ks[k]].text.value else "")
  {
  }

  /** The rules of one qualifying node, built as the inner loop of `analyze_tree` builds them. */
  method EmitRules(fragments: seq<string>, selfPart: string, parentPart: string) returns (rules: seq<string>)
    ensures rules == seq(|fragments|, k requires 0 <= k < |fragments| => fragments[k] + "." + (selfPart + "." + parentPart))
  {
    rules := [];
    for j := 0 to |fragments|
      invariant |rules| == j
      invariant forall k :: 0 <= k < j ==> rules[k] == fragments[k] + "." + (selfPart + "." + parentPart)
    {
      rules := rules + [fragments[j] + "." + selfPart + "." + parentPart];
    }
  }

  /** One visit of `analyze_tree`: the rules emitted for the popped node `x`. */
  method VisitNode(order: set<char> -> seq<char>, ns: seq<Node>, x: nat) returns (rules: seq<string>)
    requires WellFormed(ns) && x < |ns|
    ensures rules == NodeRules(order, Subtree(ns, x))
  {
    ghost var t := Subtree(ns, x);
    var n := ns[x];
    rules := [];
    if n.children.Some? && |n.children.value| > 0 {
      var kids := n.children.value;
      SubtreeKids(ns, x);
      GroupOfSubtrees(ns, kids);
      var group := seq(|kids|, k requires 0 <= k < |kids| => ns[kids[k]]);
      var subgroups := AnalyzeGroup(group);
      SubgroupsNonEmpty(group, subgroups);
      if |subgroups| > 0 {
        var texts := seq(|kids|, k requires 0 <= k < |kids| =>
          if ns[kids[k]].text.Some? then ns[kids[k]].text.value else "");
        var fragments := GenerateRegexp(order, texts);
        var parentPart := ParentPart(n.parent);
        var selfPart := SelfPart(n);
        rules := EmitRules(fragments, selfPart, parentPart);
        assert selfPart + "." + parentPart == RuleSuffix(t.node);
        NodeRulesShape(order, t);
        assert forall k :: 0 <= k < |rules| ==> rules[k] == NodeRules(order, t)[k];
      }
    }
  }

  /** Popping `x` off the queue and appending its children, as seen by `Fifo`. */
  lemma QueueStep(order: set<char> -> seq<char>, ns: seq<Node>, x: nat, rest: seq<nat>)
    requires WellFormed(ns) && x < |ns|
    requires forall k :: 0 <= k < |rest| ==> rest[k] < |ns|
    ensures var next := rest + Kids(ns[x]);
      (forall k :: 0 <= k < |next| ==> next[k] < |ns|) &&
      Fifo(Subtrees(ns, [x] + rest)) == [Subtree(ns, x)] + Fifo(Subtrees(ns, next)) &&
      RulesOf(order, Fifo(Subtrees(ns, [x] + rest))) ==
        NodeRules(order, Subtree(ns, x)) + RulesOf(order, Fifo(Subtrees(ns, next))) &&
      ForestSize(Subtrees(ns, next)) < ForestSize(Subtrees(ns, [x] + rest))
  {
    var t := Subtree(ns, x);
    var next := rest + Kids(ns[x]);
    var before := Subtrees(ns, [x] + rest);
    QueueSplit(ns, x, rest);
    FifoHead(before);
    var later := Fifo(Subtrees(ns, next));
    assert Fifo(before) == [t] + later;
    RulesOfCons(order, t, later);
    ForestSizeStep(t, Subtrees(ns, rest));
    ForestSizeAppend(Subtrees(ns, rest), t.kids);
  }

  /** The subtrees of a queue `[x] + rest`, and those after popping `x`. */
  lemma QueueSplit(ns: seq<Node>, x: nat, rest: seq<nat>)
    requires WellFormed(ns) && x < |ns|
    requires forall k :: 0 <= k < |rest| ==> rest[k] < |ns|
    ensures var before := Subtrees(ns, [x] + rest);
      var next := rest + Kids(ns[x]);
      (forall k :: 0 <= k < |next| ==> next[k] < |ns|) &&
      before == [Subtree(ns, x)] + Subtrees(ns, rest) &&
      before[0] == Subtree(ns, x) && before[1..] == Subtrees(ns, rest) &&
      Subtrees(ns, next) == before[1..] + before[0].kids
  {
    var before := Subtrees(ns, [x] + rest);
    assert before == [Subtree(ns, x)] + Subtrees(ns, rest);
    SubtreeKids(ns, x);
    SubtreesAppend(ns, rest, Kids(ns[x]));
  }

  lemma RulesOfCons(order: set<char> -> seq<char>, t: Trie, ts: seq<Trie>)
    ensures RulesOf(order, [t] + ts) == NodeRules(order, t) + RulesOf(order, ts)
  {
    assert ([t] + ts)[0] == t && ([t] + ts)[1..] == ts;
  }

  /** Every entry of `q` is a node of `ns`. */
  predicate Positions(ns: seq<Node>, q: seq<nat>) {
    forall k :: 0 <= k < |q| ==> q[k] < |ns|
  }

  /**
   * The state of the walk: the nodes popped so far followed by what the queue
   * still pops make up the whole pop order, and likewise for the rules.
   */
  predicate Walking(order: set<char> -> seq<char>, ns: seq<Node>, queue: seq<nat>, visited: seq<nat>, result: seq<string>)
    requires WellFormed(ns)
  {
    Positions(ns, queue) && Positions(ns, visited) &&
    Subtrees(ns, visited) + Fifo(Subtrees(ns, queue)) == Fifo([Subtree(ns, 0)]) &&
    result + RulesOf(order, Fifo(Subtrees(ns, queue))) == RulesOf(order, Fifo([Subtree(ns, 0)]))
  }

  lemma WalkStep(order: set<char> -> seq<char>, ns: seq<Node>, queue: seq<nat>, visited: seq<nat>, result: seq<string>)
    requires WellFormed(ns) && |queue| > 0 && Walking(order, ns, queue, visited, result)
    ensures var x := queue[0];
      var next := queue[1..] + Kids(ns[x]);
      Positions(ns, next) &&
      Walking(order, ns, next, visited + [x], result + NodeRules(order, Subtree(ns, x))) &&
      ForestSize(Subtrees(ns, next)) < ForestSize(Subtrees(ns, queue))
  {
    var x := queue[0];
    var rest := queue[1..];
    var t := Subtree(ns, x);
    var next := rest + Kids(ns[x]);
    assert queue == [x] + rest;
    QueueStep(order, ns, x, rest);
    var later := Fifo(Subtrees(ns, next));
    assert Fifo(Subtrees(ns, queue)) == [t] + later;
    SubtreesAppend(ns, visited, [x]);
    assert Subtrees(ns, [x]) == [t];
    assert Positions(ns, visited + [x]);
    var done := Subtrees(ns, visited);
    assert Subtrees(ns, visited + [x]) == done + [t];
    Regroup(done, [t], later, Fifo([Subtree(ns, 0)]));
    var rules := NodeRules(order, t);
    assert RulesOf(order, Fifo(Subtrees(ns, queue))) == rules + RulesOf(order, later);
    Regroup(result, rules, RulesOf(order, later), RulesOf(order, Fifo([Subtree(ns, 0)])));
  }

  lemma Regroup<T>(a: seq<T>, b: seq<T>, c: seq<T>, whole: seq<T>)
    requires a + (b + c) == whole
    ensures (a + b) + c == whole
  {
  }

  /** The FIFO loop of `analyze_tree` over the nodes of a tree. */
  method Walk(order: set<char> -> seq<char>, ns: seq<Node>) returns (result: seq<string>, ghost visited: seq<nat>)
    requires WellFormed(ns)
    ensures result == TreeRules(order, ns)
    ensures Positions(ns, visited)
    ensures Subtrees(ns, visited) == LevelOrder([Subtree(ns, 0)])
  {
    var queue: seq<nat> := [0];
    result := [];
    visited := [];
    assert Subtrees(ns, queue) == [Subtree(ns, 0)];
    assert Subtrees(ns, visited) == [];
    while |queue| > 0
      invariant Walking(order, ns, queue, visited, result)
      decreases ForestSize(Subtrees(ns, queue))
    {
      var x := queue[0];
      WalkStep(order, ns, queue, visited, result);
      var rules := VisitNode(order, ns, x);
      result := result + rules;
      visited := visited + [x];
      queue := queue[1..] + Kids(ns[x]);
    }
    assert Subtrees(ns, queue) == [];
    FifoIsLevelOrder([Subtree(ns, 0)]);
  }

  /** `analyze_tree(root)`: a FIFO walk that emits the rules of every qualifying node. */
  method AnalyzeTree(order: set<char> -> seq<char>, tree: LabelTree) returns (result: seq<string>, ghost visited: seq<nat>)
    requires tree.Valid()
    ensures result == TreeRules(order, tree.nodes)
    ensures Positions(tree.nodes, visited)
    ensures Subtrees(tree.nodes, visited) == LevelOrder([Subtree(tree.nodes, 0)])
  {
    result, visited := Walk(order, tree.nodes);
  }

  /** The tree `extract_patterns(urls)` builds: every url's labels inserted in turn. */
  function Build(urls: seq<string>): (ns: seq<Node>)
    ensures ValidTree(ns)
  {
    if urls == [] then [Root]
    else
      var ns := Build(urls[..|urls| - 1]);
      InsertValid(ns, 0, Split(urls[|urls| - 1]));
      InsertFrom(ns, 0, Split(urls[|urls| - 1]))
  }

  /** `extract_patterns(urls)`. */
  method ExtractPatterns(order: set<char> -> seq<char>, urls: seq<string>) returns (patterns: seq<string>)
    ensures patterns == TreeRules(order, Build(urls))
  {
    var root := new LabelTree();
    for i := 0 to |urls|
      invariant root.Valid() && root.nodes == Build(urls[..i])
    {
      var urlParts := Split(urls[i]);
      assert urls[..i + 1][..i] == urls[..i];
      root.AddChild(urlParts);
    }
    assert urls[..|urls|] == urls;
    ghost var visited;
    patterns, visited := AnalyzeTree(order, root);
  }

  // ---------------------------------------------------------------------------
  // What the rules say

  /** The parent part recovers the non-empty labels above a node, nearest first. */
  lemma ParentPartOfPath(ls: seq<string>)
    requires forall k :: 0 <= k < |ls| ==> DotFree(ls[k])
    ensures ParentPart(PathString(ls)) == Join(Reverse(NonEmpty(ls)))
  {
    SplitPathString(ls);
    var ne := NonEmpty(ls);
    ReverseAppend([""], ne);
    assert Reverse([""]) == [""] by {
      assert [""][..0] == [];
    }
    var segments := Reverse(ne) + [""];
    assert segments[..|segments| - 1] == Reverse(ne);
  }

  /**
   * At the node reached from the root by the labels `ls` (top-level label
   * first), the rule suffix is that node's label followed by the non-empty
   * labels above it, nearest first: the original domain suffix.
   */
  lemma PathSuffix(ns: seq<Node>, ls: seq<string>)
    requires ValidTree(ns) && ls != [] && Follow(ns, 0, ls).Some?
    requires forall k :: 0 <= k < |ls| ==> DotFree(ls[k])
    ensures RuleSuffix(ns[Follow(ns, 0, ls).value]) ==
      ls[|ls| - 1] + "." + Join(Reverse(NonEmpty(ls[..|ls| - 1])))
  {
    NodeOfPath(ns, ls);
    var init := ls[..|ls| - 1];
    assert forall k :: 0 <= k < |init| ==> DotFree(init[k]) by {
      forall k | 0 <= k < |init| ensures DotFree(init[k]) {
        assert init[k] == ls[k];
      }
    }
    ParentPartOfPath(init);
  }

  /**
   * The root has no text and an empty parent path, so its rules read
   * `fragment + ".None."`.
   */
  lemma RootSuffix(ns: seq<Node>)
    requires ValidTree(ns)
    ensures RuleSuffix(ns[0]) == "None."
  {
    assert ParentPart("") == "" by {
      assert Split("") == [""];
      assert Reverse([""]) == [""] by {
        assert [""][..0] == [];
      }
    }
  }

  /** Every url inserted so far can be followed from the root, label by label. */
  lemma {:induction false} BuildReaches(urls: seq<string>, k: nat)
    requires k < |urls|
    ensures Follow(Build(urls), 0, Reverse(Split(urls[k]))).Some?
  {
    var init := urls[..|urls| - 1];
    var ns := Build(init);
    if k == |urls| - 1 {
      InsertReaches(ns, 0, Split(urls[k]));
    } else {
      BuildReaches(init, k);
      assert init[k] == urls[k];
      InsertExtends(ns, 0, Split(urls[|urls| - 1]));
      FollowExtends(ns, Build(urls), 0, Reverse(Split(urls[k])));
    }
  }

  /**
   * Every url inserted into the tree reaches a node whose rules end in the url's
   * leftmost label followed by the labels to its right, that is, in the url
   * itself once consecutive and trailing dots are dropped.
   */
  lemma BuildSuffix(urls: seq<string>, k: nat)
    requires k < |urls|
    ensures var ls := Reverse(Split(urls[k]));
      Follow(Build(urls), 0, ls).Some? &&
      RuleSuffix(Build(urls)[Follow(Build(urls), 0, ls).value]) ==
        Split(urls[k])[0] + "." + Join(Reverse(NonEmpty(ls[..|ls| - 1])))
  {
    BuildReaches(urls, k);
    UrlSuffix(Build(urls), urls[k]);
  }

  lemma UrlSuffix(ns: seq<Node>, u: string)
    requires ValidTree(ns) && Follow(ns, 0, Reverse(Split(u))).Some?
    ensures var ls := Reverse(Split(u));
      RuleSuffix(ns[Follow(ns, 0, ls).value]) == Split(u)[0] + "." + Join(Reverse(NonEmpty(ls[..|ls| - 1])))
  {
    var parts := Split(u);
    LabelsDotFree(u);
    PathSuffix(ns, Reverse(parts));
    ReverseAt(parts, |parts| - 1);
  }

  /** The labels of a url, read last to first, contain no dot. */
  lemma LabelsDotFree(u: string)
    ensures var ls := Reverse(Split(u)); forall j :: 0 <= j < |ls| ==> DotFree(ls[j])
  {
    var parts := Split(u);
    SplitDotFree(u);
    forall j | 0 <= j < |parts| ensures DotFree(Reverse(parts)[j]) {
      ReverseAt(parts, j);
    }
  }

  /** A url seen before adds nothing to the tree, so the mined rules stay the same. */
  lemma BuildDuplicate(order: set<char> -> seq<char>, urls: seq<string>, u: string)
    requires u in urls
    ensures Build(urls + [u]) == Build(urls)
    ensures TreeRules(order, Build(urls + [u])) == TreeRules(order, Build(urls))
  {
    var k :| 0 <= k < |urls| && urls[k] == u;
    BuildReaches(urls, k);
    assert (urls + [u])[..|urls|] == urls;
    InsertExisting(Build(urls), 0, Split(u));
  }
}
