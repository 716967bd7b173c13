/**
 * A worked run of `extract_patterns` (app/tree_processing/tree_processing.py,
 * lines 222-235) on three host names under `cdn.example.com`: the tree it
 * builds, the order `analyze_tree` visits it in, and the single rule it emits.
 */
module CdnExample {
  import opened Wrappers
  import opened Text
  import opened LabelTree
  import opened Regexp
  import opened Mining

  const Urls: seq<string> := ["a1.cdn.example.com", "a2.cdn.example.com", "a3.cdn.example.com"]

  // ---------------------------------------------------------------------------
  // Splitting the host names

  /** A label under `cdn.example.com` splits into four labels, the leftmost first. */
  lemma SplitUnderCdn(x: string)
    requires DotFree(x)
    ensures Split(x + ".cdn.example.com") == [x, "cdn", "example", "com"]
  {
    var s1 := x + "." + "cdn";
    var s2 := s1 + "." + "example";
    var s3 := s2 + "." + "com";
    SplitSingle(x);
    SplitAppendSegment(x, "cdn");
    assert Split(s1) == [x, "cdn"];
    SplitAppendSegment(s1, "example");
    assert Split(s2) == [x, "cdn", "example"];
    SplitAppendSegment(s2, "com");
    CdnText(x);
  }

  lemma CdnText(x: string)
    ensures x + "." + "cdn" + "." + "example" + "." + "com" == x + ".cdn.example.com"
  {
  }

  lemma SplitA1()
    ensures Split(Urls[0]) == ["a1", "cdn", "example", "com"]
  {
    SplitUnderCdn("a1");
    assert "a1" + ".cdn.example.com" == Urls[0];
  }

  lemma SplitA2()
    ensures Split(Urls[1]) == ["a2", "cdn", "example", "com"]
  {
    SplitUnderCdn("a2");
    assert "a2" + ".cdn.example.com" == Urls[1];
  }

  lemma SplitA3()
    ensures Split(Urls[2]) == ["a3", "cdn", "example", "com"]
  {
    SplitUnderCdn("a3");
    assert "a3" + ".cdn.example.com" == Urls[2];
  }

  // ---------------------------------------------------------------------------
  // The tree

  /** A label directly below `cdn`: no children yet, parent path `.com.example.cdn`. */
  function Leaf(x: string): Node {
    Node(Some(x), |x|, None, ".com.example.cdn")
  }

  /** The root, `com`, `example` and `cdn`, with `cdn`'s children at `kids`. */
  function Stem(kids: seq<nat>): seq<Node> {
    [Node(None, 0, Some([1]), ""),
     Node(Some("com"), 3, Some([2]), ""),
     Node(Some("example"), 7, Some([3]), ".com"),
     Node(Some("cdn"), 3, Some(kids), ".com.example")]
  }

  /** The paths `add_child` stores below `com`, `example` and `cdn`. */
  lemma StemPaths()
    ensures "" + "." + "com" == ".com"
    ensures ".com" + "." + "example" == ".com.example"
    ensures ".com.example" + "." + "cdn" == ".com.example.cdn"
  {
  }

  /** The tree after each of the four steps of the first insertion. */
  const Chain1: seq<Node> := [Node(None, 0, Some([1]), ""), Node(Some("com"), 3, None, "")]
  const Chain2: seq<Node> :=
    [Node(None, 0, Some([1]), ""), Node(Some("com"), 3, Some([2]), ""), Node(Some("example"), 7, None, ".com")]
  const Chain3: seq<Node> :=
    [Node(None, 0, Some([1]), ""), Node(Some("com"), 3, Some([2]), ""),
     Node(Some("example"), 7, Some([3]), ".com"), Node(Some("cdn"), 3, None, ".com.example")]

  lemma AttachCom()
    ensures Attach([Root], 0, "com") == Chain1
  {
    var ms := Attach([Root], 0, "com");
    assert ms[0] == Chain1[0];
    assert ChildPath(Root) == "";
    assert ms[1] == Chain1[1];
  }

  lemma AttachExample()
    ensures Attach(Chain1, 1, "example") == Chain2
  {
    var ms := Attach(Chain1, 1, "example");
    StemPaths();
    assert ChildPath(Chain1[1]) == ".com";
    assert ms[0] == Chain2[0] && ms[1] == Chain2[1] && ms[2] == Chain2[2];
  }

  lemma AttachCdn()
    ensures Attach(Chain2, 2, "cdn") == Chain3
  {
    var ms := Attach(Chain2, 2, "cdn");
    StemPaths();
    assert ChildPath(Chain2[2]) == ".com.example";
    assert ms[0] == Chain3[0] && ms[1] == Chain3[1] && ms[2] == Chain3[2] && ms[3] == Chain3[3];
  }

  lemma AttachFirstLeaf(x: string)
    ensures Attach(Chain3, 3, x) == Stem([4]) + [Leaf(x)]
  {
    var ms := Attach(Chain3, 3, x);
    var want := Stem([4]) + [Leaf(x)];
    StemPaths();
    assert ChildPath(Chain3[3]) == ".com.example.cdn";
    assert ms[0] == want[0] && ms[1] == want[1] && ms[2] == want[2] && ms[3] == want[3];
    assert ms[4] == want[4];
  }

  /** One step of `InsertFrom` that finds no child and attaches one. */
  lemma InsertAttaching(ns: seq<Node>, start: nat, rest: seq<string>)
    requires WellFormed(ns) && start < |ns| && rest != [] && Kids(ns[start]) == []
    ensures InsertFrom(ns, start, rest) == InsertFrom(Attach(ns, start, rest[|rest| - 1]), |ns|, rest[..|rest| - 1])
  {
    LabelTree.InsertStep(ns, start, rest);
  }

  lemma ChainCom(x: string)
    ensures InsertFrom([Root], 0, [x, "cdn", "example", "com"]) == InsertFrom(Chain1, 1, [x, "cdn", "example"])
  {
    var parts := [x, "cdn", "example", "com"];
    AttachCom();
    InsertAttaching([Root], 0, parts);
    assert parts[..3] == [x, "cdn", "example"];
  }

  lemma ChainExample(x: string)
    ensures InsertFrom(Chain1, 1, [x, "cdn", "example"]) == InsertFrom(Chain2, 2, [x, "cdn"])
  {
    var parts := [x, "cdn", "example"];
    AttachExample();
    InsertAttaching(Chain1, 1, parts);
    assert parts[..2] == [x, "cdn"];
  }

  lemma ChainCdn(x: string)
    ensures InsertFrom(Chain2, 2, [x, "cdn"]) == InsertFrom(Chain3, 3, [x])
  {
    var parts := [x, "cdn"];
    AttachCdn();
    InsertAttaching(Chain2, 2, parts);
    assert parts[..1] == [x];
  }

  lemma ChainLeaf(x: string)
    ensures InsertFrom(Chain3, 3, [x]) == Stem([4]) + [Leaf(x)]
  {
    AttachFirstLeaf(x);
    InsertAttaching(Chain3, 3, [x]);
    assert [x][..0] == [];
  }

  /** The first host name creates the whole chain below the root. */
  lemma FirstChain(x: string)
    ensures InsertFrom([Root], 0, [x, "cdn", "example", "com"]) == Stem([4]) + [Leaf(x)]
  {
    ChainCom(x);
    ChainExample(x);
    ChainCdn(x);
    ChainLeaf(x);
  }

  /** A stem tree whose `cdn` children are leaves at the end of the list points only forward. */
  lemma StemWellFormed(kids: seq<nat>, leaves: seq<Node>)
    requires forall k :: 0 <= k < |kids| ==> 4 <= kids[k] < 4 + |leaves|
    requires forall j :: 0 <= j < |leaves| ==> leaves[j].children.None?
    ensures WellFormed(Stem(kids) + leaves)
  {
    var ns := Stem(kids) + leaves;
    forall i | 0 <= i < |ns| ensures forall k :: 0 <= k < |Kids(ns[i])| ==> i < Kids(ns[i])[k] < |ns| {
      if i >= 4 {
        assert ns[i] == leaves[i - 4];
      } else {
        assert ns[i] == Stem(kids)[i];
      }
    }
  }

  /** In a stem tree, the labels `com`, `example`, `cdn` lead to positions 1, 2, 3. */
  lemma StemFinds(kids: seq<nat>, leaves: seq<Node>)
    requires WellFormed(Stem(kids) + leaves)
    ensures var ns := Stem(kids) + leaves;
      FindChild(ns, 0, "com") == Some(1) && FindChild(ns, 1, "example") == Some(2) &&
      FindChild(ns, 2, "cdn") == Some(3)
  {
    var ns := Stem(kids) + leaves;
    assert ns[0] == Stem(kids)[0] && ns[1] == Stem(kids)[1] && ns[2] == Stem(kids)[2];
    assert Kids(ns[0]) == [1] && Kids(ns[1]) == [2] && Kids(ns[2]) == [3];
    assert [1][..0] == [] && [2][..0] == [] && [3][..0] == [];
  }

  /** A host name under `cdn.example.com` with a new first label adds one leaf below `cdn`. */
  lemma StemInsert(kids: seq<nat>, leaves: seq<Node>, x: string)
    requires WellFormed(Stem(kids) + leaves)
    requires FindChild(Stem(kids) + leaves, 3, x).None?
    ensures InsertFrom(Stem(kids) + leaves, 0, [x, "cdn", "example", "com"]) == Attach(Stem(kids) + leaves, 3, x)
  {
    var ns := Stem(kids) + leaves;
    var parts := [x, "cdn", "example", "com"];
    StemFinds(kids, leaves);
    LabelTree.InsertStep(ns, 0, parts);
    assert parts[..3] == [x, "cdn", "example"];
    LabelTree.InsertStep(ns, 1, parts[..3]);
    assert parts[..3][..2] == [x, "cdn"];
    LabelTree.InsertStep(ns, 2, parts[..2]);
    assert parts[..2][..1] == [x];
    LabelTree.InsertStep(ns, 3, parts[..1]);
    assert parts[..1][..0] == [];
  }

  /** Attaching a leaf below `cdn` appends it to `cdn`'s children. */
  lemma StemAttach(kids: seq<nat>, leaves: seq<Node>, x: string)
    requires WellFormed(Stem(kids) + leaves)
    ensures Attach(Stem(kids) + leaves, 3, x) == Stem(kids + [4 + |leaves|]) + (leaves + [Leaf(x)])
  {
    var ns := Stem(kids) + leaves;
    var ms := Attach(ns, 3, x);
    assert ns[3] == Stem(kids)[3];
    assert ChildPath(ns[3]) == ".com.example.cdn";
    var want := Stem(kids + [4 + |leaves|]) + (leaves + [Leaf(x)]);
    assert |ms| == |want|;
    forall i | 0 <= i < |ms| ensures ms[i] == want[i] {
      if i < 4 {
        assert ns[i] == Stem(kids)[i];
      } else if i < |ns| {
        assert ms[i] == ns[i] == leaves[i - 4] == want[i];
      }
    }
  }

  lemma LeafNotThere(kids: seq<nat>, leaves: seq<Node>, x: string)
    requires WellFormed(Stem(kids) + leaves)
    requires forall k :: 0 <= k < |kids| ==> 4 <= kids[k] < 4 + |leaves| && leaves[kids[k] - 4].text != Some(x)
    ensures FindChild(Stem(kids) + leaves, 3, x).None?
  {
    var ns := Stem(kids) + leaves;
    assert Kids(ns[3]) == kids;
    forall k | 0 <= k < |kids| ensures ns[kids[k]].text != Some(x) {
      assert ns[kids[k]] == leaves[kids[k] - 4];
    }
  }

  /** `extract_patterns` inserts the host names one at a time. */
  lemma BuildStep(urls: seq<string>, k: nat)
    requires k < |urls|
    ensures Build(urls[..k + 1]) == InsertFrom(Build(urls[..k]), 0, Split(urls[k]))
  {
    assert urls[..k + 1][..k] == urls[..k];
  }

  const Tree1: seq<Node> := Stem([4]) + [Leaf("a1")]
  const Tree2: seq<Node> := Stem([4, 5]) + [Leaf("a1"), Leaf("a2")]
  const Tree3: seq<Node> := Stem([4, 5, 6]) + [Leaf("a1"), Leaf("a2"), Leaf("a3")]

  lemma InsertSecond()
    ensures InsertFrom(Tree1, 0, ["a2", "cdn", "example", "com"]) == Tree2
  {
    StemWellFormed([4], [Leaf("a1")]);
    LeafNotThere([4], [Leaf("a1")], "a2");
    StemInsert([4], [Leaf("a1")], "a2");
    StemAttach([4], [Leaf("a1")], "a2");
    assert [4] + [4 + 1] == [4, 5];
  }

  lemma InsertThird()
    ensures InsertFrom(Tree2, 0, ["a3", "cdn", "example", "com"]) == Tree3
  {
    StemWellFormed([4, 5], [Leaf("a1"), Leaf("a2")]);
    LeafNotThere([4, 5], [Leaf("a1"), Leaf("a2")], "a3");
    StemInsert([4, 5], [Leaf("a1"), Leaf("a2")], "a3");
    StemAttach([4, 5], [Leaf("a1"), Leaf("a2")], "a3");
    assert [4, 5] + [4 + 2] == [4, 5, 6];
  }

  lemma BuildFirst(urls: seq<string>)
    requires |urls| == 3 && Split(urls[0]) == ["a1", "cdn", "example", "com"]
    ensures Build(urls[..1]) == Tree1
  {
    BuildStep(urls, 0);
    assert urls[..0] == [];
    FirstChain("a1");
  }

  lemma BuildSecond(urls: seq<string>)
    requires |urls| == 3 && Split(urls[0]) == ["a1", "cdn", "example", "com"]
    requires Split(urls[1]) == ["a2", "cdn", "example", "com"]
    ensures Build(urls[..2]) == Tree2
  {
    BuildFirst(urls);
    BuildStep(urls, 1);
    InsertSecond();
  }

  lemma BuildThree(urls: seq<string>)
    requires |urls| == 3 && Split(urls[0]) == ["a1", "cdn", "example", "com"]
    requires Split(urls[1]) == ["a2", "cdn", "example", "com"]
    requires Split(urls[2]) == ["a3", "cdn", "example", "com"]
    ensures Build(urls) == Tree3
  {
    BuildSecond(urls);
    BuildStep(urls, 2);
    InsertThird();
    assert urls[..3] == urls;
  }

  /** The tree `extract_patterns` builds from the three host names. */
  lemma BuildUrls()
    ensures Build(Urls) == Tree3
  {
    SplitA1();
    SplitA2();
    SplitA3();
    BuildThree(Urls);
  }

  // ---------------------------------------------------------------------------
  // The visit

  /** The subtrees of the finished tree, explicitly. */
  const LeafA1: Trie := Trie(Leaf("a1"), [])
  const LeafA2: Trie := Trie(Leaf("a2"), [])
  const LeafA3: Trie := Trie(Leaf("a3"), [])
  const CdnTrie: Trie := Trie(Node(Some("cdn"), 3, Some([4, 5, 6]), ".com.example"), [LeafA1, LeafA2, LeafA3])
  const ExampleTrie: Trie := Trie(Node(Some("example"), 7, Some([3]), ".com"), [CdnTrie])
  const ComTrie: Trie := Trie(Node(Some("com"), 3, Some([2]), ""), [ExampleTrie])
  const RootTrie: Trie := Trie(Node(None, 0, Some([1]), ""), [ComTrie])

  lemma Tree3Nodes()
    ensures WellFormed(Tree3)
    ensures Tree3 == [RootTrie.node, ComTrie.node, ExampleTrie.node, CdnTrie.node,
                      LeafA1.node, LeafA2.node, LeafA3.node]
  {
    StemWellFormed([4, 5, 6], [Leaf("a1"), Leaf("a2"), Leaf("a3")]);
  }

  lemma SubtreeLeaves()
    ensures WellFormed(Tree3)
    ensures Subtree(Tree3, 4) == LeafA1 && Subtree(Tree3, 5) == LeafA2 && Subtree(Tree3, 6) == LeafA3
  {
    Tree3Nodes();
  }

  lemma SubtreeCdn()
    ensures WellFormed(Tree3) && Subtree(Tree3, 3) == CdnTrie
  {
    Tree3Nodes();
    SubtreeLeaves();
    var t := Subtree(Tree3, 3);
    assert t.kids[0] == LeafA1 && t.kids[1] == LeafA2 && t.kids[2] == LeafA3;
  }

  lemma SubtreeExample()
    ensures WellFormed(Tree3) && Subtree(Tree3, 2) == ExampleTrie
  {
    Tree3Nodes();
    SubtreeCdn();
    assert Subtree(Tree3, 2).kids[0] == CdnTrie;
  }

  lemma SubtreeRoot()
    ensures WellFormed(Tree3) && Subtree(Tree3, 0) == RootTrie
  {
    Tree3Nodes();
    SubtreeExample();
    assert Subtree(Tree3, 1).kids[0] == ExampleTrie;
    assert Subtree(Tree3, 0).kids[0] == ComTrie;
  }

  lemma {:induction false} AllKidsOfLeaves(ts: seq<Trie>)
    requires forall k :: 0 <= k < |ts| ==> ts[k].kids == []
    ensures AllKids(ts) == []
  {
    if ts != [] {
      AllKidsOfLeaves(ts[1..]);
    }
  }

  lemma LevelLeaves()
    ensures LevelOrder([LeafA1, LeafA2, LeafA3]) == [LeafA1, LeafA2, LeafA3]
  {
    AllKidsOfLeaves([LeafA1, LeafA2, LeafA3]);
  }

  lemma LevelCdn()
    ensures LevelOrder([CdnTrie]) == [CdnTrie, LeafA1, LeafA2, LeafA3]
  {
    assert AllKids([CdnTrie]) == [LeafA1, LeafA2, LeafA3];
    LevelLeaves();
  }

  lemma LevelExample()
    ensures LevelOrder([ExampleTrie]) == [ExampleTrie, CdnTrie, LeafA1, LeafA2, LeafA3]
  {
    assert AllKids([ExampleTrie]) == [CdnTrie];
    LevelCdn();
  }

  lemma LevelCom()
    ensures LevelOrder([ComTrie]) == [ComTrie, ExampleTrie, CdnTrie, LeafA1, LeafA2, LeafA3]
  {
    assert AllKids([ComTrie]) == [ExampleTrie];
    LevelExample();
  }

  lemma LevelRoot()
    ensures LevelOrder([RootTrie]) == [RootTrie, ComTrie, ExampleTrie, CdnTrie, LeafA1, LeafA2, LeafA3]
  {
    assert AllKids([RootTrie]) == [ComTrie];
    LevelCom();
  }

  // ---------------------------------------------------------------------------
  // The rules

  /** Above `cdn` every group holds a node with children, so nothing qualifies. */
  lemma NoRulesAbove(order: set<char> -> seq<char>)
    ensures NodeRules(order, RootTrie) == [] && NodeRules(order, ComTrie) == [] && NodeRules(order, ExampleTrie) == []
  {
    assert Kids(Group(RootTrie.kids)[0]) != [];
    assert Kids(Group(ComTrie.kids)[0]) != [];
    assert Kids(Group(ExampleTrie.kids)[0]) != [];
  }

  lemma NoRulesAtLeaves(order: set<char> -> seq<char>)
    ensures NodeRules(order, LeafA1) == [] && NodeRules(order, LeafA2) == [] && NodeRules(order, LeafA3) == []
  {
  }

  /** The three leaves below `cdn` share their length, so `cdn` qualifies. */
  lemma CdnQualifies()
    ensures Qualifies(Group(CdnTrie.kids))
    ensures Labels(CdnTrie.kids) == ["a1", "a2", "a3"]
  {
    var g := Group(CdnTrie.kids);
    assert g == [Leaf("a1"), Leaf("a2"), Leaf("a3")];
    assert Count(g[..0], 2) == 0;
    assert g[..1][..0] == g[..0];
    assert Count(g[..1], 2) == 1;
    assert g[..2][..1] == g[..1];
    assert Count(g[..2], 2) == 2;
    assert g[..2] == g[..|g| - 1];
    assert Count(g, g[0].length) >= 2;
  }

  lemma PathAboveCdn()
    ensures PathString(["com", "example"]) == ".com.example"
  {
    assert ["com", "example"][1..][1..] == [];
  }

  lemma NonEmptyAboveCdn()
    ensures NonEmpty(["com", "example"]) == ["com", "example"]
  {
    assert ["com", "example"][..1][..0] == [];
  }

  lemma ReverseAboveCdn()
    ensures Reverse(["com", "example"]) == ["example", "com"]
  {
    assert ["com", "example"][..1][..0] == [];
  }

  lemma JoinAboveCdn()
    ensures Join(["example", "com"]) == "example.com"
  {
    assert ["example", "com"][..1] == ["example"];
  }

  lemma LabelsAboveCdn()
    ensures Join(Reverse(NonEmpty(["com", "example"]))) == "example.com"
  {
    NonEmptyAboveCdn();
    ReverseAboveCdn();
    JoinAboveCdn();
  }

  lemma ParentAboveCdn()
    ensures ParentPart(".com.example") == "example.com"
  {
    var p := PathString(["com", "example"]);
    ParentPartOfPath(["com", "example"]);
    LabelsAboveCdn();
    assert ParentPart(p) == "example.com";
    PathAboveCdn();
  }

  lemma CdnSuffix()
    ensures RuleSuffix(CdnTrie.node) == "cdn.example.com"
  {
    ParentAboveCdn();
  }

  /** A qualifying subtree whose children give one fragment emits one rule. */
  lemma SingleRule(order: set<char> -> seq<char>, t: Trie, f: string, suffix: string)
    requires |t.kids| > 0 && Qualifies(Group(t.kids))
    requires Fragments(order, Labels(t.kids)) == [f] && RuleSuffix(t.node) == suffix
    ensures NodeRules(order, t) == [f + "." + suffix]
  {
  }

  lemma CdnRules(order: set<char> -> seq<char>)
    ensures NodeRules(order, CdnTrie) == ["[a-z][0-9].cdn.example.com"]
  {
    CdnQualifies();
    ExampleSameLength(order);
    assert Fragments(order, Labels(CdnTrie.kids)) == ["[a-z][0-9]"];
    CdnSuffix();
    SingleRule(order, CdnTrie, "[a-z][0-9]", "cdn.example.com");
    RuleText();
  }

  lemma RuleText()
    ensures "[a-z][0-9]" + "." + "cdn.example.com" == "[a-z][0-9].cdn.example.com"
  {
  }

  /**
   * `extract_patterns` on `a1`, `a2` and `a3` under `cdn.example.com` emits the
   * one rule `[a-z][0-9].cdn.example.com`: the leaves' single letter column
   * becomes a class and the column of distinct digits becomes `[0-9]`.
   */
  lemma ExampleCdn(order: set<char> -> seq<char>)
    ensures TreeRules(order, Build(["a1.cdn.example.com", "a2.cdn.example.com", "a3.cdn.example.com"])) ==
      ["[a-z][0-9].cdn.example.com"]
  {
    BuildUrls();
    SubtreeRoot();
    LevelRoot();
    NoRulesAbove(order);
    NoRulesAtLeaves(order);
    CdnRules(order);
    var visit := [RootTrie, ComTrie, ExampleTrie, CdnTrie, LeafA1, LeafA2, LeafA3];
    RulesOfCons(order, RootTrie, visit[1..]);
    RulesOfCons(order, ComTrie, visit[2..]);
    RulesOfCons(order, ExampleTrie, visit[3..]);
    RulesOfCons(order, CdnTrie, visit[4..]);
    RulesOfCons(order, LeafA1, visit[5..]);
    RulesOfCons(order, LeafA2, visit[6..]);
    RulesOfCons(order, LeafA3, []);
  }
}
