/**
 * `generate_regexp` (app/tree_processing/tree_processing.py, lines 118-157):
 * bucket the labels by length, describe every position of a bucket by a
 * `PosDesc`, run-length compress equal neighbouring descriptors and render
 * the runs.
 */
module Regexp {
  import Wrappers
  import opened CharClass
  import opened Text

  /** The keys of `patterns`: the distinct lengths of `xs`, in order of first occurrence. */
  function Lengths(xs: seq<string>): seq<nat> {
    if xs == [] then []
    else
      var seen := Lengths(xs[..|xs| - 1]);
      var m := |xs[|xs| - 1]|;
      if m in seen then seen else seen + [m]
  }

  /** `patterns[m]`: the members of `xs` of length `m`, in order. */
  function Bucket(xs: seq<string>, m: nat): (b: seq<string>)
    ensures forall k :: 0 <= k < |b| ==> |b[k]| == m
  {
    if xs == [] then []
    else
      var b := Bucket(xs[..|xs| - 1], m);
      if |xs[|xs| - 1]| == m then b + [xs[|xs| - 1]] else b
  }

  /** A length is a key exactly when some member has that length. */
  predicate LengthOccurs(xs: seq<string>, m: nat) {
    exists k :: 0 <= k < |xs| && |xs[k]| == m
  }

  lemma OccursInPrefix(xs: seq<string>, m: nat)
    requires xs != []
    ensures LengthOccurs(xs, m) <==> LengthOccurs(xs[..|xs| - 1], m) || m == |xs[|xs| - 1]|
  {
    var init := xs[..|xs| - 1];
    if LengthOccurs(xs, m) && m != |xs[|xs| - 1]| {
      var k :| 0 <= k < |xs| && |xs[k]| == m;
      assert |init[k]| == m;
    }
    if LengthOccurs(init, m) {
      var k :| 0 <= k < |init| && |init[k]| == m;
      assert |xs[k]| == m;
    }
  }

  /** Every length occurs once among the keys, and the keys are exactly the lengths present. */
  lemma {:induction false} LengthsExact(xs: seq<string>)
    ensures forall a, b :: 0 <= a < b < |Lengths(xs)| ==> Lengths(xs)[a] != Lengths(xs)[b]
    ensures forall m :: m in Lengths(xs) <==> LengthOccurs(xs, m)
  {
    if xs != [] {
      LengthsExact(xs[..|xs| - 1]);
      forall m ensures m in Lengths(xs) <==> LengthOccurs(xs, m) {
        OccursInPrefix(xs, m);
      }
    }
  }

  /**
   * The keys come in the order in which their lengths first occur: every member
   * whose length is a later key comes after some member of each earlier key's length.
   */
  lemma {:induction false} LengthsFirstSeen(xs: seq<string>, a: nat, b: nat, i: nat)
    requires a < b < |Lengths(xs)| && i < |xs| && |xs[i]| == Lengths(xs)[b]
    ensures exists j :: 0 <= j < i && |xs[j]| == Lengths(xs)[a]
  {
    var init := xs[..|xs| - 1];
    LengthsExact(init);
    if b < |Lengths(init)| {
      assert Lengths(xs)[a] == Lengths(init)[a] && Lengths(xs)[b] == Lengths(init)[b];
      var k := i;
      if i == |init| {
        k :| 0 <= k < |init| && |init[k]| == Lengths(init)[b];
      }
      assert |init[k]| == Lengths(init)[b];
      LengthsFirstSeen(init, a, b, k);
      var j :| 0 <= j < k && |init[j]| == Lengths(xs)[a];
      assert |xs[j]| == Lengths(xs)[a];
    } else {
      var last := |xs[|xs| - 1]|;
      assert Lengths(xs) == Lengths(init) + [last];
      assert last !in Lengths(init);
      forall k | 0 <= k < |init| ensures |xs[k]| != last {
        assert |init[k]| in Lengths(init);
      }
      assert Lengths(xs)[a] in Lengths(init);
      var j :| 0 <= j < |init| && |init[j]| == Lengths(xs)[a];
      assert |xs[j]| == Lengths(xs)[a];
    }
  }

  /** A bucket holds exactly the members of its length, in their order. */
  lemma {:induction false} BucketContents(xs: seq<string>, m: nat)
    ensures forall x :: x in Bucket(xs, m) <==> x in xs && |x| == m
    ensures |Bucket(xs, m)| > 0 <==> m in Lengths(xs)
  {
    if xs != [] {
      var init := xs[..|xs| - 1];
      BucketContents(init, m);
      assert xs == init + [xs[|xs| - 1]];
    }
  }

  /** Character `i` of every member of `bucket`. */
  function Column(bucket: seq<string>, i: nat): (cs: seq<char>)
    requires forall k :: 0 <= k < |bucket| ==> i < |bucket[k]|
  {
    seq(|bucket|, k requires 0 <= k < |bucket| => bucket[k][i])
  }

  /** The list `seq` of `PosDesc`s built for a bucket of members of length `num`. */
  function ColumnDescs(bucket: seq<string>, num: nat): (ds: seq<Desc>)
    requires forall k :: 0 <= k < |bucket| ==> |bucket[k]| == num
    ensures |ds| == num
  {
    seq(num, i requires 0 <= i < num => Accumulate(Column(bucket, i)))
  }

  /** Descriptor `i` of a bucket records exactly the categories found at position `i`. */
  lemma ColumnDescRecords(bucket: seq<string>, num: nat, i: nat)
    requires forall k :: 0 <= k < |bucket| ==> |bucket[k]| == num
    requires i < num
    ensures var d := ColumnDescs(bucket, num)[i];
      (d.small <==> exists k :: 0 <= k < |bucket| && IsLower(bucket[k][i])) &&
      (d.capital <==> exists k :: 0 <= k < |bucket| && IsUpper(bucket[k][i])) &&
      (d.digits <==> exists k :: 0 <= k < |bucket| && IsDigit(bucket[k][i])) &&
      Symbols(d) == set k | 0 <= k < |bucket| && IsSymbol(bucket[k][i]) :: bucket[k][i]
  {
    var cs := Column(bucket, i);
    AccumulateRecords(cs);
    assert forall c :: c in cs <==> exists k :: 0 <= k < |bucket| && bucket[k][i] == c by {
      forall c ensures c in cs <==> exists k :: 0 <= k < |bucket| && bucket[k][i] == c {
        if c in cs {
          var k :| 0 <= k < |cs| && cs[k] == c;
          assert bucket[k][i] == c;
        }
        if exists k :: 0 <= k < |bucket| && bucket[k][i] == c {
          var k :| 0 <= k < |bucket| && bucket[k][i] == c;
          assert cs[k] == c;
        }
      }
    }
  }

  /** One entry `[c, n]` of the run-length stack: descriptor `c` repeated `n` times. */
  datatype Run = Run(desc: Desc, count: nat)

  /** The descriptors a list of runs stands for. */
  function Expand(rs: seq<Run>): seq<Desc> {
    if rs == [] then []
    else Expand(rs[..|rs| - 1]) + seq(rs[|rs| - 1].count, _ => rs[|rs| - 1].desc)
  }

  /** Every run is non-empty and no two neighbouring runs have equal descriptors. */
  predicate Maximal(rs: seq<Run>) {
    (forall k :: 0 <= k < |rs| ==> rs[k].count >= 1) &&
    (forall k :: 0 <= k < |rs| - 1 ==> rs[k].desc != rs[k + 1].desc)
  }

  /** The stack built by scanning `ds` left to right and merging equal neighbours. */
  function Encode(ds: seq<Desc>): seq<Run> {
    if ds == [] then []
    else
      var rs := Encode(ds[..|ds| - 1]);
      var c := ds[|ds| - 1];
      if rs != [] && rs[|rs| - 1].desc == c then rs[..|rs| - 1] + [Run(c, rs[|rs| - 1].count + 1)]
      else rs + [Run(c, 1)]
  }

  /** The sum of the run lengths. */
  function TotalCount(rs: seq<Run>): nat {
    if rs == [] then 0 else TotalCount(rs[..|rs| - 1]) + rs[|rs| - 1].count
  }

  lemma {:induction false} ExpandLength(rs: seq<Run>)
    ensures |Expand(rs)| == TotalCount(rs)
  {
    if rs != [] {
      ExpandLength(rs[..|rs| - 1]);
    }
  }

  lemma ExpandSnoc(rs: seq<Run>, r: Run)
    ensures Expand(rs + [r]) == Expand(rs) + seq(r.count, _ => r.desc)
  {
    assert (rs + [r])[..|rs|] == rs;
  }

  /** Adding one descriptor to the last run. */
  lemma GrowLastRun(rs: seq<Run>, c: Desc)
    requires rs != [] && rs[|rs| - 1].desc == c
    ensures var grown := rs[|rs| - 1 := Run(c, rs[|rs| - 1].count + 1)];
      Expand(grown) == Expand(rs) + [c] && (Maximal(rs) ==> Maximal(grown))
  {
    var init := rs[..|rs| - 1];
    assert rs[|rs| - 1 := Run(c, rs[|rs| - 1].count + 1)] == init + [Run(c, rs[|rs| - 1].count + 1)];
    var n := rs[|rs| - 1].count;
    ExpandSnoc(init, Run(c, n + 1));
    assert rs == init + [Run(c, n)];
    ExpandSnoc(init, Run(c, n));
    assert seq(n + 1, _ => c) == seq(n, _ => c) + [c];
  }

  /** Opening a new run of one. */
  lemma OpenRun(rs: seq<Run>, c: Desc)
    ensures Expand(rs + [Run(c, 1)]) == Expand(rs) + [c]
  {
    ExpandSnoc(rs, Run(c, 1));
    assert seq(1, _ => c) == [c];
  }

  /** A new run with a descriptor unlike the last run's keeps the runs maximal. */
  lemma OpenRunMaximal(rs: seq<Run>, c: Desc)
    requires Maximal(rs)
    requires rs == [] || rs[|rs| - 1].desc != c
    ensures Maximal(rs + [Run(c, 1)])
  {
  }

  /** The stack expands back to the descriptors and its runs are maximal. */
  lemma {:induction false} EncodeExpands(ds: seq<Desc>)
    ensures Expand(Encode(ds)) == ds && Maximal(Encode(ds))
  {
    if ds != [] {
      var init := ds[..|ds| - 1];
      var c := ds[|ds| - 1];
      EncodeExpands(init);
      var rs := Encode(init);
      assert ds == init + [c];
      if rs != [] && rs[|rs| - 1].desc == c {
        GrowLastRun(rs, c);
        assert rs[|rs| - 1 := Run(c, rs[|rs| - 1].count + 1)] == rs[..|rs| - 1] + [Run(c, rs[|rs| - 1].count + 1)];
      } else {
        OpenRun(rs, c);
        OpenRunMaximal(rs, c);
      }
    }
  }

  /** Taking the last descriptor off a run list whose last run has more than one. */
  lemma ShortenLastRun(rs: seq<Run>)
    requires Maximal(rs) && rs != [] && rs[|rs| - 1].count >= 2
    ensures var last := rs[|rs| - 1];
      var shorter := rs[..|rs| - 1] + [Run(last.desc, last.count - 1)];
      Maximal(shorter) && Expand(rs) == Expand(shorter) + [last.desc] &&
      shorter[..|shorter| - 1] == rs[..|rs| - 1] && shorter[|shorter| - 1].desc == last.desc
  {
    var init := rs[..|rs| - 1];
    var last := rs[|rs| - 1];
    var d := last.desc;
    var shorter := init + [Run(d, last.count - 1)];
    assert rs == init + [last];
    ExpandSnoc(init, last);
    ExpandSnoc(init, Run(d, last.count - 1));
    assert seq(last.count, _ => d) == seq(last.count - 1, _ => d) + [d];
    forall k | 0 <= k < |shorter| - 1 ensures shorter[k].desc != shorter[k + 1].desc {
      assert shorter[k].desc == rs[k].desc && shorter[k + 1].desc == rs[k + 1].desc;
    }
    assert shorter[..|shorter| - 1] == init;
  }

  /** Taking the last descriptor off a run list whose last run has exactly one. */
  lemma DropLastRun(rs: seq<Run>)
    requires Maximal(rs) && rs != [] && rs[|rs| - 1].count == 1
    ensures var init := rs[..|rs| - 1];
      Maximal(init) && Expand(rs) == Expand(init) + [rs[|rs| - 1].desc] &&
      (init != [] ==> init[|init| - 1].desc != rs[|rs| - 1].desc)
  {
    var init := rs[..|rs| - 1];
    var last := rs[|rs| - 1];
    assert rs == init + [last];
    ExpandSnoc(init, last);
    assert seq(1, _ => last.desc) == [last.desc];
    if init != [] {
      assert init[|init| - 1].desc == rs[|rs| - 2].desc;
    }
  }

  /** A descriptor unlike the last run's opens a new run of the stack. */
  lemma EncodeOpen(pre: seq<Desc>, d: Desc)
    requires Encode(pre) == [] || Encode(pre)[|Encode(pre)| - 1].desc != d
    ensures Encode(pre + [d]) == Encode(pre) + [Run(d, 1)]
  {
    var ds := pre + [d];
    assert ds != [] && ds[..|ds| - 1] == pre && ds[|ds| - 1] == d;
  }

  /** A descriptor equal to the last run's grows that run. */
  lemma EncodeGrow(pre: seq<Desc>, d: Desc)
    requires Encode(pre) != [] && Encode(pre)[|Encode(pre)| - 1].desc == d
    ensures var rs := Encode(pre);
      Encode(pre + [d]) == rs[..|rs| - 1] + [Run(d, rs[|rs| - 1].count + 1)]
  {
    var ds := pre + [d];
    assert ds != [] && ds[..|ds| - 1] == pre && ds[|ds| - 1] == d;
  }

  lemma SplitLast<T>(s: seq<T>)
    requires s != []
    ensures s == s[..|s| - 1] + [s[|s| - 1]]
  {
  }

  /** Maximal runs are unique: any maximal run list standing for `ds` is the stack. */
  lemma EncodeUnique(rs: seq<Run>, ds: seq<Desc>)
    requires Maximal(rs) && Expand(rs) == ds
    ensures rs == Encode(ds)
  {
    EncodeOfExpand(rs);
  }

  lemma {:induction false} EncodeOfExpand(rs: seq<Run>)
    requires Maximal(rs)
    ensures Encode(Expand(rs)) == rs
    decreases |Expand(rs)|
  {
    if rs != [] {
      var init := rs[..|rs| - 1];
      var last := rs[|rs| - 1];
      if last.count == 1 {
        DropLastRun(rs);
        EncodeOfExpand(init);
        CloseSingleRun(rs);
      } else {
        ShortenLastRun(rs);
        EncodeOfExpand(init + [Run(last.desc, last.count - 1)]);
        CloseLongerRun(rs);
      }
    }
  }

  /** The inductive step for a last run of one. */
  lemma CloseSingleRun(rs: seq<Run>)
    requires Maximal(rs) && rs != [] && rs[|rs| - 1].count == 1
    requires Encode(Expand(rs[..|rs| - 1])) == rs[..|rs| - 1]
    ensures Encode(Expand(rs)) == rs
  {
    var init := rs[..|rs| - 1];
    var d := rs[|rs| - 1].desc;
    DropLastRun(rs);
    EncodeOpen(Expand(init), d);
    SplitLast(rs);
  }

  /** The inductive step for a last run of more than one. */
  lemma CloseLongerRun(rs: seq<Run>)
    requires Maximal(rs) && rs != [] && rs[|rs| - 1].count >= 2
    requires var last := rs[|rs| - 1];
      var shorter := rs[..|rs| - 1] + [Run(last.desc, last.count - 1)];
      Encode(Expand(shorter)) == shorter
    ensures Encode(Expand(rs)) == rs
  {
    var last := rs[|rs| - 1];
    var shorter := rs[..|rs| - 1] + [Run(last.desc, last.count - 1)];
    ShortenLastRun(rs);
    EncodeGrow(Expand(shorter), last.desc);
    SplitLast(rs);
  }

  /** `str(c)` for a run of one, `str(c) + "{n}"` for a longer run. */
  function RunText(order: set<char> -> seq<char>, r: Run): string {
    if r.count == 1 then Render(order, r.desc)
    else Render(order, r.desc) + "{" + NatToString(r.count) + "}"
  }

  /** The concatenated renderings of the runs, in position order. */
  function RenderRuns(order: set<char> -> seq<char>, rs: seq<Run>): string {
    if rs == [] then "" else RenderRuns(order, rs[..|rs| - 1]) + RunText(order, rs[|rs| - 1])
  }

  /** The fragment for one bucket of members, all of length `num`. */
  function Fragment(order: set<char> -> seq<char>, bucket: seq<string>, num: nat): string
    requires forall k :: 0 <= k < |bucket| ==> |bucket[k]| == num
  {
    RenderRuns(order, Encode(ColumnDescs(bucket, num)))
  }

  /** The fragments of the buckets of `xs` for the lengths `keys`, in that order. */
  function FragmentsFor(order: set<char> -> seq<char>, xs: seq<string>, keys: seq<nat>): (r: seq<string>)
    ensures |r| == |keys|
  {
    if keys == [] then []
    else
      var m := keys[|keys| - 1];
      FragmentsFor(order, xs, keys[..|keys| - 1]) + [Fragment(order, Bucket(xs, m), m)]
  }

  /** The result of `generate_regexp(xs)`: one fragment per key, in key order. */
  function Fragments(order: set<char> -> seq<char>, xs: seq<string>): (r: seq<string>)
    ensures |r| == |Lengths(xs)|
  {
    FragmentsFor(order, xs, Lengths(xs))
  }

  lemma {:induction false} FragmentsForAt(order: set<char> -> seq<char>, xs: seq<string>, keys: seq<nat>, k: nat)
    requires k < |keys|
    ensures FragmentsFor(order, xs, keys)[k] == Fragment(order, Bucket(xs, keys[k]), keys[k])
  {
    if k < |keys| - 1 {
      FragmentsForAt(order, xs, keys[..|keys| - 1], k);
    }
  }

  /**
   * Fragment `k` renders the maximal runs of the descriptors of the `k`-th
   * bucket; the runs cover the bucket's length exactly.
   */
  lemma FragmentRuns(order: set<char> -> seq<char>, xs: seq<string>, k: nat)
    requires k < |Lengths(xs)|
    ensures var m := Lengths(xs)[k];
      var rs := Encode(ColumnDescs(Bucket(xs, m), m));
      Fragments(order, xs)[k] == RenderRuns(order, rs) &&
      Maximal(rs) && Expand(rs) == ColumnDescs(Bucket(xs, m), m) && TotalCount(rs) == m
  {
    var m := Lengths(xs)[k];
    var rs := Encode(ColumnDescs(Bucket(xs, m), m));
    FragmentsForAt(order, xs, Lengths(xs), k);
    EncodeExpands(ColumnDescs(Bucket(xs, m), m));
    ExpandLength(rs);
  }

  /** A constant descriptor list compresses to a single run. */
  lemma {:induction false} EncodeConstant(d: Desc, n: nat)
    requires n >= 1
    ensures Encode(seq(n, _ => d)) == [Run(d, n)]
  {
    var ds := seq(n, _ => d);
    assert ds[..n - 1] == seq(n - 1, _ => d);
    if n > 1 {
      EncodeConstant(d, n - 1);
    }
  }

  /** The descriptor of a position holding only lower-case letters. */
  function LowerOnly(): Desc {
    Desc(true, false, false, Wrappers.None)
  }

  /** The rendering of a single run is that run's text. */
  lemma RenderSingleRun(order: set<char> -> seq<char>, r: Run)
    ensures RenderRuns(order, [r]) == RunText(order, r)
  {
    assert [r][..0] == [];
  }

  lemma RenderTwoRuns(order: set<char> -> seq<char>, r: Run, q: Run)
    ensures RenderRuns(order, [r, q]) == RunText(order, r) + RunText(order, q)
  {
    assert [r, q][..1] == [r];
    RenderSingleRun(order, r);
  }

  /** The descriptor of a position holding only digits. */
  function DigitsOnly(): Desc {
    Desc(false, false, true, Wrappers.None)
  }

  lemma RenderLower(order: set<char> -> seq<char>)
    ensures Render(order, LowerOnly()) == "[a-z]"
  {
  }

  lemma RenderDigits(order: set<char> -> seq<char>)
    ensures Render(order, DigitsOnly()) == "[0-9]"
  {
  }

  lemma ColumnsSameLength()
    ensures ColumnDescs(["a1", "a2", "a3"], 2) == [LowerOnly(), DigitsOnly()]
  {
    var xs := ["a1", "a2", "a3"];
    assert Column(xs, 0) == "aaa" && Column(xs, 1) == "123";
    assert Accumulate("aaa") == LowerOnly() by {
      assert "aaa"[..2] == "aa" && "aa"[..1] == "a" && "a"[..0] == "";
    }
    assert Accumulate("123") == DigitsOnly() by {
      assert "123"[..2] == "12" && "12"[..1] == "1" && "1"[..0] == "";
    }
  }

  lemma EncodeSameLength()
    ensures Encode([LowerOnly(), DigitsOnly()]) == [Run(LowerOnly(), 1), Run(DigitsOnly(), 1)]
  {
    var ds := [LowerOnly(), DigitsOnly()];
    assert ds[..1] == [LowerOnly()] && ds[..1][..0] == [];
    assert Encode([LowerOnly()]) == [Run(LowerOnly(), 1)];
  }

  lemma RenderSameLength(order: set<char> -> seq<char>)
    ensures Fragment(order, ["a1", "a2", "a3"], 2) == "[a-z][0-9]"
  {
    ColumnsSameLength();
    EncodeSameLength();
    RenderTwoRuns(order, Run(LowerOnly(), 1), Run(DigitsOnly(), 1));
    RenderLower(order);
    RenderDigits(order);
    assert "[a-z]" + "[0-9]" == "[a-z][0-9]";
  }

  /**
   * Three labels sharing a letter and differing in a digit generalise to one
   * fragment of length two; the shared letter is generalised to its class too.
   */
  lemma ExampleSameLength(order: set<char> -> seq<char>)
    ensures Fragments(order, ["a1", "a2", "a3"]) == ["[a-z][0-9]"]
  {
    var xs := ["a1", "a2", "a3"];
    BucketsSameLength();
    RenderSameLength(order);
    assert [2][..0] == [];
    assert FragmentsFor(order, xs, [2]) == [] + [Fragment(order, xs, 2)];
  }

  lemma BucketsSameLength()
    ensures Lengths(["a1", "a2", "a3"]) == [2]
    ensures Bucket(["a1", "a2", "a3"], 2) == ["a1", "a2", "a3"]
  {
    var xs := ["a1", "a2", "a3"];
    var p1, p2 := ["a1"], ["a1", "a2"];
    assert xs[..2] == p2 && p2[..1] == p1 && p1[..0] == [];
    assert |"a1"| == 2 && |"a2"| == 2 && |"a3"| == 2;
    assert Lengths(p1) == [2];
    assert Lengths(p2) == [2];
    assert Bucket(p1, 2) == p1;
    assert Bucket(p2, 2) == p2;
  }

  lemma ColumnsTwoLengths()
    ensures ColumnDescs(["aa", "bb"], 2) == seq(2, _ => LowerOnly())
    ensures ColumnDescs(["ccc"], 3) == seq(3, _ => LowerOnly())
  {
    assert Accumulate("ab") == LowerOnly() by {
      assert "ab"[..1] == "a" && "a"[..0] == "";
    }
    assert Accumulate("c") == LowerOnly() by {
      assert "c"[..0] == "";
    }
    forall i | 0 <= i < 2 ensures ColumnDescs(["aa", "bb"], 2)[i] == LowerOnly() {
      assert Column(["aa", "bb"], i) == "ab";
    }
    forall i | 0 <= i < 3 ensures ColumnDescs(["ccc"], 3)[i] == LowerOnly() {
      assert Column(["ccc"], i) == "c";
    }
  }

  lemma LowerRunText(order: set<char> -> seq<char>)
    ensures RunText(order, Run(LowerOnly(), 2)) == "[a-z]{2}"
    ensures RunText(order, Run(LowerOnly(), 3)) == "[a-z]{3}"
  {
    RenderLower(order);
    assert NatToString(2) == "2" && NatToString(3) == "3";
  }

  lemma RenderTwoLengths(order: set<char> -> seq<char>)
    ensures Fragment(order, ["aa", "bb"], 2) == "[a-z]{2}"
    ensures Fragment(order, ["ccc"], 3) == "[a-z]{3}"
  {
    ColumnsTwoLengths();
    EncodeConstant(LowerOnly(), 2);
    EncodeConstant(LowerOnly(), 3);
    RenderSingleRun(order, Run(LowerOnly(), 2));
    RenderSingleRun(order, Run(LowerOnly(), 3));
    LowerRunText(order);
  }

  lemma BucketsTwoLengths()
    ensures Lengths(["aa", "bb", "ccc"]) == [2, 3]
    ensures Bucket(["aa", "bb", "ccc"], 2) == ["aa", "bb"]
    ensures Bucket(["aa", "bb", "ccc"], 3) == ["ccc"]
  {
    var xs := ["aa", "bb", "ccc"];
    var p1, p2 := ["aa"], ["aa", "bb"];
    assert xs[..2] == p2 && p2[..1] == p1 && p1[..0] == [];
    assert |"aa"| == 2 && |"bb"| == 2 && |"ccc"| == 3;
    assert Lengths(p1) == [2];
    assert Lengths(p2) == [2];
    assert Bucket(p1, 2) == p1 && Bucket(p1, 3) == [];
    assert Bucket(p2, 2) == p2 && Bucket(p2, 3) == [];
  }

  /** Labels of two lengths give two fragments in first-seen order, each run counted. */
  lemma ExampleTwoLengths(order: set<char> -> seq<char>)
    ensures Fragments(order, ["aa", "bb", "ccc"]) == ["[a-z]{2}", "[a-z]{3}"]
  {
    var xs := ["aa", "bb", "ccc"];
    BucketsTwoLengths();
    RenderTwoLengths(order);
    assert [2, 3][..1] == [2] && [2][..0] == [];
    assert FragmentsFor(order, xs, [2]) == [Fragment(order, ["aa", "bb"], 2)];
  }

  /**
   * The descriptor of every column: for each position, a fresh descriptor fed
   * the character at that position of every member, in order.
   */
  method DescribePositions(subset: seq<string>, num: nat) returns (descs: seq<Desc>)
    requires forall k :: 0 <= k < |subset| ==> |subset[k]| == num
    ensures descs == ColumnDescs(subset, num)
  {
    descs := [];
    for i := 0 to num
      invariant descs == ColumnDescs(subset, num)[..i]
    {
      var pd := new PosDesc();
      for j := 0 to |subset|
        invariant pd.Value() == Accumulate(Column(subset[..j], i))
      {
        var cs := Column(subset[..j + 1], i);
        assert cs[..|cs| - 1] == Column(subset[..j], i);
        pd.Add(subset[j][i]);
      }
      assert subset[..|subset|] == subset;
      descs := descs + [pd.Value()];
      assert ColumnDescs(subset, num)[..i + 1] == ColumnDescs(subset, num)[..i] + [ColumnDescs(subset, num)[i]];
    }
  }

  /** The run-length `stack`: maximal runs standing for `descs`. */
  method CompressRuns(descs: seq<Desc>) returns (stack: seq<Run>)
    ensures Maximal(stack) && Expand(stack) == descs
    ensures stack == Encode(descs)
  {
    stack := [];
    for i := 0 to |descs|
      invariant Maximal(stack) && Expand(stack) == descs[..i]
      invariant i > 0 ==> stack != [] && stack[|stack| - 1].desc == descs[i - 1]
    {
      var c := descs[i];
      assert descs[..i + 1] == descs[..i] + [c];
      if |stack| == 0 {
        OpenRun(stack, c);
        OpenRunMaximal(stack, c);
        stack := [Run(c, 1)];
      } else if stack[|stack| - 1].desc == c {
        GrowLastRun(stack, c);
        stack := stack[|stack| - 1 := Run(c, stack[|stack| - 1].count + 1)];
      } else {
        OpenRun(stack, c);
        OpenRunMaximal(stack, c);
        stack := stack + [Run(c, 1)];
      }
    }
    assert descs[..|descs|] == descs;
    EncodeUnique(stack, descs);
  }

  /**
   * The rendering of the run stack: each run's descriptor in turn, followed by
   * its repeat count in braces when the count is not one.
   */
  method RenderStack(order: set<char> -> seq<char>, stack: seq<Run>) returns (res: string)
    ensures res == RenderRuns(order, stack)
  {
    res := "";
    for i := 0 to |stack|
      invariant res == RenderRuns(order, stack[..i])
    {
      var s := stack[i];
      assert stack[..i + 1][..i] == stack[..i];
      if s.count == 1 {
        res := res + Render(order, s.desc);
      } else {
        res := res + (Render(order, s.desc) + "{" + NatToString(s.count) + "}");
      }
    }
    assert stack[..|stack|] == stack;
  }

  /** One more member: its length joins the keys if new, and it joins its own bucket. */
  lemma GroupStep(xs: seq<string>, e: string)
    ensures Lengths(xs + [e]) == if |e| in Lengths(xs) then Lengths(xs) else Lengths(xs) + [|e|]
    ensures Bucket(xs + [e], |e|) == Bucket(xs, |e|) + [e]
  {
    assert (xs + [e])[..|xs|] == xs;
  }

  lemma BucketOther(xs: seq<string>, e: string, m: nat)
    requires m != |e|
    ensures Bucket(xs + [e], m) == Bucket(xs, m)
  {
    assert (xs + [e])[..|xs|] == xs;
  }

  /** Appending a member to its own bucket keeps every bucket of the dictionary exact. */
  lemma BucketAppend(xs: seq<string>, e: string, buckets: map<nat, seq<string>>)
    requires |e| in buckets
    requires forall m :: m in buckets ==> buckets[m] == Bucket(xs, m)
    ensures var after := buckets[|e| := buckets[|e|] + [e]];
      forall m :: m in after ==> after[m] == Bucket(xs + [e], m)
  {
    var after := buckets[|e| := buckets[|e|] + [e]];
    forall m | m in after
      ensures after[m] == Bucket(xs + [e], m)
    {
      if m == |e| {
        GroupStep(xs, e);
      } else {
        BucketOther(xs, e, m);
      }
    }
  }

  /** `keys` and `patterns` are the dictionary `patterns` after bucketing the members `xs`. */
  ghost predicate Grouped(xs: seq<string>, keys: seq<nat>, patterns: map<nat, seq<string>>) {
    keys == Lengths(xs) &&
    (forall m :: m in patterns <==> m in keys) &&
    (forall m :: m in patterns ==> patterns[m] == Bucket(xs, m))
  }

  /** The body of the first loop of `generate_regexp`: bucket one more member `e`. */
  method AddMember(ghost xs: seq<string>, keys: seq<nat>, patterns: map<nat, seq<string>>, e: string)
    returns (keys': seq<nat>, patterns': map<nat, seq<string>>)
    requires Grouped(xs, keys, patterns)
    ensures Grouped(xs + [e], keys', patterns')
  {
    var m := |e|;
    GroupStep(xs, e);
    keys', patterns' := keys, patterns;
    if m !in patterns' {
      BucketContents(xs, m);
      assert Bucket(xs, m) == [];
      keys' := keys' + [m];
      patterns' := patterns'[m := []];
    }
    BucketAppend(xs, e, patterns');
    patterns' := patterns'[m := patterns'[m] + [e]];
  }

  /** The first loop of `generate_regexp`: the members bucketed by length. */
  method GroupByLength(examples: seq<string>) returns (keys: seq<nat>, patterns: map<nat, seq<string>>)
    ensures keys == Lengths(examples)
    ensures forall m :: m in patterns ==> m in keys
    ensures forall k :: 0 <= k < |keys| ==> keys[k] in patterns && patterns[keys[k]] == Bucket(examples, keys[k])
  {
    keys := [];
    patterns := map[];
    for i := 0 to |examples|
      invariant Grouped(examples[..i], keys, patterns)
    {
      assert examples[..i + 1] == examples[..i] + [examples[i]];
      keys, patterns := AddMember(examples[..i], keys, patterns, examples[i]);
    }
    assert examples[..|examples|] == examples;
    assert forall k :: 0 <= k < |keys| ==> keys[k] in keys;
  }

  /** The body of the second loop of `generate_regexp`, for the bucket `subset` of length `num`. */
  method BucketFragment(order: set<char> -> seq<char>, examples: seq<string>, num: nat, subset: seq<string>)
    returns (res: string)
    requires subset == Bucket(examples, num)
    ensures res == Fragment(order, Bucket(examples, num), num)
  {
    var descs := DescribePositions(subset, num);
    var stack := CompressRuns(descs);
    res := RenderStack(order, stack);
  }

  /** `generate_regexp(examples)`. */
  method GenerateRegexp(order: set<char> -> seq<char>, examples: seq<string>) returns (result: seq<string>)
    ensures |result| == |Lengths(examples)|
    ensures result == Fragments(order, examples)
  {
    var keys, patterns := GroupByLength(examples);
    result := [];
    for k := 0 to |keys|
      invariant result == FragmentsFor(order, examples, keys[..k])
    {
      var subset := patterns[keys[k]];
      var res := BucketFragment(order, examples, keys[k], subset);
      assert keys[..k + 1][..k] == keys[..k];
      result := result + [res];
    }
    assert keys[..|keys|] == keys;
  }
}
