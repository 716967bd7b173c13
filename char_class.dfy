/**
 * The per-position character-class accumulator `PosDesc`
 * (app/tree_processing/tree_processing.py, lines 9-44).
 *
 * Python's `str.isalpha`, `islower`, `isupper` and `isdigit` are modelled on
 * ASCII; the order in which Python iterates a `set` is a parameter
 * `order: set<char> -> seq<char>` of the rendering.
 */
module CharClass {
  import opened Wrappers

  predicate IsLower(c: char) { 'a' <= c <= 'z' }
  predicate IsUpper(c: char) { 'A' <= c <= 'Z' }
  predicate IsAlpha(c: char) { IsLower(c) || IsUpper(c) }
  predicate IsDigit(c: char) { '0' <= c <= '9' }

  /** A character that `add` collects into `other_symbols`. */
  predicate IsSymbol(c: char) { !IsAlpha(c) && !IsDigit(c) }

  /** The value of a `PosDesc`: its four dataclass fields, compared structurally. */
  datatype Desc = Desc(small: bool, capital: bool, digits: bool, other: Option<set<char>>)

  /** `PosDesc()` with the dataclass defaults. */
  const Fresh: Desc := Desc(false, false, false, None)

  /** The symbols collected so far (`None` reads as no symbol). */
  function Symbols(d: Desc): set<char> {
    if d.other.Some? then d.other.value else {}
  }

  /**
   * `other_symbols` is never an empty set, as it is created only to receive a
   * symbol, and it holds nothing but symbols.
   */
  predicate WellFormedDesc(d: Desc) {
    d.other != Some({}) && forall c :: c in Symbols(d) ==> IsSymbol(c)
  }

  /** The effect of `PosDesc.add(c)` on the descriptor's value. */
  function AddChar(d: Desc, c: char): (r: Desc)
    ensures r.small == (d.small || IsLower(c))
    ensures r.capital == (d.capital || IsUpper(c))
    ensures r.digits == (d.digits || IsDigit(c))
    ensures r.other == if IsSymbol(c) then Some(Symbols(d) + {c}) else d.other
    ensures WellFormedDesc(d) ==> WellFormedDesc(r)
  {
    if IsAlpha(c) then
      if IsLower(c) then d.(small := true)
      else if IsUpper(c) then d.(capital := true)
      else d
    else if IsDigit(c) then d.(digits := true)
    else
      var existing := if d.other.None? then {} else d.other.value;
      d.(other := Some(existing + {c}))
  }

  /** The descriptor built by adding the characters of `cs` in order to a fresh one. */
  function Accumulate(cs: seq<char>): (r: Desc)
    ensures WellFormedDesc(r)
  {
    if cs == [] then Fresh else AddChar(Accumulate(cs[..|cs| - 1]), cs[|cs| - 1])
  }

  /**
   * A descriptor built from the characters `cs` records exactly the categories
   * that occur in `cs`, and collects exactly the symbols of `cs`.
   */
  lemma {:induction false} AccumulateRecords(cs: seq<char>)
    ensures Accumulate(cs).small <==> exists c :: c in cs && IsLower(c)
    ensures Accumulate(cs).capital <==> exists c :: c in cs && IsUpper(c)
    ensures Accumulate(cs).digits <==> exists c :: c in cs && IsDigit(c)
    ensures Accumulate(cs).other.Some? <==> exists c :: c in cs && IsSymbol(c)
    ensures Symbols(Accumulate(cs)) == set c | c in cs && IsSymbol(c)
  {
    if cs != [] {
      var init := cs[..|cs| - 1];
      AccumulateRecords(init);
      assert cs == init + [cs[|cs| - 1]];
      assert forall c :: c in cs <==> c in init || c == cs[|cs| - 1];
    }
  }

  /** `d` records at least every category and symbol that `e` records. */
  predicate Covers(d: Desc, e: Desc) {
    (e.small ==> d.small) && (e.capital ==> d.capital) && (e.digits ==> d.digits) &&
    Symbols(e) <= Symbols(d)
  }

  /** Adding characters never clears a flag nor drops a symbol. */
  lemma {:induction false} AccumulateGrows(cs: seq<char>, ds: seq<char>)
    ensures Covers(Accumulate(cs + ds), Accumulate(cs))
  {
    if ds != [] {
      var init := ds[..|ds| - 1];
      assert cs + ds == (cs + init) + [ds[|ds| - 1]];
      assert (cs + ds)[..|cs + ds| - 1] == cs + init;
      AccumulateGrows(cs, init);
    } else {
      assert cs + ds == cs;
    }
  }

  /** The category part of `__repr__`, in its fixed order. */
  function CategoryText(d: Desc): string {
    (if d.small then "a-z" else "") + (if d.capital then "A-Z" else "") + (if d.digits then "0-9" else "")
  }

  /** `s` lists every member of `m` exactly once and nothing else. */
  ghost predicate Enumerates(s: seq<char>, m: set<char>) {
    (forall i, j :: 0 <= i < j < |s| ==> s[i] != s[j]) && (forall c :: c in s <==> c in m)
  }

  /** `order` behaves as a set iteration: it visits every element once. */
  ghost predicate IsSetOrder(order: set<char> -> seq<char>) {
    forall m :: Enumerates(order(m), m)
  }

  /** `str(d)` for a descriptor whose symbol set Python iterates in `order`. */
  function Render(order: set<char> -> seq<char>, d: Desc): string {
    "[" + CategoryText(d) + (if d.other.Some? then order(d.other.value) else "") + "]"
  }

  lemma {:induction false} EnumerationLength(s: seq<char>, m: set<char>)
    requires Enumerates(s, m)
    ensures |s| == |m|
  {
    if s != [] {
      var x := s[0];
      assert Enumerates(s[1..], m - {x}) by {
        forall c ensures c in s[1..] <==> c in m - {x} {
          if c in s[1..] {
            var k :| 1 <= k < |s| && s[k] == c;
            assert s[0] != s[k];
          }
          if c in s && c != x {
            var k :| 0 <= k < |s| && s[k] == c;
            assert s[1..][k - 1] == c;
          }
        }
      }
      EnumerationLength(s[1..], m - {x});
    } else {
      assert forall c :: c !in m;
      assert m == {};
    }
  }

  /**
   * The rendering is `[`, the categories in the order `a-z`, `A-Z`, `0-9`,
   * then every collected symbol exactly once, then `]`.
   */
  lemma RenderShape(order: set<char> -> seq<char>, d: Desc)
    requires IsSetOrder(order)
    ensures var r := Render(order, d); var n := |CategoryText(d)|;
      |r| == n + |Symbols(d)| + 2 && r[0] == '[' && r[|r| - 1] == ']' &&
      r[1..n + 1] == CategoryText(d) && Enumerates(r[n + 1..|r| - 1], Symbols(d))
  {
    var r := Render(order, d);
    var n := |CategoryText(d)|;
    var syms := if d.other.Some? then order(d.other.value) else "";
    assert Enumerates(syms, Symbols(d));
    EnumerationLength(syms, Symbols(d));
    assert r == "[" + CategoryText(d) + syms + "]";
    assert r[n + 1..|r| - 1] == syms;
  }

  /** A fresh descriptor renders as `[]`. */
  lemma RenderFresh(order: set<char> -> seq<char>)
    ensures Render(order, Fresh) == "[]"
  {
  }

  /** Reads an optional three-letter tag off the front of `u`. */
  function StripTag(u: string, tag: string): (bool, string) {
    if |u| >= |tag| && u[..|tag|] == tag then (true, u[|tag|..]) else (false, u)
  }

  /** Reads the category flags back from the front of a class body. */
  function ReadCategories(u: string): (bool, bool, bool, string) {
    var (a, u1) := StripTag(u, "a-z");
    var (b, u2) := StripTag(u1, "A-Z");
    var (c, u3) := StripTag(u2, "0-9");
    (a, b, c, u3)
  }

  lemma StripPresent(tag: string, s: string)
    ensures StripTag(tag + s, tag) == (true, s)
  {
    assert (tag + s)[..|tag|] == tag;
    assert (tag + s)[|tag|..] == s;
  }

  lemma StripAbsent(tag: string, u: string)
    requires tag != [] && (u == [] || u[0] != tag[0])
    ensures StripTag(u, tag) == (false, u)
  {
    if |u| >= |tag| {
      assert u[..|tag|][0] == u[0];
    }
  }

  /** The category text is read back exactly, whatever symbols follow it. */
  lemma ReadCategoriesBack(d: Desc, s: string)
    requires forall c :: c in s ==> IsSymbol(c)
    ensures ReadCategories(CategoryText(d) + s) == (d.small, d.capital, d.digits, s)
  {
    var tc := if d.digits then "0-9" else "";
    var tb := if d.capital then "A-Z" else "";
    var ta := if d.small then "a-z" else "";
    var u3 := tc + s;
    var u2 := tb + u3;
    var u1 := ta + u2;
    assert CategoryText(d) + s == u1;
    assert s != [] ==> IsSymbol(s[0]);
    if d.digits {
      StripPresent("0-9", s);
    } else {
      assert u3 == s;
      StripAbsent("0-9", s);
    }
    assert StripTag(u3, "0-9") == (d.digits, s);
    assert u3 != [] ==> u3[0] == '0' || IsSymbol(u3[0]);
    if d.capital {
      StripPresent("A-Z", u3);
    } else {
      assert u2 == u3;
      StripAbsent("A-Z", u3);
    }
    assert StripTag(u2, "A-Z") == (d.capital, u3);
    assert u2 != [] ==> u2[0] == '0' || u2[0] == 'A' || IsSymbol(u2[0]);
    if d.small {
      StripPresent("a-z", u2);
    } else {
      assert u1 == u2;
      StripAbsent("a-z", u2);
    }
    assert StripTag(u1, "a-z") == (d.small, u2);
  }

  /** The rendering of `d` is its category text and an enumeration of its symbols, in brackets. */
  lemma RenderParts(order: set<char> -> seq<char>, d: Desc) returns (syms: string)
    requires IsSetOrder(order)
    ensures Enumerates(syms, Symbols(d))
    ensures Render(order, d) == "[" + (CategoryText(d) + syms) + "]"
  {
    syms := if d.other.Some? then order(d.other.value) else "";
  }

  lemma BracketsCancel(x: string, y: string)
    requires "[" + x + "]" == "[" + y + "]"
    ensures x == y
  {
    var r := "[" + x + "]";
    assert x == r[1..|r| - 1];
    assert y == r[1..|r| - 1];
  }

  lemma EnumeratedOnce(s: string, a: set<char>, b: set<char>)
    requires Enumerates(s, a) && Enumerates(s, b)
    ensures a == b
  {
    assert forall c :: c in a <==> c in s;
  }

  /**
   * Equal renderings come from equal descriptors: comparing descriptors
   * structurally, as the run-length encoder does, agrees with comparing their
   * rendered text.
   */
  lemma {:induction false} RenderInjective(order: set<char> -> seq<char>, d: Desc, e: Desc)
    requires IsSetOrder(order) && WellFormedDesc(d) && WellFormedDesc(e)
    requires Render(order, d) == Render(order, e)
    ensures d == e
  {
    var sd := RenderParts(order, d);
    var se := RenderParts(order, e);
    BracketsCancel(CategoryText(d) + sd, CategoryText(e) + se);
    assert forall c :: c in sd ==> IsSymbol(c);
    assert forall c :: c in se ==> IsSymbol(c);
    ReadCategoriesBack(d, sd);
    ReadCategoriesBack(e, se);
    EnumeratedOnce(sd, Symbols(d), Symbols(e));
  }

  /** A `PosDesc` object; its fields are updated in place by `add`. */
  class PosDesc {
    var small: bool
    var capital: bool
    var digits: bool
    var other: Option<set<char>>

    function Value(): Desc
      reads this
    {
      Desc(small, capital, digits, other)
    }

    constructor ()
      ensures Value() == Fresh
    {
      small, capital, digits, other := false, false, false, None;
    }

    /** `PosDesc.add`: record the category of `c`, or collect `c` as a symbol. */
    method Add(c: char)
      modifies this
      ensures Value() == AddChar(old(Value()), c)
    {
      if IsAlpha(c) {
        if IsLower(c) {
          small := true;
        } else if IsUpper(c) {
          capital := true;
        }
      } else if IsDigit(c) {
        digits := true;
      } else {
        if other.None? {
          other := Some({});
        }
        other := Some(other.value + {c});
      }
    }

    /** The first half of `PosDesc.__repr__`: the category ranges, in their fixed order. */
    method CategoryRanges() returns (r: string)
      ensures r == CategoryText(Value())
    {
      r := "";
      if small {
        r := r + "a-z";
      }
      if capital {
        r := r + "A-Z";
      }
      if digits {
        r := r + "0-9";
      }
    }

    /** `PosDesc.__repr__`, accumulating the class text piece by piece. */
    method Repr(order: set<char> -> seq<char>) returns (r: string)
      ensures r == Render(order, Value())
    {
      r := CategoryRanges();
      ghost var categories := r;
      if other.Some? {
        var syms := order(other.value);
        for i := 0 to |syms|
          invariant r == categories + syms[..i]
        {
          assert syms[..i + 1] == syms[..i] + [syms[i]];
          r := r + [syms[i]];
        }
        assert syms[..|syms|] == syms;
      }
      r := "[" + r + "]";
    }
  }
}
