/**
 * The string operations the mining engine relies on: Python's `s.split('.')`,
 * `'.'.join(parts)`, list reversal `[::-1]` and the decimal rendering of an
 * `int` inside an f-string.
 */
module Text {

  /** `s` contains no dot. */
  predicate DotFree(s: string) {
    '.' !in s
  }

  /** `s.split('.')`: the dot-separated segments of `s`, empty ones included. */
  function Split(s: string): (parts: seq<string>)
    ensures |parts| >= 1
  {
    if s == [] then [[]]
    else
      var init := Split(s[..|s| - 1]);
      if s[|s| - 1] == '.' then init + [[]]
      else init[..|init| - 1] + [init[|init| - 1] + [s[|s| - 1]]]
  }

  /** `'.'.join(parts)`. */
  function Join(parts: seq<string>): string {
    if parts == [] then ""
    else if |parts| == 1 then parts[0]
    else Join(parts[..|parts| - 1]) + "." + parts[|parts| - 1]
  }

  /** `parts[::-1]`. */
  function Reverse<T>(s: seq<T>): (r: seq<T>)
    ensures |r| == |s|
  {
    if s == [] then [] else [s[|s| - 1]] + Reverse(s[..|s| - 1])
  }

  lemma {:induction false} ReverseAt<T>(s: seq<T>, k: nat)
    requires k < |s|
    ensures Reverse(s)[k] == s[|s| - 1 - k]
  {
    if k > 0 {
      ReverseAt(s[..|s| - 1], k - 1);
    }
  }

  lemma {:induction false} ReverseAppend<T>(s: seq<T>, t: seq<T>)
    ensures Reverse(s + t) == Reverse(t) + Reverse(s)
  {
    if t == [] {
      assert s + t == s;
    } else {
      assert (s + t)[..|s + t| - 1] == s + t[..|t| - 1];
      ReverseAppend(s, t[..|t| - 1]);
    }
  }

  /** Segments never contain the separator. */
  lemma {:induction false} SplitDotFree(s: string)
    ensures forall k :: 0 <= k < |Split(s)| ==> DotFree(Split(s)[k])
  {
    if s != [] {
      SplitDotFree(s[..|s| - 1]);
    }
  }

  /** Appending dot-free text extends the last segment. */
  lemma {:induction false} SplitExtend(s: string, t: string)
    requires DotFree(t)
    ensures var p := Split(s); Split(s + t) == p[..|p| - 1] + [p[|p| - 1] + t]
  {
    if t == [] {
      assert s + t == s;
      var p := Split(s);
      assert p[|p| - 1] + t == p[|p| - 1];
      assert p == p[..|p| - 1] + [p[|p| - 1]];
    } else {
      var init := t[..|t| - 1];
      assert (s + t)[..|s + t| - 1] == s + init;
      assert (s + t)[|s + t| - 1] == t[|t| - 1];
      SplitExtend(s, init);
      var p := Split(s);
      var q := Split(s + init);
      assert q[..|q| - 1] == p[..|p| - 1];
      assert q[|q| - 1] + [t[|t| - 1]] == p[|p| - 1] + t;
    }
  }

  /** Appending a dot and then a dot-free segment adds exactly that segment. */
  lemma SplitAppendSegment(s: string, t: string)
    requires DotFree(t)
    ensures Split(s + "." + t) == Split(s) + [t]
  {
    var u := s + ".";
    assert u[..|u| - 1] == s && u[|u| - 1] == '.';
    var p := Split(u);
    assert p == Split(s) + [[]];
    SplitExtend(u, t);
    assert p[..|p| - 1] == Split(s);
    assert p[|p| - 1] + t == t;
  }

  lemma {:induction false} JoinAppend(parts: seq<string>, t: string)
    requires parts != []
    ensures Join(parts + [t]) == Join(parts) + "." + t
  {
    assert (parts + [t])[..|parts + [t]| - 1] == parts;
  }

  /** Extending the last segment by `c` extends the joined text by `c`. */
  lemma {:induction false} JoinExtendLast(p: seq<string>, c: char)
    requires p != []
    ensures Join(p[..|p| - 1] + [p[|p| - 1] + [c]]) == Join(p) + [c]
  {
    var q := p[..|p| - 1];
    var last := p[|p| - 1];
    assert p == q + [last];
    if q == [] {
      assert q + [last + [c]] == [last + [c]];
    } else {
      JoinAppend(q, last);
      JoinAppend(q, last + [c]);
      assert Join(q) + "." + (last + [c]) == (Join(q) + "." + last) + [c];
    }
  }

  /** Splitting and joining again gives the original text back. */
  lemma {:induction false} JoinSplit(s: string)
    ensures Join(Split(s)) == s
  {
    if s != [] {
      var init := s[..|s| - 1];
      var c := s[|s| - 1];
      JoinSplit(init);
      assert s == init + [c];
      if c == '.' {
        JoinAppend(Split(init), []);
      } else {
        JoinExtendLast(Split(init), c);
      }
    }
  }

  /** A dot-free string is a single segment. */
  lemma SplitSingle(t: string)
    requires DotFree(t)
    ensures Split(t) == [t]
  {
    SplitExtend([], t);
    assert [] + t == t;
  }

  lemma SplitJoinStep(init: seq<string>, last: string)
    requires init != [] && DotFree(last) && Split(Join(init)) == init
    ensures Split(Join(init + [last])) == init + [last]
  {
    var parts := init + [last];
    assert parts[..|parts| - 1] == init && parts[|parts| - 1] == last;
    assert Join(parts) == Join(init) + "." + last;
    SplitAppendSegment(Join(init), last);
  }

  /** Joining dot-free segments and splitting again gives the segments back. */
  lemma {:induction false} SplitJoin(parts: seq<string>)
    requires parts != []
    requires forall k :: 0 <= k < |parts| ==> DotFree(parts[k])
    ensures Split(Join(parts)) == parts
  {
    var last := parts[|parts| - 1];
    if |parts| == 1 {
      SplitSingle(last);
      assert parts == [last];
    } else {
      var init := parts[..|parts| - 1];
      assert parts == init + [last];
      assert forall k :: 0 <= k < |init| ==> init[k] == parts[k];
      SplitJoin(init);
      SplitJoinStep(init, last);
    }
  }

  /** The decimal digit for `d`. */
  function DigitChar(d: nat): (c: char)
    requires d < 10
    ensures '0' <= c <= '9' && (c - '0') as nat == d
  {
    ('0' as int + d) as char
  }

  /** `f"{n}"` for a non-negative `int`. */
  function NatToString(n: nat): (s: string)
    ensures |s| >= 1 && forall k :: 0 <= k < |s| ==> '0' <= s[k] <= '9'
  {
    if n < 10 then [DigitChar(n)] else NatToString(n / 10) + [DigitChar(n % 10)]
  }

  /** The number a string of decimal digits denotes. */
  function DecimalValue(s: string): nat
    requires forall k :: 0 <= k < |s| ==> '0' <= s[k] <= '9'
  {
    if s == [] then 0 else 10 * DecimalValue(s[..|s| - 1]) + (s[|s| - 1] - '0') as nat
  }

  /** The decimal rendering denotes the number it renders, without a leading zero. */
  lemma {:induction false} NatToStringValue(n: nat)
    ensures DecimalValue(NatToString(n)) == n
    ensures n > 0 ==> NatToString(n)[0] != '0'
  {
    var s := NatToString(n);
    if n >= 10 {
      NatToStringValue(n / 10);
      var init := NatToString(n / 10);
      assert s == init + [DigitChar(n % 10)];
      assert s[..|s| - 1] == init && s[|s| - 1] == DigitChar(n % 10);
      assert s[0] == init[0];
      assert n == 10 * (n / 10) + n % 10;
    } else {
      assert s == [DigitChar(n)] && s[..0] == [];
    }
  }
}
