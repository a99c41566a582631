/** Strings as the source's `str` methods see them: white space and `strip`. */
module Text {

  /** The ranges of code points that Python's `str.isspace` answers true for;
      `strip()` with no argument removes exactly these. */
  function SpaceRange(i: nat): (int, int) {
    match i
    case 0 => (9, 13)
    case 1 => (28, 32)
    case 2 => (0x85, 0x85)
    case 3 => (0xA0, 0xA0)
    case 4 => (0x1680, 0x1680)
    case 5 => (0x2000, 0x200A)
    case 6 => (0x2028, 0x2029)
    case 7 => (0x202F, 0x202F)
    case 8 => (0x205F, 0x205F)
    case _ => (0x3000, 0x3000)
  }

  predicate SpaceCode(n: int, i: nat)
    decreases 10 - i
  {
    i < 10 && (SpaceRange(i).0 <= n <= SpaceRange(i).1 || SpaceCode(n, i + 1))
  }

  predicate IsSpace(c: char) {
    SpaceCode(c as int, 0)
  }

  /** The 29 characters, one by one. */
  lemma SpacesAre(c: char)
    ensures IsSpace(c) <==>
              c as int in {9, 10, 11, 12, 13, 28, 29, 30, 31, 32, 0x85, 0xA0, 0x1680,
                           0x2000, 0x2001, 0x2002, 0x2003, 0x2004, 0x2005, 0x2006, 0x2007, 0x2008, 0x2009, 0x200A,
                           0x2028, 0x2029, 0x202F, 0x205F, 0x3000}
  {
    var n := c as int;
    assert SpaceCode(n, 0) <==> n in {9, 10, 11, 12, 13} || SpaceCode(n, 1);
    assert SpaceCode(n, 1) <==> n in {28, 29, 30, 31, 32} || SpaceCode(n, 2);
    assert SpaceCode(n, 2) <==> n in {0x85} || SpaceCode(n, 3);
    assert SpaceCode(n, 3) <==> n in {0xA0} || SpaceCode(n, 4);
    assert SpaceCode(n, 4) <==> n in {0x1680} || SpaceCode(n, 5);
    assert SpaceCode(n, 5) <==> 0x2000 <= n <= 0x200A || SpaceCode(n, 6);
    assert SpaceCode(n, 6) <==> n in {0x2028, 0x2029} || SpaceCode(n, 7);
    assert SpaceCode(n, 7) <==> n in {0x202F} || SpaceCode(n, 8);
    assert SpaceCode(n, 8) <==> n in {0x205F} || SpaceCode(n, 9);
    assert SpaceCode(n, 9) <==> n in {0x3000} || SpaceCode(n, 10);
  }

  lemma SpaceFacts()
    ensures IsSpace(' ') && IsSpace('\n') && !IsSpace('.')
  {
  }

  /** Only white space from index `i` up to, not including, `j`. */
  ghost predicate Blank(s: string, i: nat, j: nat)
    requires j <= |s|
  {
    forall k :: i <= k < j ==> IsSpace(s[k])
  }

  /** A string that begins and ends with something other than white space. */
  ghost predicate Trimmed(s: string) {
    |s| > 0 && !IsSpace(s[0]) && !IsSpace(s[|s| - 1])
  }

  /** Where the first non-space character at or after `i` stands, or `|s|`. */
  function LeadFrom(s: string, i: nat): (k: nat)
    requires i <= |s|
    ensures i <= k <= |s|
    decreases |s| - i
  {
    if i == |s| || !IsSpace(s[i]) then i else LeadFrom(s, i + 1)
  }

  /** The end of the last non-space character before `j`, or 0. */
  function TailTo(s: string, j: nat): (k: nat)
    requires j <= |s|
    ensures k <= j
  {
    if j == 0 || !IsSpace(s[j - 1]) then j else TailTo(s, j - 1)
  }

  function Lead(s: string): nat {
    LeadFrom(s, 0)
  }

  function Tail(s: string): nat {
    TailTo(s, |s|)
  }

  /** `s.strip()`. */
  function Strip(s: string): string {
    if Lead(s) < Tail(s) then s[Lead(s)..Tail(s)] else ""
  }

  /** A piece of a split text, stripped, and dropped when nothing is left of it. */
  function Kept(s: string): seq<string> {
    if Strip(s) == "" then [] else [Strip(s)]
  }

  lemma {:induction false} LeadFromStops(s: string, i: nat)
    requires i <= |s|
    ensures Blank(s, i, LeadFrom(s, i))
    ensures LeadFrom(s, i) < |s| ==> !IsSpace(s[LeadFrom(s, i)])
    decreases |s| - i
  {
    if i < |s| && IsSpace(s[i]) { LeadFromStops(s, i + 1); }
  }

  lemma {:induction false} TailToStops(s: string, j: nat)
    requires j <= |s|
    ensures Blank(s, TailTo(s, j), j)
    ensures TailTo(s, j) > 0 ==> !IsSpace(s[TailTo(s, j) - 1])
  {
    if j > 0 && IsSpace(s[j - 1]) { TailToStops(s, j - 1); }
  }

  lemma Ends(s: string)
    ensures Lead(s) <= |s| && Blank(s, 0, Lead(s))
    ensures Lead(s) < |s| ==> !IsSpace(s[Lead(s)])
    ensures Tail(s) <= |s| && Blank(s, Tail(s), |s|)
    ensures Tail(s) > 0 ==> !IsSpace(s[Tail(s) - 1])
  {
    LeadFromStops(s, 0);
    TailToStops(s, |s|);
  }

  /** A strip leaves nothing of white space, and otherwise a trimmed string with
      only white space around it. */
  lemma StripTrims(s: string)
    ensures Strip(s) == "" <==> Blank(s, 0, |s|)
    ensures Strip(s) != "" ==> Lead(s) < Tail(s) && Trimmed(Strip(s))
    ensures Strip(s) != "" ==> Blank(s, 0, Lead(s)) && Blank(s, Tail(s), |s|)
  {
    Ends(s);
    if Lead(s) < |s| { assert !IsSpace(s[Lead(s)]); }
  }

  /** The two ends of a strip are the only ones: cutting white space off both
      sides of `s` down to a trimmed middle is what `strip()` returns. */
  lemma StripIs(s: string, lo: nat, hi: nat)
    requires lo < hi <= |s|
    requires Blank(s, 0, lo) && Blank(s, hi, |s|)
    requires !IsSpace(s[lo]) && !IsSpace(s[hi - 1])
    ensures Strip(s) == s[lo..hi]
  {
    Ends(s);
    assert Lead(s) == lo;
    assert Tail(s) == hi;
  }

  lemma StripTrimmed(s: string)
    requires Trimmed(s)
    ensures Strip(s) == s
  {
    StripIs(s, 0, |s|);
  }

  /** White space in front does not change a strip. */
  lemma StripSkipsLead(w: string, s: string)
    requires Blank(w, 0, |w|)
    ensures Strip(w + s) == Strip(s)
  {
    StripTrims(s);
    if Strip(s) == "" {
      assert Blank(w + s, 0, |w + s|);
      StripTrims(w + s);
    } else {
      var lo, hi := Lead(s), Tail(s);
      assert !IsSpace(s[lo]) && !IsSpace(s[hi - 1]) by {
        assert Strip(s)[0] == s[lo] && Strip(s)[hi - lo - 1] == s[hi - 1];
      }
      StripShifts(w, s, lo, hi);
    }
  }

  lemma StripShifts(w: string, s: string, lo: nat, hi: nat)
    requires lo < hi <= |s| && Blank(w, 0, |w|) && Blank(s, 0, lo) && Blank(s, hi, |s|)
    requires !IsSpace(s[lo]) && !IsSpace(s[hi - 1])
    ensures Strip(w + s) == s[lo..hi]
  {
    StripIs(w + s, |w| + lo, |w| + hi);
    assert (w + s)[|w| + lo..|w| + hi] == s[lo..hi];
  }

  /** White space on either side does not change a strip. */
  lemma StripSkipsAround(u: string, s: string, v: string)
    requires Blank(u, 0, |u|) && Blank(v, 0, |v|)
    ensures Strip(u + s + v) == Strip(s)
  {
    StripSkipsTail(s, v);
    StripSkipsLead(u, s + v);
    assert u + s + v == u + (s + v);
  }

  lemma StripSkipsTail(s: string, v: string)
    requires Blank(v, 0, |v|)
    ensures Strip(s + v) == Strip(s)
  {
    StripTrims(s);
    if Strip(s) == "" {
      assert Blank(s + v, 0, |s + v|);
      StripTrims(s + v);
    } else {
      var lo, hi := Lead(s), Tail(s);
      assert !IsSpace(s[lo]) && !IsSpace(s[hi - 1]) by {
        assert Strip(s)[0] == s[lo] && Strip(s)[hi - lo - 1] == s[hi - 1];
      }
      StripIs(s + v, lo, hi);
      assert (s + v)[lo..hi] == s[lo..hi];
    }
  }

  lemma StripTwice(s: string)
    ensures Strip(Strip(s)) == Strip(s)
  {
    StripTrims(s);
    if Strip(s) != "" { StripTrimmed(Strip(s)); }
  }

  // ---- What is left of a text without its white space ----------------------

  /** The characters of `s` that are not white space, in order. */
  function Inked(s: string): string {
    if s == "" then "" else (if IsSpace(s[0]) then "" else [s[0]]) + Inked(s[1..])
  }

  function Concat(parts: seq<string>): string {
    if parts == [] then "" else parts[0] + Concat(parts[1..])
  }

  lemma InkedStep(s: string)
    requires s != ""
    ensures Inked(s) == Inked([s[0]]) + Inked(s[1..])
  {
    hide IsSpace;
    assert [s[0]][1..] == "" && Inked("") == "";
  }

  lemma {:induction false} InkedConcat(a: string, b: string)
    ensures Inked(a + b) == Inked(a) + Inked(b)
  {
    if a == "" {
      assert a + b == b;
    } else {
      hide *;
      InkedConcat(a[1..], b);
      InkedStep(a);
      InkedStep(a + b);
      assert (a + b)[1..] == a[1..] + b && (a + b)[0] == a[0];
    }
  }

  lemma {:induction false} InkedBlank(s: string)
    requires Blank(s, 0, |s|)
    ensures Inked(s) == ""
  {
    if s != "" { InkedBlank(s[1..]); }
  }

  /** White space at either end does not count. */
  lemma InkedMiddle(u: string, m: string, v: string)
    requires Blank(u, 0, |u|) && Blank(v, 0, |v|)
    ensures Inked(u + m + v) == Inked(m)
  {
    InkedBlank(u);
    InkedBlank(v);
    hide *;
    InkedConcat(u + m, v);
    InkedConcat(u, m);
  }

  lemma InkedKept(s: string)
    ensures Inked(Concat(Kept(s))) == Inked(s)
  {
    StripTrims(s);
    hide Inked, IsSpace;
    if Strip(s) == "" {
      InkedBlank(s);
      InkedBlank("");
    } else {
      var lo, hi := Lead(s), Tail(s);
      InkedMiddle(s[..lo], s[lo..hi], s[hi..]);
      assert s == s[..lo] + s[lo..hi] + s[hi..];
      ConcatOne(Strip(s));
    }
  }

  lemma ConcatOne(s: string)
    ensures Concat([s]) == s
  {
    assert Concat([s]) == s + "";
  }

  lemma {:induction false} ConcatAppend(p: seq<string>, q: seq<string>)
    ensures Concat(p + q) == Concat(p) + Concat(q)
  {
    if p == [] {
      assert p + q == q;
    } else {
      ConcatAppend(p[1..], q);
      assert (p + q)[1..] == p[1..] + q && (p + q)[0] == p[0];
    }
  }

  // ---- The order Python compares strings by ------------------------------

  predicate LexLe(a: string, b: string) {
    a == "" || (b != "" && (a[0] < b[0] || (a[0] == b[0] && LexLe(a[1..], b[1..]))))
  }

  lemma {:induction false} PrefixIsLe(a: string, b: string)
    requires a <= b
    ensures LexLe(a, b)
  {
    if a != "" {
      assert b == a + b[|a|..] && b[1..] == a[1..] + b[|a|..];
      PrefixIsLe(a[1..], b[1..]);
    }
  }

  lemma {:induction false} SmallerIsLe(a: string, b: string, k: nat)
    requires k < |a| && k < |b| && a[..k] == b[..k] && a[k] < b[k]
    ensures LexLe(a, b)
  {
    if k > 0 {
      assert a[0] == a[..k][0] == b[..k][0] == b[0];
      assert a[1..][..k - 1] == a[..k][1..] && b[1..][..k - 1] == b[..k][1..];
      SmallerIsLe(a[1..], b[1..], k - 1);
    }
  }

  lemma {:induction false} FirstDifference(a: string, b: string) returns (k: nat)
    requires LexLe(a, b)
    ensures a <= b || (k < |a| && k < |b| && a[..k] == b[..k] && a[k] < b[k])
  {
    k := 0;
    if a != "" && a[0] == b[0] {
      var p, q := a[1..], b[1..];
      assert a == [a[0]] + p && b == [b[0]] + q;
      k := FirstDifference(p, q);
      if !(p <= q) {
        assert a[..k + 1] == [a[0]] + p[..k] && b[..k + 1] == [b[0]] + q[..k];
        k := k + 1;
      }
    }
  }

  /** A string is before another when it is a prefix of it or has the smaller
      character where they first differ. */
  lemma LexIsPythonOrder(a: string, b: string)
    ensures LexLe(a, b) <==> a <= b || exists k :: 0 <= k < |a| && k < |b| && a[..k] == b[..k] && a[k] < b[k]
  {
    hide LexLe;
    if a <= b {
      PrefixIsLe(a, b);
    } else if LexLe(a, b) {
      var k := FirstDifference(a, b);
    } else {
      forall k: nat | k < |a| && k < |b| && a[..k] == b[..k] ensures !(a[k] < b[k]) {
        if a[k] < b[k] { SmallerIsLe(a, b, k); }
      }
    }
  }

  lemma {:induction false} LexTotal(a: string, b: string)
    ensures LexLe(a, b) || LexLe(b, a)
    ensures LexLe(a, b) && LexLe(b, a) ==> a == b
  {
    if a != "" && b != "" {
      LexTotal(a[1..], b[1..]);
      if a[0] == b[0] && a[1..] == b[1..] {
        assert a == [a[0]] + a[1..] && b == [b[0]] + b[1..];
      }
    }
  }

  lemma {:induction false} LexTransitive(a: string, b: string, c: string)
    requires LexLe(a, b) && LexLe(b, c)
    ensures LexLe(a, c)
  {
    if a != "" && b != "" && c != "" && a[0] == b[0] == c[0] {
      LexTransitive(a[1..], b[1..], c[1..]);
    }
  }

  lemma Regroup<T>(a: seq<T>, b: seq<T>, c: seq<T>)
    ensures a + (b + c) == a + b + c
  {
  }

  /** Strictly increasing: sorted, and nothing twice. */
  ghost predicate Ascending(names: seq<string>) {
    forall j, k :: 0 <= j < k < |names| ==> names[j] != names[k] && LexLe(names[j], names[k])
  }

  /** Of any two such names the first is a proper prefix of the second, or has the
      smaller character where they first differ. */
  lemma AscendingIsPythonOrder(names: seq<string>)
    requires Ascending(names)
    ensures forall j, k :: 0 <= j < k < |names| ==>
              || names[j] < names[k]
              || exists i :: 0 <= i < |names[j]| && i < |names[k]|
                    && names[j][..i] == names[k][..i] && names[j][i] < names[k][i]
  {
    hide LexLe;
    forall j, k | 0 <= j < k < |names|
      ensures || names[j] < names[k]
              || exists i :: 0 <= i < |names[j]| && i < |names[k]|
                    && names[j][..i] == names[k][..i] && names[j][i] < names[k][i]
    {
      LexIsPythonOrder(names[j], names[k]);
    }
  }

  /** There is one way to list a set in order. */
  lemma {:induction false} AscendingIsUnique(p: seq<string>, q: seq<string>)
    requires Ascending(p) && Ascending(q)
    requires forall n :: n in p <==> n in q
    ensures p == q
  {
    assert q != [] ==> q[0] in p;
    if p != [] {
      assert p[0] in q;
      assert q[0] in p;
      LexTotal(p[0], q[0]);
      assert p[0] == q[0];
      forall n ensures n in p[1..] <==> n in q[1..] {
        assert n in p && n != p[0] <==> n in p[1..];
        assert n in q && n != q[0] <==> n in q[1..];
      }
      AscendingIsUnique(p[1..], q[1..]);
      assert p == [p[0]] + p[1..] && q == [q[0]] + q[1..];
    }
  }

  /** `min(names)`. */
  method Least(names: set<string>) returns (least: string)
    requires names != {}
    ensures least in names && forall n :: n in names ==> LexLe(least, n)
  {
    least :| least in names;
    var todo := names;
    while todo != {}
      invariant todo <= names && least in names
      invariant forall n :: n in names && n !in todo ==> LexLe(least, n)
      decreases todo
    {
      var n :| n in todo;
      LexTotal(n, least);
      LexTotal(n, n);
      if LexLe(n, least) {
        forall m | m in names && m !in todo ensures LexLe(n, m) { LexTransitive(n, least, m); }
        least := n;
      }
      todo := todo - {n};
    }
  }

  /** `sorted(names)`. */
  method SortNames(names: set<string>) returns (r: seq<string>)
    ensures Ascending(r) && forall n :: n in r <==> n in names
  {
    r := [];
    var todo := names;
    while todo != {}
      invariant todo <= names && Ascending(r)
      invariant forall n :: n in names <==> n in r || n in todo
      invariant forall n, m :: n in r && m in todo ==> n != m && LexLe(n, m)
      decreases todo
    {
      var n := Least(todo);
      r := r + [n];
      todo := todo - {n};
    }
  }
}
