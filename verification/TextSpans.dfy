/** Slices of a text: where the pieces that a splitter keeps stand in it. */
module TextSpans {
  import opened Text

  datatype Span = Span(lo: nat, hi: nat)

  function Moved(spans: seq<Span>, d: nat): seq<Span> {
    seq(|spans|, k requires 0 <= k < |spans| => Span(spans[k].lo + d, spans[k].hi + d))
  }

  function KeptSpan(s: string): seq<Span> {
    if Strip(s) == "" then [] else [Span(Lead(s), Tail(s))]
  }

  ghost predicate Inside(i: nat, spans: seq<Span>) {
    exists k :: 0 <= k < |spans| && spans[k].lo <= i < spans[k].hi
  }

  /** Non-empty slices of `t`, in order and without overlap. */
  ghost predicate Ordered(t: string, spans: seq<Span>) {
    && (forall k :: 0 <= k < |spans| ==> spans[k].lo < spans[k].hi <= |t|)
    && (forall j, k :: 0 <= j < k < |spans| ==> spans[j].hi <= spans[k].lo)
  }

  /** `spans` are ordered slices of `t`, they read `ss`, and miss only white space. */
  ghost predicate Covers(t: string, spans: seq<Span>, ss: seq<string>) {
    && Ordered(t, spans)
    && |spans| == |ss|
    && (forall k :: 0 <= k < |spans| ==> ss[k] == t[spans[k].lo..spans[k].hi])
    && (forall i :: 0 <= i < |t| ==> (Inside(i, spans) || IsSpace(t[i])))
  }

  lemma SuffixSlice(t: string, d: nat, lo: nat, hi: nat)
    requires d <= |t| && lo <= hi <= |t| - d
    ensures t[d..][lo..hi] == t[lo + d..hi + d]
  {
  }

  lemma OrderedConcat(t: string, d: nat, hs: seq<Span>, rs: seq<Span>)
    requires d <= |t| && Ordered(t[..d], hs) && Ordered(t[d..], rs)
    ensures Ordered(t, hs + Moved(rs, d))
  {
    var all := hs + Moved(rs, d);
    forall k | 0 <= k < |all|
      ensures all[k].lo < all[k].hi <= |t| && (k < |hs| ==> all[k].hi <= d) && (k >= |hs| ==> d <= all[k].lo)
    {
      if k >= |hs| { assert all[k] == Span(rs[k - |hs|].lo + d, rs[k - |hs|].hi + d); }
    }
  }

  lemma SlicesConcat(t: string, d: nat, hs: seq<Span>, rs: seq<Span>, h: seq<string>, r: seq<string>, k: nat)
    requires d <= |t| && Covers(t[..d], hs, h) && Covers(t[d..], rs, r) && k < |hs| + |rs|
    ensures var s := (hs + Moved(rs, d))[k]; s.lo < s.hi <= |t| && (h + r)[k] == t[s.lo..s.hi]
  {
    if k < |hs| {
    } else {
      var s := rs[k - |hs|];
      assert Moved(rs, d)[k - |hs|] == Span(s.lo + d, s.hi + d);
      SuffixSlice(t, d, s.lo, s.hi);
    }
  }

  lemma InsideConcat(hs: seq<Span>, rs: seq<Span>, d: nat, j: nat)
    ensures Inside(j, hs) ==> Inside(j, hs + Moved(rs, d))
    ensures j >= d && Inside(j - d, rs) ==> Inside(j, hs + Moved(rs, d))
  {
    var all := hs + Moved(rs, d);
    if Inside(j, hs) {
      var k :| 0 <= k < |hs| && hs[k].lo <= j < hs[k].hi;
      assert all[k] == hs[k];
    }
    if j >= d && Inside(j - d, rs) {
      var k :| 0 <= k < |rs| && rs[k].lo <= j - d < rs[k].hi;
      assert all[|hs| + k] == Span(rs[k].lo + d, rs[k].hi + d);
    }
  }

  lemma SpansConcat(t: string, d: nat, hs: seq<Span>, rs: seq<Span>, h: seq<string>, r: seq<string>)
    requires d <= |t| && Covers(t[..d], hs, h) && Covers(t[d..], rs, r)
    ensures Covers(t, hs + Moved(rs, d), h + r)
  {
    var all := hs + Moved(rs, d);
    OrderedConcat(t, d, hs, rs);
    forall k | 0 <= k < |all| ensures (h + r)[k] == t[all[k].lo..all[k].hi] {
      SlicesConcat(t, d, hs, rs, h, r, k);
    }
    forall j | 0 <= j < |t| ensures Inside(j, all) || IsSpace(t[j]) {
      InsideConcat(hs, rs, d, j);
      if j < d { assert t[..d][j] == t[j]; } else { assert t[d..][j - d] == t[j]; }
    }
  }

  lemma KeptSpanCovers(s: string)
    ensures Covers(s, KeptSpan(s), Kept(s))
  {
    StripTrims(s);
    if Strip(s) != "" {
      assert KeptSpan(s)[0] == Span(Lead(s), Tail(s));
    }
  }

  lemma PrefixSlice(t: string, d: nat, lo: nat, hi: nat)
    requires lo <= hi <= d <= |t|
    ensures t[..d][lo..hi] == t[lo..hi]
  {
  }

  /** White space at the end of a piece changes nothing. */
  lemma PaddedSpanCovers(s: string, i: nat)
    requires i <= |s| && Blank(s, i, |s|)
    ensures Covers(s, KeptSpan(s[..i]), Kept(s[..i]))
  {
    var p := s[..i];
    KeptSpanCovers(p);
    hide KeptSpan, Kept, Strip, IsSpace;
    forall j | 0 <= j < |s| ensures Inside(j, KeptSpan(p)) || IsSpace(s[j]) {
      if j < i { assert p[j] == s[j]; }
    }
    forall k | 0 <= k < |KeptSpan(p)| ensures Kept(p)[k] == s[KeptSpan(p)[k].lo..KeptSpan(p)[k].hi] {
      PrefixSlice(s, i, KeptSpan(p)[k].lo, KeptSpan(p)[k].hi);
    }
  }
}
