/** The paragraph packer `_size_cap` of `src/api/retriever.py`. */
module SizeCap {
  import opened Text
  import opened TextSpans

  // ---- Paragraphs of a text ----------------------------------------------

  const SEPARATOR := "\n\n"

  predicate SepAt(t: string, i: nat) {
    i + 1 < |t| && t[i] == '\n' && t[i + 1] == '\n'
  }

  function NextSep(t: string, from: nat): (i: nat)
    requires from <= |t|
    ensures from <= i <= |t|
    ensures i < |t| ==> SepAt(t, i)
    ensures forall k :: from <= k < i ==> !SepAt(t, k)
    decreases |t| - from
  {
    if from == |t| || SepAt(t, from) then from else NextSep(t, from + 1)
  }

  /** The stripped non-empty pieces of `text.split("\n\n")`. */
  function Paragraphs(t: string): seq<string>
    decreases |t|
  {
    var i := NextSep(t, 0);
    if i == |t| then Kept(t) else Kept(t[..i]) + Paragraphs(t[i + 2..])
  }

  /** `"\n\n".join(ps)`. */
  function Joined(ps: seq<string>): string {
    if |ps| == 0 then "" else if |ps| == 1 then ps[0] else ps[0] + SEPARATOR + Joined(ps[1..])
  }

  /** What a paragraph can look like: trimmed, with no separator inside. */
  ghost predicate Clean(p: string) {
    Trimmed(p) && forall i :: 0 <= i < |p| ==> !SepAt(p, i)
  }

  ghost predicate AllClean(ps: seq<string>) {
    forall k :: 0 <= k < |ps| ==> Clean(ps[k])
  }

  lemma KeptIsClean(t: string, end: nat)
    requires end <= |t|
    requires forall k :: 0 <= k < end ==> !SepAt(t, k)
    ensures AllClean(Kept(t[..end]))
  {
    var p := t[..end];
    StripTrims(p);
    if Strip(p) != "" {
      var s := p[Lead(p)..Tail(p)];
      forall i | 0 <= i < |s| ensures !SepAt(s, i) {
        if i + 1 < |s| {
          assert s[i] == t[Lead(p) + i] && s[i + 1] == t[Lead(p) + i + 1] && !SepAt(t, Lead(p) + i);
        }
      }
    }
  }

  lemma {:induction false} ParagraphsAreClean(t: string)
    ensures AllClean(Paragraphs(t))
    decreases |t|
  {
    hide Kept, Clean, NextSep;
    var i := NextSep(t, 0);
    KeptIsClean(t, i);
    if i == |t| {
      assert t[..i] == t;
    } else {
      ParagraphsAreClean(t[i + 2..]);
    }
  }

  lemma ParagraphSplitsOff(p: string, rest: string)
    requires Clean(p)
    ensures Paragraphs(p + SEPARATOR + rest) == [p] + Paragraphs(rest)
  {
    var t := p + SEPARATOR + rest;
    forall k | 0 <= k < |p| ensures !SepAt(t, k) {
      if k + 1 < |p| { assert t[k] == p[k] && t[k + 1] == p[k + 1] && !SepAt(p, k); }
    }
    assert SepAt(t, |p|);
    assert NextSep(t, 0) == |p|;
    assert t[..|p|] == p && t[|p| + 2..] == rest;
    StripTrimmed(p);
  }

  lemma {:induction false} JoinedSplitsBack(ps: seq<string>)
    requires AllClean(ps)
    ensures Paragraphs(Joined(ps)) == ps
  {
    if |ps| == 0 {
      assert NextSep("", 0) == 0;
    } else if |ps| == 1 {
      assert Clean(ps[0]);
      assert NextSep(ps[0], 0) == |ps[0]|;
      StripTrimmed(ps[0]);
    } else {
      JoinedSplitsBack(ps[1..]);
      ParagraphSplitsOff(ps[0], Joined(ps[1..]));
    }
  }

  // ---- The paragraphs hold the text -----------------------------------------

  /** The positions the paragraphs come from. */
  function ParagraphSpans(t: string): seq<Span>
    decreases |t|
  {
    var i := NextSep(t, 0);
    if i == |t| then KeptSpan(t) else KeptSpan(t[..i]) + Moved(ParagraphSpans(t[i + 2..]), i + 2)
  }

  lemma ParagraphsUnfold(t: string)
    ensures NextSep(t, 0) < |t| ==> NextSep(t, 0) + 2 <= |t|
    ensures var i := NextSep(t, 0);
            && Paragraphs(t) == (if i == |t| then Kept(t) else Kept(t[..i]) + Paragraphs(t[i + 2..]))
            && ParagraphSpans(t)
               == if i == |t| then KeptSpan(t) else KeptSpan(t[..i]) + Moved(ParagraphSpans(t[i + 2..]), i + 2)
  {
    hide Kept, KeptSpan, Moved;
  }

  lemma SepIsBlank(t: string, i: nat)
    requires SepAt(t, i)
    ensures i + 2 <= |t| && Blank(t[..i + 2], i, i + 2)
  {
    SpaceFacts();
  }

  /** Every paragraph is the verbatim slice at its span, the spans are in order and
      disjoint, and outside them the text has nothing but white space. */
  lemma {:induction false} ParagraphsCoverText(t: string)
    ensures Covers(t, ParagraphSpans(t), Paragraphs(t))
    decreases |t|
  {
    hide *;
    var i := NextSep(t, 0);
    ParagraphsUnfold(t);
    if i == |t| {
      KeptSpanCovers(t);
    } else {
      SepIsBlank(t, i);
      var head := t[..i + 2];
      assert head[..i] == t[..i];
      PaddedSpanCovers(head, i);
      ParagraphsCoverText(t[i + 2..]);
      SpansConcat(t, i + 2, KeptSpan(t[..i]), ParagraphSpans(t[i + 2..]), Kept(t[..i]), Paragraphs(t[i + 2..]));
    }
  }

  ghost predicate BreakIn(t: string, i: nat, j: nat) {
    exists k :: i <= k && k + 1 < j <= |t| && t[k] == '\n' && t[k + 1] == '\n'
  }

  lemma BreakMoves(t: string, d: nat, i: nat, j: nat)
    requires d <= |t| && BreakIn(t[d..], i, j)
    ensures BreakIn(t, i + d, j + d)
  {
    var rest := t[d..];
    var k :| i <= k && k + 1 < j <= |rest| && rest[k] == '\n' && rest[k + 1] == '\n';
    assert t[k + d] == '\n' && t[k + d + 1] == '\n';
  }

  lemma {:induction false} BreaksBetween(t: string)
    ensures forall k :: 0 < k < |ParagraphSpans(t)| ==>
              BreakIn(t, ParagraphSpans(t)[k - 1].hi, ParagraphSpans(t)[k].lo)
    decreases |t|
  {
    hide *;
    var i := NextSep(t, 0);
    ParagraphsUnfold(t);
    if i < |t| {
      BreaksBetween(t[i + 2..]);
      ParagraphsCoverText(t[i + 2..]);
      CoveredAreOrdered(t[i + 2..], ParagraphSpans(t[i + 2..]), Paragraphs(t[i + 2..]));
      BreaksConcat(t, i, ParagraphSpans(t[i + 2..]));
    } else {
      OneSpan(t);
    }
  }

  lemma CoveredAreOrdered(t: string, spans: seq<Span>, ss: seq<string>)
    requires Covers(t, spans, ss)
    ensures Ordered(t, spans)
  {
  }

  lemma OneSpan(s: string)
    ensures |KeptSpan(s)| <= 1 && (|KeptSpan(s)| == 1 ==> KeptSpan(s)[0].hi <= |s|)
  {
    Ends(s);
  }

  lemma BreaksConcat(t: string, i: nat, rs: seq<Span>)
    requires SepAt(t, i) && i + 2 <= |t| && Ordered(t[i + 2..], rs)
    requires forall k :: 0 < k < |rs| ==> BreakIn(t[i + 2..], rs[k - 1].hi, rs[k].lo)
    ensures var all := KeptSpan(t[..i]) + Moved(rs, i + 2);
            forall k :: 0 < k < |all| ==> BreakIn(t, all[k - 1].hi, all[k].lo)
  {
    var d, hs := i + 2, KeptSpan(t[..i]);
    var all := hs + Moved(rs, d);
    OneSpan(t[..i]);
    forall k | |hs| <= k < |all| ensures all[k] == Span(rs[k - |hs|].lo + d, rs[k - |hs|].hi + d) {}
    forall k | 0 <= k < |rs| ensures rs[k].lo < |t| - d {}
    hide *;
    forall k | 0 < k < |all| ensures BreakIn(t, all[k - 1].hi, all[k].lo) {
      if k > |hs| {
        BreakMoves(t, d, rs[k - |hs| - 1].hi, rs[k - |hs|].lo);
      } else {
        assert all[k - 1] == hs[0];
        BreakAt(t, i, hs[0].hi, rs[0].lo + d);
      }
    }
  }

  lemma BreakAt(t: string, i: nat, from: nat, end: nat)
    requires SepAt(t, i) && from <= i && i + 2 <= end <= |t|
    ensures BreakIn(t, from, end)
  {
  }

  lemma CleanHasNoBreak(t: string, p: string, lo: nat, hi: nat)
    requires lo <= hi <= |t| && p == t[lo..hi] && Clean(p)
    ensures !BreakIn(t, lo, hi)
  {
    if BreakIn(t, lo, hi) {
      var k :| lo <= k && k + 1 < hi <= |t| && t[k] == '\n' && t[k + 1] == '\n';
      assert SepAt(p, k - lo);
    }
  }

  /** Where the text is split, on its own characters: there is a break between any
      two paragraphs and none inside one. */
  lemma ParagraphBreaks(t: string)
    ensures forall k :: 0 <= k < |ParagraphSpans(t)| ==> !BreakIn(t, ParagraphSpans(t)[k].lo, ParagraphSpans(t)[k].hi)
    ensures forall k :: 0 < k < |ParagraphSpans(t)| ==>
              BreakIn(t, ParagraphSpans(t)[k - 1].hi, ParagraphSpans(t)[k].lo)
  {
    var spans, ps := ParagraphSpans(t), Paragraphs(t);
    BreaksBetween(t);
    ParagraphsCoverText(t);
    ParagraphsAreClean(t);
    hide ParagraphSpans, Paragraphs, Clean, BreakIn;
    forall k | 0 <= k < |spans| ensures !BreakIn(t, spans[k].lo, spans[k].hi) {
      CleanHasNoBreak(t, ps[k], spans[k].lo, spans[k].hi);
    }
  }

  /** Nothing but white space is lost or added between a text and its paragraphs. */
  lemma {:induction false} ParagraphsKeepInk(t: string)
    ensures Inked(Concat(Paragraphs(t))) == Inked(t)
    decreases |t|
  {
    hide *;
    var i := NextSep(t, 0);
    ParagraphsUnfold(t);
    if i == |t| {
      InkedKept(t);
    } else {
      ParagraphsKeepInk(t[i + 2..]);
      InkedKept(t[..i]);
      ConcatAppend(Kept(t[..i]), Paragraphs(t[i + 2..]));
      InkedConcat(Concat(Kept(t[..i])), Concat(Paragraphs(t[i + 2..])));
      SeparatorSkipped(t, i);
    }
  }

  lemma SeparatorSkipped(t: string, i: nat)
    requires SepAt(t, i)
    ensures Inked(t) == Inked(t[..i]) + Inked(t[i + 2..])
  {
    SpaceFacts();
    hide IsSpace, Inked;
    assert t == t[..i] + (SEPARATOR + t[i + 2..]);
    InkedConcat(t[..i], SEPARATOR + t[i + 2..]);
    InkedConcat(SEPARATOR, t[i + 2..]);
    InkedBlank(SEPARATOR);
  }

  lemma {:induction false} JoinedKeepsInk(ps: seq<string>)
    ensures Inked(Joined(ps)) == Inked(Concat(ps))
  {
    SpaceFacts();
    hide IsSpace, Inked;
    if |ps| == 1 {
      ConcatOne(ps[0]);
      assert ps == [ps[0]];
    } else if |ps| > 1 {
      JoinedKeepsInk(ps[1..]);
      InkedConcat(ps[0] + SEPARATOR, Joined(ps[1..]));
      InkedConcat(ps[0], SEPARATOR);
      InkedBlank(SEPARATOR);
      InkedConcat(ps[0], Concat(ps[1..]));
    }
  }

  // ---- Packings -----------------------------------------------------------

  /** One step of a packing: some whole paragraphs in one chunk, or one
      paragraph cut into several chunks. */
  datatype Piece = Group(ps: seq<string>) | Cut(parts: seq<string>)

  ghost predicate ValidPiece(p: Piece, max: nat) {
    match p
    case Group(ps) => ps != [] && |Joined(ps)| <= max
    case Cut(parts) => |Concat(parts)| > max && forall k :: 0 <= k < |parts| ==> |parts[k]| <= max
  }

  function PieceParagraphs(p: Piece): seq<string> {
    match p
    case Group(ps) => ps
    case Cut(parts) => [Concat(parts)]
  }

  function PieceChunks(p: Piece): seq<string> {
    match p
    case Group(ps) => [Joined(ps)]
    case Cut(parts) => parts
  }

  /** The paragraphs a packing is made from, in order. */
  function Unpacked(pk: seq<Piece>): seq<string> {
    if pk == [] then [] else PieceParagraphs(pk[0]) + Unpacked(pk[1..])
  }

  /** The chunks a packing yields, in order. */
  function Rendered(pk: seq<Piece>): seq<string> {
    if pk == [] then [] else PieceChunks(pk[0]) + Rendered(pk[1..])
  }

  /** An order-preserving packing of `ps` into chunks of at most `max`
      characters, in which only a paragraph too long for a chunk is cut. */
  ghost predicate PackingOf(pk: seq<Piece>, ps: seq<string>, max: nat) {
    Unpacked(pk) == ps && forall k :: 0 <= k < |pk| ==> ValidPiece(pk[k], max)
  }

  /** `s` cut every `max` characters. */
  function Slices(s: string, max: nat): seq<string>
    requires max > 0
  {
    if |s| == 0 then []
    else if |s| <= max then [s]
    else [s[..max]] + Slices(s[max..], max)
  }

  /** How many leading paragraphs fit in one chunk together, counting on from `k`. */
  function Longest(ps: seq<string>, k: nat, max: nat): (m: nat)
    requires k <= |ps| && |Joined(ps[..k])| <= max
    ensures k <= m <= |ps| && |Joined(ps[..m])| <= max
    ensures m < |ps| ==> |Joined(ps[..m + 1])| > max
    decreases |ps| - k
  {
    if k < |ps| && |Joined(ps[..k + 1])| <= max then Longest(ps, k + 1, max) else k
  }

  /** The greedy packing: as many whole paragraphs as fit, again and again. */
  function Greedy(ps: seq<string>, max: nat): seq<Piece>
    requires max > 0
    decreases |ps|
  {
    if ps == [] then []
    else if |ps[0]| > max then [Cut(Slices(ps[0], max))] + Greedy(ps[1..], max)
    else
      assert ps[..1] == [ps[0]];
      var k := Longest(ps, 1, max);
      [Group(ps[..k])] + Greedy(ps[k..], max)
  }

  // ---- Lengths of joins ----------------------------------------------------

  lemma {:induction false} JoinedSnoc(ps: seq<string>, p: string)
    requires ps != []
    ensures Joined(ps + [p]) == Joined(ps) + SEPARATOR + p
  {
    if |ps| == 1 {
      assert (ps + [p])[1..] == [p];
    } else {
      assert (ps + [p])[1..] == ps[1..] + [p];
      JoinedSnoc(ps[1..], p);
    }
  }

  lemma {:induction false} SuffixNoLonger(ps: seq<string>, j: nat)
    requires j <= |ps|
    ensures |Joined(ps[j..])| <= |Joined(ps)|
  {
    if j == 0 {
      assert ps[0..] == ps;
    } else {
      SuffixNoLonger(ps[1..], j - 1);
      assert ps[1..][j - 1..] == ps[j..];
    }
  }

  lemma {:induction false} PrefixNoLonger(ps: seq<string>, k: nat, m: nat)
    requires k <= m <= |ps|
    ensures |Joined(ps[..k])| <= |Joined(ps[..m])|
    decreases m - k
  {
    if k < m {
      PrefixNoLonger(ps, k, m - 1);
      assert ps[..m] == ps[..m - 1] + [ps[m - 1]];
      if m > 1 { JoinedSnoc(ps[..m - 1], ps[m - 1]); }
    }
  }

  lemma LongestIsLongest(ps: seq<string>, k: nat, m: nat, max: nat)
    requires k <= |ps| && m <= |ps| && |Joined(ps[..k])| <= max && |Joined(ps[..m])| <= max
    ensures m <= Longest(ps, k, max)
  {
    var l := Longest(ps, k, max);
    if l < m { PrefixNoLonger(ps, l + 1, m); }
  }

  // ---- What the greedy packing is --------------------------------------------

  lemma {:induction false} SlicesOf(s: string, max: nat)
    requires max > 0
    ensures Concat(Slices(s, max)) == s
    ensures forall c :: c in Slices(s, max) ==> 0 < |c| <= max
    ensures forall k :: 0 <= k < |Slices(s, max)| - 1 ==> |Slices(s, max)[k]| == max
  {
    if |s| > max {
      SlicesOf(s[max..], max);
      assert s[..max] + s[max..] == s;
    } else if |s| > 0 {
      assert [s][1..] == [];
    }
  }

  lemma PackingCons(p: Piece, pk: seq<Piece>, ps: seq<string>, max: nat)
    requires ValidPiece(p, max) && PackingOf(pk, ps, max)
    ensures PackingOf([p] + pk, PieceParagraphs(p) + ps, max)
  {
    assert ([p] + pk)[1..] == pk;
  }

  /** Nothing lost, nothing repeated, nothing out of order: the greedy packing
      is a packing of exactly the paragraphs it was given. */
  lemma {:induction false} GreedyIsPacking(ps: seq<string>, max: nat)
    requires max > 0
    ensures PackingOf(Greedy(ps, max), ps, max)
    decreases |ps|
  {
    if ps != [] {
      if |ps[0]| > max {
        SlicesOf(ps[0], max);
        GreedyIsPacking(ps[1..], max);
        PackingCons(Cut(Slices(ps[0], max)), Greedy(ps[1..], max), ps[1..], max);
        assert [ps[0]] + ps[1..] == ps;
      } else {
        assert ps[..1] == [ps[0]];
        var k := Longest(ps, 1, max);
        GreedyIsPacking(ps[k..], max);
        PackingCons(Group(ps[..k]), Greedy(ps[k..], max), ps[k..], max);
        assert ps[..k] + ps[k..] == ps;
      }
    }
  }

  /** The first paragraph of `q` does not fit behind the group `p` any more. */
  ghost predicate Fills(p: Piece, q: Piece, max: nat) {
    p.Group? ==> PieceParagraphs(q) != [] && |Joined(p.ps + [PieceParagraphs(q)[0]])| > max
  }

  /** A chunk of whole paragraphs is full: the paragraph after it does not fit. */
  lemma {:induction false} GreedyFills(ps: seq<string>, max: nat)
    requires max > 0
    ensures var pk := Greedy(ps, max); forall k :: 0 < k < |pk| ==> Fills(pk[k - 1], pk[k], max)
    decreases |ps|
  {
    if ps != [] {
      var n := FirstPiece(ps, max);
      var pk, rest := Greedy(ps, max), Greedy(ps[n..], max);
      GreedyFills(ps[n..], max);
      hide *;
      assert pk[1..] == rest;
      forall k | 0 < k < |pk| ensures Fills(pk[k - 1], pk[k], max) {
        assert pk[k] == rest[k - 1];
        if k > 1 { assert pk[k - 1] == rest[k - 2]; }
      }
    }
  }

  lemma FirstPiece(ps: seq<string>, max: nat) returns (n: nat)
    requires max > 0 && ps != []
    ensures 0 < n <= |ps| && Greedy(ps, max) != [] && Greedy(ps, max)[1..] == Greedy(ps[n..], max)
    ensures n < |ps| ==> Greedy(ps[n..], max) != [] && Fills(Greedy(ps, max)[0], Greedy(ps[n..], max)[0], max)
    ensures n == |ps| ==> Greedy(ps[n..], max) == []
  {
    n := 1;
    if |ps[0]| <= max {
      assert ps[..1] == [ps[0]];
      n := Longest(ps, 1, max);
    }
    if n < |ps| {
      FirstParagraph(ps[n..], max);
      assert ps[..n + 1] == ps[..n] + [ps[n]];
    }
  }

  lemma FirstParagraph(ps: seq<string>, max: nat)
    requires max > 0 && ps != []
    ensures var pk := Greedy(ps, max);
            pk != [] && PieceParagraphs(pk[0]) != [] && PieceParagraphs(pk[0])[0] == ps[0]
  {
    SlicesOf(ps[0], max);
    assert ps[..1] == [ps[0]];
  }

  lemma {:induction false} JoinedNonEmpty(ps: seq<string>)
    requires ps != [] && forall k :: 0 <= k < |ps| ==> |ps[k]| > 0
    ensures |Joined(ps)| > 0
  {
  }

  /** On the split path every chunk has between 1 and `max` characters. */
  lemma {:induction false} GreedyChunkSizes(ps: seq<string>, max: nat)
    requires max > 0 && forall k :: 0 <= k < |ps| ==> |ps[k]| > 0
    ensures forall c :: c in Rendered(Greedy(ps, max)) ==> 0 < |c| <= max
    decreases |ps|
  {
    if ps != [] {
      if |ps[0]| > max {
        SlicesOf(ps[0], max);
        GreedyChunkSizes(ps[1..], max);
      } else {
        assert ps[..1] == [ps[0]];
        var k := Longest(ps, 1, max);
        JoinedNonEmpty(ps[..k]);
        GreedyChunkSizes(ps[k..], max);
      }
    }
  }

  lemma {:induction false} ConcatBound(parts: seq<string>, max: nat)
    requires forall k :: 0 <= k < |parts| ==> |parts[k]| <= max
    ensures |Concat(parts)| <= |parts| * max
  {
    if parts != [] { ConcatBound(parts[1..], max); }
  }

  lemma {:induction false} SlicesFewest(s: string, n: nat, max: nat)
    requires max > 0 && |s| <= n * max
    ensures |Slices(s, max)| <= n
  {
    if |s| > max {
      assert n > 0 && |s| - max <= (n - 1) * max;
      SlicesFewest(s[max..], n - 1, max);
    } else if |s| > 0 {
      assert n > 0;
    }
  }

  lemma GreedyNothing(max: nat)
    requires max > 0
    ensures Rendered(Greedy([], max)) == []
  {
  }

  /** No packing of all of `ps` uses fewer chunks than the greedy packing does
      on any suffix of `ps`. */
  lemma {:induction false} GreedyStaysAhead(ps: seq<string>, j: nat, pk: seq<Piece>, max: nat)
    requires max > 0 && j <= |ps| && PackingOf(pk, ps, max)
    ensures |Rendered(Greedy(ps[j..], max))| <= |Rendered(pk)|
    decreases |pk|
  {
    hide *;
    if pk == [] || j == |ps| {
      EmptyPacking(pk, ps, max);
      GreedyNothing(max);
      assert ps[j..] == [];
    } else {
      var m := PackingTail(pk, ps, max);
      if j >= m {
        GreedyStaysAhead(ps[m..], j - m, pk[1..], max);
        assert ps[m..][j - m..] == ps[j..];
      } else if pk[0].Cut? {
        assert ps[j..] == ps;
        GreedyStaysAhead(ps[1..], 0, pk[1..], max);
        assert ps[1..][0..] == ps[1..];
        CutStaysAhead(ps, pk[0].parts, max);
      } else {
        var k := GroupStaysAhead(ps, j, m, max);
        GreedyStaysAhead(ps[m..], k - m, pk[1..], max);
        assert ps[m..][k - m..] == ps[k..];
      }
    }
  }

  lemma EmptyPacking(pk: seq<Piece>, ps: seq<string>, max: nat)
    requires PackingOf(pk, ps, max)
    ensures pk == [] ==> ps == []
  {
  }

  /** The first piece of a packing takes `m` paragraphs; the rest is a packing. */
  lemma PackingTail(pk: seq<Piece>, ps: seq<string>, max: nat) returns (m: nat)
    requires pk != [] && PackingOf(pk, ps, max)
    ensures 0 < m <= |ps| && PackingOf(pk[1..], ps[m..], max)
    ensures pk[0].Cut? ==> m == 1 && ps[0] == Concat(pk[0].parts) && ValidPiece(Cut(pk[0].parts), max)
                           && |Rendered(pk)| == |pk[0].parts| + |Rendered(pk[1..])|
    ensures pk[0].Group? ==> |Joined(ps[..m])| <= max && |Rendered(pk)| == 1 + |Rendered(pk[1..])|
  {
    m := |PieceParagraphs(pk[0])|;
    assert ValidPiece(pk[0], max);
    assert ps[..m] == PieceParagraphs(pk[0]) && ps[m..] == Unpacked(pk[1..]);
  }

  lemma CutStaysAhead(ps: seq<string>, parts: seq<string>, max: nat)
    requires max > 0 && ps != [] && ps[0] == Concat(parts) && ValidPiece(Cut(parts), max)
    ensures |Rendered(Greedy(ps, max))| <= |parts| + |Rendered(Greedy(ps[1..], max))|
  {
    ConcatBound(parts, max);
    SlicesFewest(ps[0], |parts|, max);
    var g := Greedy(ps, max);
    assert g[0] == Cut(Slices(ps[0], max)) && g[1..] == Greedy(ps[1..], max);
  }

  lemma GroupStaysAhead(ps: seq<string>, j: nat, m: nat, max: nat) returns (k: nat)
    requires max > 0 && j < m <= |ps| && |Joined(ps[..m])| <= max
    ensures m <= k <= |ps|
    ensures |Rendered(Greedy(ps[j..], max))| == 1 + |Rendered(Greedy(ps[k..], max))|
  {
    var q := ps[j..];
    SuffixNoLonger(ps[..m], j);
    assert ps[..m][j..] == q[..m - j];
    assert q[..1] == [q[0]];
    PrefixNoLonger(q, 1, m - j);
    LongestIsLongest(q, 1, m - j, max);
    var l := Longest(q, 1, max);
    k := j + l;
    assert q[l..] == ps[k..];
    var g := Greedy(q, max);
    assert g[0] == Group(q[..l]) && g[1..] == Greedy(q[l..], max);
  }

  /** The greedy packing uses the fewest chunks of all packings. */
  lemma GreedyIsFewest(ps: seq<string>, pk: seq<Piece>, max: nat)
    requires max > 0 && PackingOf(pk, ps, max)
    ensures |Rendered(Greedy(ps, max))| <= |Rendered(pk)|
  {
    GreedyStaysAhead(ps, 0, pk, max);
    assert ps[0..] == ps;
  }

  /** Every chunk that is not a slice of an oversize paragraph splits back into
      the paragraphs that went into it. */
  lemma GroupsSplitBack(t: string, max: nat, k: nat)
    requires max > 0 && k < |Greedy(Paragraphs(t), max)|
    ensures var p := Greedy(Paragraphs(t), max)[k]; p.Group? ==> Paragraphs(Joined(p.ps)) == p.ps
  {
    var ps := Paragraphs(t);
    ParagraphsAreClean(t);
    GreedyIsPacking(ps, max);
    UnpackedContains(Greedy(ps, max), k);
    var p := Greedy(ps, max)[k];
    if p.Group? {
      forall i | 0 <= i < |p.ps| ensures Clean(p.ps[i]) { assert p.ps[i] in ps; }
      JoinedSplitsBack(p.ps);
    }
  }

  lemma {:induction false} UnpackedContains(pk: seq<Piece>, k: nat)
    requires k < |pk|
    ensures forall p :: p in PieceParagraphs(pk[k]) ==> p in Unpacked(pk)
  {
    if k > 0 { UnpackedContains(pk[1..], k - 1); }
  }

  lemma PieceKeepsInk(p: Piece)
    ensures Inked(Concat(PieceChunks(p))) == Inked(Concat(PieceParagraphs(p)))
  {
    hide Inked;
    match p
    case Group(ps) =>
      JoinedKeepsInk(ps);
      ConcatOne(Joined(ps));
    case Cut(parts) =>
      ConcatOne(Concat(parts));
  }

  /** However a packing groups and cuts, its chunks hold what its paragraphs hold. */
  lemma {:induction false} RenderedKeepsInk(pk: seq<Piece>)
    ensures Inked(Concat(Rendered(pk))) == Inked(Concat(Unpacked(pk)))
  {
    if pk != [] {
      PieceKeepsInk(pk[0]);
      RenderedKeepsInk(pk[1..]);
      ConcatAppend(PieceChunks(pk[0]), Rendered(pk[1..]));
      ConcatAppend(PieceParagraphs(pk[0]), Unpacked(pk[1..]));
      InkedConcat(Concat(PieceChunks(pk[0])), Concat(Rendered(pk[1..])));
      InkedConcat(Concat(PieceParagraphs(pk[0])), Concat(Unpacked(pk[1..])));
    }
  }

  // ---- The loop ----------------------------------------------------------------

  lemma RenderedSplit(ps: seq<string>, max: nat)
    requires max > 0 && ps != []
    ensures |ps[0]| > max ==>
              Rendered(Greedy(ps, max)) == Slices(ps[0], max) + Rendered(Greedy(ps[1..], max))
    ensures ps[..1] == [ps[0]]
    ensures |ps[0]| <= max ==>
              (var k := Longest(ps, 1, max);
               Rendered(Greedy(ps, max)) == [Joined(ps[..k])] + Rendered(Greedy(ps[k..], max)))
  {
    assert ps[..1] == [ps[0]];
    var g := Greedy(ps, max);
    if |ps[0]| > max {
      assert g[1..] == Greedy(ps[1..], max);
    } else {
      assert g[1..] == Greedy(ps[Longest(ps, 1, max)..], max);
    }
  }

  /** `chunks` holds the finished chunks; the paragraphs from `from` on are open. */
  ghost predicate Packed(ps: seq<string>, chunks: seq<string>, from: nat, max: nat)
    requires max > 0 && from <= |ps|
  {
    chunks + Rendered(Greedy(ps[from..], max)) == Rendered(Greedy(ps, max))
  }

  /** The open paragraphs `from..i` fit one chunk. */
  ghost predicate Open(ps: seq<string>, from: nat, i: nat, max: nat) {
    from <= i <= |ps| && |Joined(ps[from..i])| <= max
  }

  lemma Flush(ps: seq<string>, chunks: seq<string>, from: nat, i: nat, max: nat)
    requires max > 0 && from < i && from <= i <= |ps| && Open(ps, from, i, max)
    requires Packed(ps, chunks, from, max)
    requires i == |ps| || |Joined(ps[from..i + 1])| > max
    ensures Packed(ps, chunks + [Joined(ps[from..i])], i, max)
  {
    var q, n := ps[from..], i - from;
    assert q[..n] == ps[from..i] && q[n..] == ps[i..];
    assert i < |ps| ==> q[..n + 1] == ps[from..i + 1];
    LongestExactly(q, n, max);
    RenderedSplit(q, max);
    Regroup(chunks, [Joined(ps[from..i])], Rendered(Greedy(ps[i..], max)));
  }

  lemma LongestExactly(q: seq<string>, n: nat, max: nat)
    requires 0 < n <= |q| && |Joined(q[..n])| <= max
    requires n < |q| ==> |Joined(q[..n + 1])| > max
    ensures q[..1] == [q[0]] && |q[0]| <= max && Longest(q, 1, max) == n
  {
    assert q[..1] == [q[0]];
    PrefixNoLonger(q, 1, n);
    LongestIsLongest(q, 1, n, max);
    var l := Longest(q, 1, max);
    if l > n { PrefixNoLonger(q, n + 1, l); }
  }

  lemma OpenGrows(ps: seq<string>, from: nat, i: nat)
    requires from <= i < |ps|
    ensures from < i ==> Joined(ps[from..i + 1]) == Joined(ps[from..i]) + SEPARATOR + ps[i]
    ensures from == i ==> Joined(ps[from..i + 1]) == ps[i]
  {
    assert ps[from..i + 1] == ps[from..i] + [ps[i]];
    if from < i { JoinedSnoc(ps[from..i], ps[i]); }
  }

  lemma SlicesStep(s: string, start: nat, end: nat, max: nat)
    requires max > 0 && start < end <= |s|
    requires end == start + max || (end == |s| && end <= start + max)
    ensures Slices(s[start..], max) == [s[start..end]] + Slices(s[end..], max)
  {
    var rest := s[start..];
    assert rest[..end - start] == s[start..end] && rest[end - start..] == s[end..];
    if end == |s| {
      assert Slices(s[end..], max) == [];
      assert rest == s[start..end];
    }
  }

  /** The hard split of one oversize paragraph. */
  method HardSplit(para: string, max: nat) returns (parts: seq<string>)
    requires max > 0
    ensures parts == Slices(para, max)
  {
    parts := [];
    var start := 0;
    while start < |para|
      invariant parts + Slices(para[if start < |para| then start else |para|..], max) == Slices(para, max)
    {
      var end := if start + max < |para| then start + max else |para|;
      SlicesStep(para, start, end, max);
      Regroup(parts, [para[start..end]], Slices(para[end..], max));
      parts := parts + [para[start..end]];
      start := start + max;
    }
    assert para[|para|..] == "";
  }

  /** One pass over the paragraphs, filling a chunk until the next one does not fit. */
  method PackParagraphs(paragraphs: seq<string>, max: nat) returns (chunks: seq<string>)
    requires max > 0 && forall k :: 0 <= k < |paragraphs| ==> |paragraphs[k]| > 0
    ensures chunks == Rendered(Greedy(paragraphs, max))
  {
    hide *;
    chunks := [];
    var current := "";
    ghost var from := 0;
    PackingStart(paragraphs, max);
    for i := 0 to |paragraphs|
      invariant from <= i && Open(paragraphs, from, i, max) && current == Joined(paragraphs[from..i])
      invariant |current| == 0 <==> from == i
      invariant Packed(paragraphs, chunks, from, max)
    {
      var para := paragraphs[i];
      OpenGrows(paragraphs, from, i);
      if |para| > max {
        if |current| > 0 {
          Flush(paragraphs, chunks, from, i, max);
          chunks := chunks + [current];
          current, from := "", i;
        }
        var parts := HardSplit(para, max);
        SliceOff(paragraphs, chunks, i, max);
        chunks := chunks + parts;
        from := i + 1;
        NothingOpen(paragraphs, i + 1, max);
      } else {
        var candidate := if |current| > 0 then current + SEPARATOR + para else para;
        if |candidate| <= max {
          current := candidate;
          OneMoreOpen(paragraphs, from, i, max);
        } else {
          Flush(paragraphs, chunks, from, i, max);
          chunks := chunks + [current];
          OpenGrows(paragraphs, i, i);
          OneMoreOpen(paragraphs, i, i, max);
          current, from := para, i;
        }
      }
    }
    if |current| > 0 {
      Flush(paragraphs, chunks, from, |paragraphs|, max);
      chunks := chunks + [current];
    }
    PackingDone(paragraphs, chunks, max);
  }

  lemma NothingOpen(ps: seq<string>, i: nat, max: nat)
    requires i <= |ps|
    ensures Open(ps, i, i, max) && Joined(ps[i..i]) == []
  {
  }

  lemma OneMoreOpen(ps: seq<string>, from: nat, i: nat, max: nat)
    requires from <= i < |ps| && |Joined(ps[from..i + 1])| <= max
    ensures Open(ps, from, i + 1, max)
  {
  }

  lemma PackingStart(ps: seq<string>, max: nat)
    requires max > 0
    ensures Packed(ps, [], 0, max) && Open(ps, 0, 0, max) && Joined(ps[0..0]) == ""
  {
    assert ps[0..] == ps;
  }

  lemma PackingDone(ps: seq<string>, chunks: seq<string>, max: nat)
    requires max > 0 && Packed(ps, chunks, |ps|, max)
    ensures chunks == Rendered(Greedy(ps, max))
  {
    assert ps[|ps|..] == [];
    GreedyNothing(max);
  }

  lemma SliceOff(ps: seq<string>, chunks: seq<string>, i: nat, max: nat)
    requires max > 0 && i < |ps| && |ps[i]| > max && Packed(ps, chunks, i, max)
    ensures Packed(ps, chunks + Slices(ps[i], max), i + 1, max)
  {
    var q := ps[i..];
    RenderedSplit(q, max);
    assert q[1..] == ps[i + 1..];
    Regroup(chunks, Slices(ps[i], max), Rendered(Greedy(ps[i + 1..], max)));
  }

  /** A text that fits is one chunk as it stands; a longer one is packed. */
  method SizeCap(text: string, max: nat) returns (chunks: seq<string>)
    requires max > 0
    ensures |text| <= max ==> chunks == [text]
    ensures |text| > max ==> chunks == Rendered(Greedy(Paragraphs(text), max))
    ensures forall c :: c in chunks ==> |c| <= max
    ensures |text| > max ==> "" !in chunks
    ensures Inked(Concat(chunks)) == Inked(text)
  {
    if |text| <= max {
      ConcatOne(text);
      return [text];
    }
    ParagraphsAreClean(text);
    GreedyChunkSizes(Paragraphs(text), max);
    chunks := PackParagraphs(Paragraphs(text), max);
    hide *;
    GreedyIsPacking(Paragraphs(text), max);

    RenderedKeepsInk(Greedy(Paragraphs(text), max));
    ParagraphsKeepInk(text);
  }
}
