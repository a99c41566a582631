/** The verbatim sentence scanner of `src/agents/mock_mode.py`. */
module Sentences {
  import opened Text
  import opened TextSpans

  /** A period ends a sentence when white space or the end of the text follows. */
  predicate CutAt(t: string, i: nat)
    requires i < |t|
  {
    t[i] == '.' && (i + 1 == |t| || IsSpace(t[i + 1]))
  }

  /** The first sentence end at or after `from`, or `|t|`. */
  function NextCut(t: string, from: nat): (i: nat)
    requires from <= |t|
    ensures from <= i <= |t|
    ensures i < |t| ==> CutAt(t, i)
    ensures forall k :: from <= k < i ==> !CutAt(t, k)
    decreases |t| - from
  {
    if from == |t| || CutAt(t, from) then from else NextCut(t, from + 1)
  }

  /** What the scanner returns: the stripped non-empty pieces between cuts. */
  function Sentences(t: string): seq<string>
    decreases |t|
  {
    var i := NextCut(t, 0);
    if i == |t| then Kept(t) else Kept(t[..i + 1]) + Sentences(t[i + 1..])
  }

  function NonEmpty(spans: seq<string>): seq<string> {
    if spans == [] then [] else (if spans[0] == "" then [] else [spans[0]]) + NonEmpty(spans[1..])
  }

  lemma SentencesAtCut(t: string, i: nat)
    requires i < |t| && CutAt(t, i)
    requires forall k :: 0 <= k < i ==> !CutAt(t, k)
    ensures Sentences(t) == Kept(t[..i + 1]) + Sentences(t[i + 1..])
  {
    assert NextCut(t, 0) == i;
  }

  lemma SuffixCuts(t: string, d: nat)
    requires d <= |t|
    ensures forall k {:trigger CutAt(t[d..], k)} :: 0 <= k < |t| - d ==> CutAt(t[d..], k) == CutAt(t, d + k)
  {
  }

  /** One step of the scan: the piece from `start` to a cut comes off the front. */
  lemma ScanStep(t: string, start: nat, index: nat)
    requires start <= index < |t| && CutAt(t, index)
    requires forall k :: start <= k < index ==> !CutAt(t, k)
    ensures Sentences(t[start..]) == Kept(t[start..index + 1]) + Sentences(t[index + 1..])
  {
    hide Sentences, Kept, IsSpace;
    var rest := t[start..];
    SuffixCuts(t, start);
    SentencesAtCut(rest, index - start);
    assert rest[..index - start + 1] == t[start..index + 1];
    assert rest[index - start + 1..] == t[index + 1..];
  }

  lemma ScanEnd(t: string, start: nat)
    requires start <= |t|
    requires forall k :: start <= k < |t| ==> !CutAt(t, k)
    ensures Sentences(t[start..]) == Kept(t[start..])
  {
    SuffixCuts(t, start);
    assert NextCut(t[start..], 0) == |t[start..]|;
  }

  /** The stripped pieces between cuts from `start` on, empty ones included. */
  function Pieces(t: string, start: nat): seq<string>
    requires start <= |t|
    decreases |t| - start
  {
    var i := NextCut(t, start);
    if i == |t| then [Strip(t[start..])] else [Strip(t[start..i + 1])] + Pieces(t, i + 1)
  }

  lemma {:induction false} PiecesAreSentences(t: string, start: nat)
    requires start <= |t|
    ensures NonEmpty(Pieces(t, start)) == Sentences(t[start..])
    decreases |t| - start
  {
    hide *;
    var i := NextCut(t, start);
    if i == |t| {
      ScanEnd(t, start);
      PiecesAtEnd(t, start);
      KeptIsNonEmpty(t[start..]);
    } else {
      PiecesAreSentences(t, i + 1);
      ScanStep(t, start, i);
      PiecesAtCut(t, start, i);
      KeptIsNonEmpty(t[start..i + 1]);
      NonEmptyCons(Strip(t[start..i + 1]), Pieces(t, i + 1));
    }
  }

  lemma KeptIsNonEmpty(s: string)
    ensures NonEmpty([Strip(s)]) == Kept(s) == if Strip(s) == "" then [] else [Strip(s)]
  {
    hide Strip;
    assert [Strip(s)][1..] == [];
  }

  lemma NonEmptyCons(span: string, spans: seq<string>)
    ensures NonEmpty([span] + spans) == (if span == "" then [] else [span]) + NonEmpty(spans)
  {
    assert ([span] + spans)[1..] == spans;
  }

  lemma PiecesAtCut(t: string, start: nat, index: nat)
    requires start <= index < |t| && CutAt(t, index)
    requires forall k :: start <= k < index ==> !CutAt(t, k)
    ensures Pieces(t, start) == [Strip(t[start..index + 1])] + Pieces(t, index + 1)
  {
    assert NextCut(t, start) == index;
  }

  lemma PiecesAtEnd(t: string, start: nat)
    requires start <= |t|
    requires forall k :: start <= k < |t| ==> !CutAt(t, k)
    ensures Pieces(t, start) == [Strip(t[start..])]
  {
    assert NextCut(t, start) == |t|;
  }

  /** The scan itself: one pass over the characters, cutting as it goes. */
  method SplitSentences(text: string) returns (r: seq<string>, ghost spans: seq<Span>)
    ensures r == Sentences(text) && spans == Spans(text)
    ensures Covers(text, spans, r)
    ensures forall i :: 0 <= i < |text| && text[i] == '.' && (i + 1 == |text| || IsSpace(text[i + 1])) ==>
              EndsAt(spans, i + 1)
    ensures forall k :: 0 <= k < |spans| - 1 ==>
              && 0 < spans[k].hi <= |text| && text[spans[k].hi - 1] == '.'
              && (spans[k].hi == |text| || IsSpace(text[spans[k].hi]))
    ensures forall k, i {:trigger spans[k], text[i]} ::
              0 <= k < |spans| && spans[k].lo <= i < spans[k].hi - 1 && i < |text| ==>
                !(text[i] == '.' && (i + 1 == |text| || IsSpace(text[i + 1])))
  {
    var pieces := ScanSpans(text);
    r := DropEmpty(pieces);
    PiecesAreSentences(text, 0);
    assert text[0..] == text;
    hide *;
    spans := Spans(text);
    SentencesCoverText(text);
    SentenceEnds(text);
  }

  method ScanSpans(text: string) returns (spans: seq<string>)
    ensures spans == Pieces(text, 0)
  {
    hide Strip, Pieces;
    assert Pieces(text, 0) == [] + Pieces(text, 0);
    spans := [];
    var start := 0;
    for index := 0 to |text|
      invariant start <= index
      invariant forall k :: start <= k < index ==> !CutAt(text, k)
      invariant spans + Pieces(text, start) == Pieces(text, 0)
    {
      if text[index] == '.' && (index + 1 == |text| || IsSpace(text[index + 1])) {
        PiecesAtCut(text, start, index);
        Regroup(spans, [Strip(text[start..index + 1])], Pieces(text, index + 1));
        spans := spans + [Strip(text[start..index + 1])];
        start := index + 1;
      }
    }
    PiecesAtEnd(text, start);
    spans := spans + [Strip(text[start..])];
  }

  method DropEmpty(spans: seq<string>) returns (r: seq<string>)
    ensures r == NonEmpty(spans)
  {
    r := [];
    for i := 0 to |spans|
      invariant r + NonEmpty(spans[i..]) == NonEmpty(spans)
    {
      assert spans[i..] == [spans[i]] + spans[i + 1..];
      NonEmptyCons(spans[i], spans[i + 1..]);
      if spans[i] != "" {
        Regroup(r, [spans[i]], NonEmpty(spans[i + 1..]));
        r := r + [spans[i]];
      }
    }
  }

  // ---- Where the sentences stand in the text ----------------------------

  /** The positions the scanner's slices come from. */
  function Spans(t: string): seq<Span>
    decreases |t|
  {
    var i := NextCut(t, 0);
    if i == |t| then KeptSpan(t) else KeptSpan(t[..i + 1]) + Moved(Spans(t[i + 1..]), i + 1)
  }

  /** Every sentence is the verbatim slice at its span, the spans are in order
      and disjoint, and no character outside them is anything but white space:
      each non-space character of the text is in exactly one sentence. */
  lemma {:induction false} SentencesCoverText(t: string)
    ensures Covers(t, Spans(t), Sentences(t))
    decreases |t|
  {
    hide *;
    var i := NextCut(t, 0);
    SpansUnfold(t);
    if i == |t| {
      ScanEnd(t, 0);
      assert t[0..] == t;
      KeptSpanCovers(t);
    } else {
      var head, rest := t[..i + 1], t[i + 1..];
      SentencesCoverText(rest);
      KeptSpanCovers(head);
      SentencesAtCut(t, i);
      SpansConcat(t, i + 1, KeptSpan(head), Spans(rest), Kept(head), Sentences(rest));
    }
  }

  lemma SpansUnfold(t: string)
    ensures var i := NextCut(t, 0);
            Spans(t) == if i == |t| then KeptSpan(t) else KeptSpan(t[..i + 1]) + Moved(Spans(t[i + 1..]), i + 1)
  {
    hide KeptSpan, Moved;
  }

  ghost predicate EndsAt(spans: seq<Span>, end: nat) {
    exists k :: 0 <= k < |spans| && spans[k].hi == end
  }

  /** The spans end where sentences do, and nowhere else but at the last one. */
  ghost predicate CutSpans(t: string, spans: seq<Span>) {
    && (forall i :: 0 <= i < |t| && CutAt(t, i) ==> EndsAt(spans, i + 1))
    && (forall k :: 0 <= k < |spans| ==> Uncut(t, spans[k]) && (k < |spans| - 1 ==> Closed(t, spans[k])))
  }

  ghost predicate Closed(t: string, s: Span) {
    0 < s.hi <= |t| && CutAt(t, s.hi - 1)
  }

  ghost predicate Uncut(t: string, s: Span) {
    forall i :: s.lo <= i < s.hi - 1 && i < |t| ==> !CutAt(t, i)
  }

  lemma HeadSpan(t: string, i: nat)
    requires i < |t| && CutAt(t, i)
    ensures KeptSpan(t[..i + 1]) == [Span(Lead(t[..i + 1]), i + 1)]
  {
    var head := t[..i + 1];
    assert head[i] == '.';
    StripTrims(head);
    Ends(head);
  }

  /** The spans of what follows a cut, moved behind it. */
  lemma MovedSpan(t: string, d: nat, s: Span)
    requires d <= |t|
    ensures Closed(t[d..], s) ==> Closed(t, Span(s.lo + d, s.hi + d))
    ensures Uncut(t[d..], s) ==> Uncut(t, Span(s.lo + d, s.hi + d))
  {
    SuffixCuts(t, d);
    hide CutAt;
    if Uncut(t[d..], s) {
      forall i | s.lo + d <= i < s.hi + d - 1 && i < |t| ensures !CutAt(t, i) { assert !CutAt(t[d..], i - d); }
    }
  }

  lemma MovedEnd(t: string, d: nat, s: Span, rs: seq<Span>, i: nat)
    requires d <= i < |t| && CutAt(t, i) && forall k :: 0 <= k < |t| - d && CutAt(t[d..], k) ==> EndsAt(rs, k + 1)
    ensures EndsAt([s] + Moved(rs, d), i + 1)
  {
    SuffixCuts(t, d);
    assert CutAt(t[d..], i - d);
    var k :| 0 <= k < |rs| && rs[k].hi == i - d + 1;
    assert ([s] + Moved(rs, d))[k + 1].hi == i + 1;
  }

  lemma CutSpansConcat(t: string, i: nat, lo: nat, rs: seq<Span>)
    requires i < |t| && CutAt(t, i) && forall k :: 0 <= k < i ==> !CutAt(t, k)
    requires CutSpans(t[i + 1..], rs)
    ensures CutSpans(t, [Span(lo, i + 1)] + Moved(rs, i + 1))
  {
    var d := i + 1;
    var all := [Span(lo, d)] + Moved(rs, d);
    hide CutAt, Closed, Uncut;
    forall j | 0 <= j < |t| && CutAt(t, j) ensures EndsAt(all, j + 1) {
      if j == i { assert all[0].hi == j + 1; } else { MovedEnd(t, d, Span(lo, d), rs, j); }
    }
    forall k | 0 <= k < |all| ensures Uncut(t, all[k]) && (k < |all| - 1 ==> Closed(t, all[k])) {
      if k == 0 { FirstSpan(t, i, lo); } else { MovedSpan(t, d, rs[k - 1]); }
    }
  }

  lemma FirstSpan(t: string, i: nat, lo: nat)
    requires i < |t| && CutAt(t, i) && forall k :: 0 <= k < i ==> !CutAt(t, k)
    ensures Closed(t, Span(lo, i + 1)) && Uncut(t, Span(lo, i + 1))
  {
  }

  lemma {:induction false} SpansEndAtCuts(t: string)
    ensures CutSpans(t, Spans(t))
    decreases |t|
  {
    hide *;
    var i := NextCut(t, 0);
    SpansUnfold(t);
    if i == |t| {
      UncutSpan(t);
    } else {
      SpansEndAtCuts(t[i + 1..]);
      HeadSpan(t, i);
      CutSpansConcat(t, i, Lead(t[..i + 1]), Spans(t[i + 1..]));
    }
  }

  lemma UncutSpan(t: string)
    requires forall k :: 0 <= k < |t| ==> !CutAt(t, k)
    ensures CutSpans(t, KeptSpan(t))
  {
    hide CutAt, Strip;
  }

  /** Where the text is cut, on its own characters: a sentence ends at every period
      that white space or the end of the text follows; every sentence but the last
      ends at one; and none has one before its last character. */
  lemma SentenceEnds(t: string)
    ensures forall i :: 0 <= i < |t| && t[i] == '.' && (i + 1 == |t| || IsSpace(t[i + 1])) ==>
              EndsAt(Spans(t), i + 1)
    ensures forall k :: 0 <= k < |Spans(t)| - 1 ==>
              && 0 < Spans(t)[k].hi <= |t| && t[Spans(t)[k].hi - 1] == '.'
              && (Spans(t)[k].hi == |t| || IsSpace(t[Spans(t)[k].hi]))
    ensures forall k, i {:trigger Spans(t)[k], t[i]} ::
              0 <= k < |Spans(t)| && Spans(t)[k].lo <= i < Spans(t)[k].hi - 1 && i < |t| ==>
                !(t[i] == '.' && (i + 1 == |t| || IsSpace(t[i + 1])))
  {
    SpansEndAtCuts(t);
    hide Spans, IsSpace;
    forall i | 0 <= i < |t| && t[i] == '.' && (i + 1 == |t| || IsSpace(t[i + 1]))
      ensures EndsAt(Spans(t), i + 1)
    {
      assert CutAt(t, i);
    }
    forall k, i {:trigger Spans(t)[k], t[i]}
      | 0 <= k < |Spans(t)| && Spans(t)[k].lo <= i < Spans(t)[k].hi - 1 && i < |t|
      ensures !(t[i] == '.' && (i + 1 == |t| || IsSpace(t[i + 1])))
    {
      assert Uncut(t, Spans(t)[k]) && !CutAt(t, i);
    }
    forall k | 0 <= k < |Spans(t)| - 1 ensures Closed(t, Spans(t)[k]) {}
  }

  // ---- What a sentence looks like, and the round trip --------------------

  /** A trimmed string with no sentence end before its last character. */
  ghost predicate Atomic(s: string) {
    Trimmed(s) && forall i :: 0 <= i < |s| - 1 ==> !CutAt(s, i)
  }

  /** A list that could be a scan: atomic strings, each but the last closed by
      a period. */
  ghost predicate SentenceList(ss: seq<string>) {
    && (forall k :: 0 <= k < |ss| ==> Atomic(ss[k]))
    && (forall k :: 0 <= k < |ss| - 1 ==> ss[k][|ss[k]| - 1] == '.')
  }

  /** `" ".join(ss)`. */
  function Joined(ss: seq<string>): string {
    if |ss| == 0 then "" else if |ss| == 1 then ss[0] else ss[0] + " " + Joined(ss[1..])
  }

  lemma KeptIsAtomic(t: string, end: nat)
    requires end <= |t|
    requires forall k :: 0 <= k < end - 1 ==> !CutAt(t, k)
    requires end == |t| || (end > 0 && CutAt(t, end - 1))
    ensures forall s :: s in Kept(t[..end]) ==> Atomic(s)
    ensures end > 0 && CutAt(t, end - 1) ==>
              |Kept(t[..end])| == 1 && Kept(t[..end])[0][|Kept(t[..end])[0]| - 1] == '.'
  {
    var p := t[..end];
    var lo, hi := Lead(p), Tail(p);
    StripTrims(p);
    if end > 0 && CutAt(t, end - 1) { assert p[end - 1] == '.'; }
    if Strip(p) != "" {
      var s := p[lo..hi];
      forall i | 0 <= i < |s| - 1 ensures !CutAt(s, i) {
        assert s[i] == t[lo + i] && s[i + 1] == t[lo + i + 1] && !CutAt(t, lo + i);
      }
    }
  }

  lemma SentenceListCons(s: string, ss: seq<string>)
    requires Atomic(s) && s[|s| - 1] == '.' && SentenceList(ss)
    ensures SentenceList([s] + ss)
  {
    var all := [s] + ss;
    forall k | 0 <= k < |all| - 1 ensures all[k][|all[k]| - 1] == '.' {
      if k > 0 { assert all[k] == ss[k - 1]; }
    }
  }

  lemma {:induction false} SentencesAreAtomic(t: string)
    ensures SentenceList(Sentences(t))
    decreases |t|
  {
    var i := NextCut(t, 0);
    hide CutAt, Strip, Kept, Sentences, NextCut;
    if i == |t| {
      assert t[..|t|] == t == t[0..];
      KeptIsAtomic(t, |t|);
      ScanEnd(t, 0);
      KeptIsNonEmpty(t);
    } else {
      KeptIsAtomic(t, i + 1);
      SentencesAreAtomic(t[i + 1..]);
      SentencesAtCut(t, i);
      var head := Kept(t[..i + 1]);
      assert head == [head[0]];
      SentenceListCons(head[0], Sentences(t[i + 1..]));
    }
  }

  /** A sentence is its own scan. */
  lemma AtomicScansToItself(s: string)
    requires Atomic(s)
    ensures Sentences(s) == [s]
  {
    KeptTrimmed(s);
    assert s[..|s|] == s == s[0..] && s[|s|..] == "";
    hide *;
    if CutAt(s, |s| - 1) {
      SentencesAtCut(s, |s| - 1);
    } else {
      ScanEnd(s, 0);
    }
  }

  lemma CutsBehindSpace(t: string, k: nat)
    requires k <= |t|
    ensures k > 0 ==> CutAt(" " + t, k) == CutAt(t, k - 1)
    ensures k == 0 ==> !CutAt(" " + t, k)
  {
    var u := " " + t;
    assert k > 0 ==> u[k] == t[k - 1] && (k < |t| ==> u[k + 1] == t[k]);
  }

  lemma KeptSkipsSpace(s: string)
    ensures Kept(" " + s) == Kept(s)
  {
    hide Strip;
    SpaceFacts();
    StripSkipsLead(" ", s);
  }

  lemma ScanSkipsSpaceAtCut(t: string, i: nat)
    requires i < |t| && CutAt(t, i) && forall k :: 0 <= k < i ==> !CutAt(t, k)
    ensures Sentences(" " + t) == Sentences(t)
  {
    hide *;
    var u := " " + t;
    forall k | 0 <= k <= i + 1 ensures CutAt(u, k) <==> k == i + 1 { CutsBehindSpace(t, k); }
    SentencesAtCut(u, i + 1);
    SentencesAtCut(t, i);
    assert u[..i + 2] == " " + t[..i + 1];
    assert u[i + 2..] == t[i + 1..];
    KeptSkipsSpace(t[..i + 1]);
  }

  lemma ScanSkipsSpaceAtEnd(t: string)
    requires forall k :: 0 <= k < |t| ==> !CutAt(t, k)
    ensures Sentences(" " + t) == Sentences(t)
  {
    hide *;
    var u := " " + t;
    forall k | 0 <= k < |u| ensures !CutAt(u, k) { CutsBehindSpace(t, k); }
    ScanEnd(u, 0);
    ScanEnd(t, 0);
    assert u[0..] == u && t[0..] == t;
    KeptSkipsSpace(t);
  }

  lemma ScanSkipsSpace(t: string)
    ensures Sentences(" " + t) == Sentences(t)
  {
    if NextCut(t, 0) == |t| { ScanSkipsSpaceAtEnd(t); } else { ScanSkipsSpaceAtCut(t, NextCut(t, 0)); }
  }

  lemma ClosedSentenceSplitsOff(s: string, rest: string)
    requires Atomic(s) && s[|s| - 1] == '.'
    ensures Sentences(s + " " + rest) == [s] + Sentences(rest)
  {
    hide Sentences, Strip, Kept;
    var t := s + " " + rest;
    SpaceFacts();
    forall k | 0 <= k < |s| - 1 ensures !CutAt(t, k) {
      assert t[k] == s[k] && t[k + 1] == s[k + 1] && !CutAt(s, k);
    }
    assert t[|s| - 1] == '.' && t[|s|] == ' ' && CutAt(t, |s| - 1);
    SentencesAtCut(t, |s| - 1);
    assert t[..|s|] == s;
    assert t[|s|..] == " " + rest;
    KeptTrimmed(s);
    ScanSkipsSpace(rest);
  }

  lemma KeptTrimmed(s: string)
    requires Trimmed(s)
    ensures Kept(s) == [s]
  {
    StripTrimmed(s);
  }

  lemma {:induction false} JoinedScansBack(ss: seq<string>)
    requires SentenceList(ss)
    ensures Sentences(Joined(ss)) == ss
  {
    if |ss| == 0 {
    } else if |ss| == 1 {
      AtomicScansToItself(ss[0]);
    } else {
      var rest := Joined(ss[1..]);
      assert Sentences(rest) == ss[1..] by { JoinedScansBack(ss[1..]); }
      assert Joined(ss) == ss[0] + " " + rest;
      ClosedSentenceSplitsOff(ss[0], rest);
      assert [ss[0]] + ss[1..] == ss;
    }
  }

  /** Scanning a sentence again, or scanning the sentences joined by spaces,
      gives back exactly what the first scan gave. */
  lemma RoundTrip(t: string)
    ensures Sentences(Joined(Sentences(t))) == Sentences(t)
    ensures forall s :: s in Sentences(t) ==> Sentences(s) == [s]
  {
    SentencesAreAtomic(t);
    JoinedScansBack(Sentences(t));
    forall s | s in Sentences(t) ensures Sentences(s) == [s] {
      AtomicScansToItself(s);
    }
  }

  /** The lists a scan can return are exactly the sentence lists. */
  lemma ScanImage(ss: seq<string>)
    ensures (exists t :: Sentences(t) == ss) <==> SentenceList(ss)
  {
    if SentenceList(ss) { JoinedScansBack(ss); }
    forall t | Sentences(t) == ss ensures SentenceList(ss) { SentencesAreAtomic(t); }
  }
}
