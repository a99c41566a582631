/** The query refiner of `src/agents/query_refiner.py`: new search queries, never
    one that was tried before. */
module QueryRefiner {
  import opened Wrappers
  import opened Text

  datatype Raw = Str(text: string) | NotAString

  /** What the model's call comes to; a list may hold anything. Valid JSON that is
      no object fails where its field is read, outside the handler. */
  datatype Reply = Raised | NotAnObject | NotAList | List(items: seq<Raw>)

  /** `current` is in flight, `tried` has been. */
  datatype Queries = Queries(current: seq<string>, tried: seq<string>)

  /** `str.lower`, whatever it makes of letters outside ASCII. */
  type Lowering = string -> string

  /** `_normalize`. */
  function Normalize(low: Lowering, q: string): string {
    low(Strip(q))
  }

  /** Two texts are one query when they differ in outer white space only, or when `low`
      makes one of what is left; and not otherwise. */
  lemma SameQuery(low: Lowering, u: string, p: string, v: string, q: string)
    requires Blank(u, 0, |u|) && Blank(v, 0, |v|)
    ensures Normalize(low, u + p + v) == Normalize(low, q) <==> low(Strip(p)) == low(Strip(q))
  {
    StripSkipsAround(u, p, v);
    hide Strip;
  }

  ghost function Norms(low: Lowering, qs: seq<string>): set<string> {
    set i | 0 <= i < |qs| :: Normalize(low, qs[i])
  }

  /** No two of them are the same query. */
  ghost predicate Distinct(low: Lowering, qs: seq<string>) {
    forall i, j :: 0 <= i < j < |qs| ==> Normalize(low, qs[i]) != Normalize(low, qs[j])
  }

  /** The usable item of a reply: a stripped non-empty text. */
  function Candidate(r: Raw): (c: seq<string>)
    ensures |c| <= 1
  {
    if r.Str? then Kept(r.text) else []
  }

  ghost predicate Offered(items: seq<Raw>, q: string) {
    exists k :: 0 <= k < |items| && Candidate(items[k]) == [q]
  }

  /** What a reply's items leave when everything in `forbidden`, and everything
      that came earlier in the reply, is dropped. */
  ghost predicate FreshOf(low: Lowering, batch: seq<string>, items: seq<Raw>, forbidden: set<string>) {
    && Distinct(low, batch)
    && (forall i :: 0 <= i < |batch| ==> Normalize(low, batch[i]) !in forbidden && Offered(items, batch[i]))
    && (forall q :: Offered(items, q) ==> Normalize(low, q) in forbidden + Norms(low, batch))
  }

  lemma OfferedSnoc(items: seq<Raw>, r: Raw, q: string)
    ensures Offered(items + [r], q) <==> Offered(items, q) || Candidate(r) == [q]
  {
    var all := items + [r];
    assert all[|items|] == r;
    if Offered(items, q) {
      var k :| 0 <= k < |items| && Candidate(items[k]) == [q];
      assert all[k] == items[k];
    }
  }

  lemma NormsSnoc(low: Lowering, qs: seq<string>, q: string)
    ensures Norms(low, qs + [q]) == Norms(low, qs) + {Normalize(low, q)}
  {
    var all := qs + [q];
    assert all[|qs|] == q;
    forall x | x in Norms(low, qs) ensures x in Norms(low, all) {
      var i :| 0 <= i < |qs| && Normalize(low, qs[i]) == x;
      assert all[i] == qs[i];
    }
  }

  lemma FreshKeeps(low: Lowering, batch: seq<string>, items: seq<Raw>, forbidden: set<string>, r: Raw)
    requires FreshOf(low, batch, items, forbidden)
    requires Candidate(r) == [] || Normalize(low, Candidate(r)[0]) in forbidden + Norms(low, batch)
    ensures FreshOf(low, batch, items + [r], forbidden)
  {
    forall q ensures Offered(items + [r], q) <==> Offered(items, q) || Candidate(r) == [q] {
      OfferedSnoc(items, r, q);
    }
  }

  lemma FreshGrows(low: Lowering, batch: seq<string>, items: seq<Raw>, forbidden: set<string>, r: Raw, q: string)
    requires FreshOf(low, batch, items, forbidden)
    requires Candidate(r) == [q] && Normalize(low, q) !in forbidden + Norms(low, batch)
    ensures FreshOf(low, batch + [q], items + [r], forbidden)
  {
    NormsSnoc(low, batch, q);
    forall p ensures Offered(items + [r], p) <==> Offered(items, p) || p == q {
      OfferedSnoc(items, r, p);
    }
    DistinctSnoc(low, batch, q);
  }

  lemma DistinctSnoc(low: Lowering, batch: seq<string>, q: string)
    requires Distinct(low, batch) && Normalize(low, q) !in Norms(low, batch)
    ensures Distinct(low, batch + [q])
  {
    assert forall i :: 0 <= i < |batch| ==> Normalize(low, batch[i]) in Norms(low, batch);
  }

  /** `batch` with a candidate that is new. */
  ghost function With(low: Lowering, batch: seq<string>, c: seq<string>, forbidden: set<string>): seq<string>
    requires |c| <= 1
  {
    if |c| == 0 || Normalize(low, c[0]) in forbidden + Norms(low, batch) then batch else batch + c
  }

  /** The batch that a reply's items make, in their order. */
  ghost function Fresh(low: Lowering, items: seq<Raw>, forbidden: set<string>): seq<string> {
    if |items| == 0 then []
    else With(low, Fresh(low, items[..|items| - 1], forbidden), Candidate(items[|items| - 1]), forbidden)
  }

  lemma FreshNext(low: Lowering, items: seq<Raw>, r: Raw, forbidden: set<string>)
    ensures Fresh(low, items + [r], forbidden) == With(low, Fresh(low, items, forbidden), Candidate(r), forbidden)
  {
    hide With, Candidate;
    assert (items + [r])[..|items|] == items;
  }

  lemma NothingFresh(low: Lowering, items: seq<Raw>, forbidden: set<string>)
    requires |items| == 0
    ensures Fresh(low, items, forbidden) == [] && FreshOf(low, Fresh(low, items, forbidden), items, forbidden)
  {
  }

  lemma WithIsFresh(low: Lowering, batch: seq<string>, items: seq<Raw>, r: Raw, forbidden: set<string>)
    requires FreshOf(low, batch, items, forbidden)
    ensures FreshOf(low, With(low, batch, Candidate(r), forbidden), items + [r], forbidden)
    ensures |With(low, batch, Candidate(r), forbidden)| <= |batch| + 1
  {
    hide FreshOf, Norms, Normalize, Kept;
    var c := Candidate(r);
    if |c| == 0 || Normalize(low, c[0]) in forbidden + Norms(low, batch) {
      FreshKeeps(low, batch, items, forbidden, r);
    } else {
      assert c == [c[0]];
      FreshGrows(low, batch, items, forbidden, r, c[0]);
    }
  }

  lemma {:induction false} FreshIsFresh(low: Lowering, items: seq<Raw>, forbidden: set<string>)
    ensures FreshOf(low, Fresh(low, items, forbidden), items, forbidden) && |Fresh(low, items, forbidden)| <= |items|
  {
    hide *;
    if |items| == 0 {
      NothingFresh(low, items, forbidden);
    } else {
      var rest, r := items[..|items| - 1], items[|items| - 1];
      FreshIsFresh(low, rest, forbidden);
      assert items == rest + [r];
      FreshNext(low, rest, r, forbidden);
      WithIsFresh(low, Fresh(low, rest, forbidden), rest, r, forbidden);
    }
  }

  /** Place `n` is the first that offers `q`, however spelled, and spells it so. */
  ghost predicate FirstOffer(low: Lowering, items: seq<Raw>, q: string, n: nat) {
    && n < |items| && Candidate(items[n]) == [q]
    && forall m :: 0 <= m < n && |Candidate(items[m])| == 1 ==>
         Normalize(low, Candidate(items[m])[0]) != Normalize(low, q)
  }

  /** `at` are the places the batch comes from, in order. */
  ghost predicate FirstOffers(low: Lowering, batch: seq<string>, items: seq<Raw>, at: seq<nat>) {
    && |at| == |batch|
    && (forall k :: 0 <= k < |at| ==> FirstOffer(low, items, batch[k], at[k]))
    && (forall j, k :: 0 <= j < k < |at| ==> at[j] < at[k])
  }

  /** A batch keeps the reply's order, and the first of several spellings. */
  lemma {:induction false} FreshKeepsFirstOffers(low: Lowering, items: seq<Raw>, forbidden: set<string>)
    returns (at: seq<nat>)
    ensures FirstOffers(low, Fresh(low, items, forbidden), items, at)
  {
    hide *;
    if |items| == 0 {
      NothingFresh(low, items, forbidden);
      at := [];
      NoOffers(low, items);
    } else {
      var rest, r := items[..|items| - 1], items[|items| - 1];
      var before := FreshKeepsFirstOffers(low, rest, forbidden);
      FreshIsFresh(low, rest, forbidden);
      assert items == rest + [r];
      FreshNext(low, rest, r, forbidden);
      at := OffersWith(low, Fresh(low, rest, forbidden), rest, r, before, forbidden);
    }
  }

  lemma NoOffers(low: Lowering, items: seq<Raw>)
    ensures FirstOffers(low, [], items, [])
  {
  }

  lemma OffersWith(low: Lowering, batch: seq<string>, items: seq<Raw>, r: Raw, before: seq<nat>, forbidden: set<string>)
    returns (at: seq<nat>)
    requires FirstOffers(low, batch, items, before) && FreshOf(low, batch, items, forbidden)
    ensures FirstOffers(low, With(low, batch, Candidate(r), forbidden), items + [r], at)
  {
    hide FreshOf, Norms, Normalize, Kept, FirstOffers;
    var c := Candidate(r);
    if |c| == 0 || Normalize(low, c[0]) in forbidden + Norms(low, batch) {
      at := before;
      OffersStay(low, batch, items, r, at);
    } else {
      at := before + [|items|];
      assert c == [c[0]];
      OffersGrow(low, batch, items, r, c[0], before, forbidden);
    }
  }

  lemma OfferStays(low: Lowering, items: seq<Raw>, r: Raw, q: string, n: nat)
    requires FirstOffer(low, items, q, n)
    ensures FirstOffer(low, items + [r], q, n)
  {
    hide Candidate, Normalize;
    assert forall m :: 0 <= m < |items| ==> (items + [r])[m] == items[m];
  }

  lemma OffersStay(low: Lowering, batch: seq<string>, items: seq<Raw>, r: Raw, at: seq<nat>)
    requires FirstOffers(low, batch, items, at)
    ensures FirstOffers(low, batch, items + [r], at)
  {
    hide FirstOffer;
    forall k | 0 <= k < |at| ensures FirstOffer(low, items + [r], batch[k], at[k]) {
      OfferStays(low, items, r, batch[k], at[k]);
    }
  }

  lemma NewOffer(low: Lowering, batch: seq<string>, items: seq<Raw>, r: Raw, q: string, forbidden: set<string>)
    requires FreshOf(low, batch, items, forbidden)
    requires Candidate(r) == [q] && Normalize(low, q) !in forbidden + Norms(low, batch)
    ensures FirstOffer(low, items + [r], q, |items|)
  {
    var all := items + [r];
    assert all[|items|] == r;
    forall m: nat | m < |items| && |Candidate(all[m])| == 1
      ensures Normalize(low, Candidate(all[m])[0]) != Normalize(low, q)
    {
      assert all[m] == items[m];
    }
    hide Candidate, Normalize, FreshOf, Norms;
  }

  lemma OffersGrow(low: Lowering, batch: seq<string>, items: seq<Raw>, r: Raw, q: string, at: seq<nat>,
                   forbidden: set<string>)
    requires FirstOffers(low, batch, items, at) && FreshOf(low, batch, items, forbidden)
    requires Candidate(r) == [q] && Normalize(low, q) !in forbidden + Norms(low, batch)
    ensures FirstOffers(low, batch + [q], items + [r], at + [|items|])
  {
    NewOffer(low, batch, items, r, q, forbidden);
    hide Candidate, Normalize, FreshOf, Norms;
    assert forall k :: 0 <= k < |at| ==> at[k] < |items|;
    OffersStay(low, batch, items, r, at);
    hide FirstOffer;
  }

  lemma NormsOfNone(low: Lowering)
    ensures Norms(low, []) == {}
  {
  }

  /** The deduplication loop. */
  method FreshQueries(low: Lowering, items: seq<Raw>, forbidden: set<string>) returns (batch: seq<string>)
    ensures batch == Fresh(low, items, forbidden)
  {
    NothingFresh(low, items[..0], forbidden);
    NormsOfNone(low);
    hide *;
    batch := [];
    var seenThisBatch: set<string> := {};
    for k := 0 to |items|
      invariant seenThisBatch == Norms(low, batch) && batch == Fresh(low, items[..k], forbidden)
    {
      assert items[..k + 1] == items[..k] + [items[k]];
      FreshNext(low, items[..k], items[k], forbidden);
      var candidate := Candidate(items[k]);
      if && |candidate| > 0
         && Normalize(low, candidate[0]) !in forbidden && Normalize(low, candidate[0]) !in seenThisBatch
      {
        NormsSnoc(low, batch, candidate[0]);
        seenThisBatch := seenThisBatch + {Normalize(low, candidate[0])};
        batch := batch + [candidate[0]];
      }
    }
    assert items[..|items|] == items;
  }

  method NormalizedSet(low: Lowering, qs: seq<string>) returns (s: set<string>)
    ensures s == Norms(low, qs)
  {
    s := {};
    for i := 0 to |qs|
      invariant s == Norms(low, qs[..i])
    {
      assert qs[..i + 1] == qs[..i] + [qs[i]];
      NormsSnoc(low, qs[..i], qs[i]);
      s := s + {Normalize(low, qs[i])};
    }
    assert qs[..|qs|] == qs;
  }

  function Considered(r: Reply, max: nat): seq<Raw> {
    if !r.List? then [] else if |r.items| <= max then r.items else r.items[..max]
  }

  /** One refiner step: a new batch in flight and the old one in the history, or
      both lists as they were. */
  ghost function Refine(low: Lowering, q: Queries, r: Reply, max: nat): Queries {
    var batch := Fresh(low, Considered(r, max), Known(low, q));
    if batch == [] then q else Queries(batch, q.tried + q.current)
  }

  /** Everything that is or was in flight. */
  ghost function Known(low: Lowering, q: Queries): set<string> {
    Norms(low, q.tried + q.current)
  }

  /** `query_refiner_agent`: the step, or the failure that escapes it. */
  method QueryRefinerAgent(low: Lowering, q: Queries, r: Reply, max: nat) returns (result: Option<Queries>)
    ensures result == if r.NotAnObject? then None else Some(Refine(low, q, r, max))
  {
    if r.NotAnObject? {
      return None;
    }
    if !r.List? {
      return Some(q);
    }
    var forbidden := NormalizedSet(low, q.tried + q.current);
    var batch := FreshQueries(low, Considered(r, max), forbidden);
    if batch == [] {
      return Some(q);
    }
    return Some(Queries(batch, q.tried + q.current));
  }

  /** What a step comes to: nothing changes exactly when the reply offers nothing
      new; otherwise the batch is new, within the cap, and leaves out only what
      is known or repeated. */
  ghost predicate Refined(low: Lowering, q: Queries, q': Queries, r: Reply, max: nat) {
    var items := Considered(r, max);
    if forall c :: Offered(items, c) ==> Normalize(low, c) in Known(low, q) then q' == q
    else
      && q'.tried == q.tried + q.current
      && q'.current != [] && |q'.current| <= max
      && FreshOf(low, q'.current, items, Known(low, q))
  }

  lemma RefineMeans(low: Lowering, q: Queries, r: Reply, max: nat)
    ensures Refined(low, q, Refine(low, q, r, max), r, max)
    ensures !r.List? ==> Refine(low, q, r, max) == q
    ensures Refine(low, q, r, max) != q ==>
              FreshOf(low, Refine(low, q, r, max).current, Considered(r, max), Known(low, q))
  {
    var items := Considered(r, max);
    hide Fresh, Known, Normalize, Offered;
    FreshIsFresh(low, items, Known(low, q));
    NormsOfNone(low);
    hide Norms;
    var batch := Fresh(low, items, Known(low, q));
    if |batch| > 0 {
      assert Offered(items, batch[0]) && Normalize(low, batch[0]) !in Known(low, q);
    }
  }

  /** Only the first `max` items of a list count, and each of those that is a text is
      known afterwards, in whatever spelling. */
  lemma RefineReadsFirst(low: Lowering, q: Queries, items: seq<Raw>, max: nat)
    ensures var q' := Refine(low, q, List(items), max);
            && (q' != q ==> forall c :: c in q'.current ==>
                  exists k :: 0 <= k < max && k < |items| && items[k].Str? && Strip(items[k].text) == c != "")
            && forall k :: 0 <= k < max && k < |items| && items[k].Str? && Strip(items[k].text) != "" ==>
                 exists c :: (c in q'.tried || c in q'.current) && low(Strip(c)) == low(Strip(items[k].text))
  {
    var q' := Refine(low, q, List(items), max);
    var first := Considered(List(items), max);
    RefineMeans(low, q, List(items), max);
    hide Refine, Strip;
    if q' != q {
      forall c | c in q'.current
        ensures exists k :: 0 <= k < max && k < |items| && items[k].Str? && Strip(items[k].text) == c != ""
      {
        var i :| 0 <= i < |q'.current| && q'.current[i] == c;
        var k :| 0 <= k < |first| && Candidate(first[k]) == [c];
        assert first[k] == items[k];
      }
    }
    forall k | 0 <= k < max && k < |items| && items[k].Str? && Strip(items[k].text) != ""
      ensures exists c :: (c in q'.tried || c in q'.current) && low(Strip(c)) == low(Strip(items[k].text))
    {
      var c := Strip(items[k].text);
      assert first[k] == items[k] && Candidate(first[k]) == [c];
      StripTwice(items[k].text);
      assert Offered(first, c) && low(Strip(c)) == Normalize(low, c);
      if Normalize(low, c) in Known(low, q) {
        NormsHave(low, q.tried + q.current, Normalize(low, c));
      } else {
        NormsHave(low, q'.current, Normalize(low, c));
      }
    }
  }

  lemma NormsHave(low: Lowering, qs: seq<string>, x: string)
    requires x in Norms(low, qs)
    ensures exists c :: c in qs && low(Strip(c)) == x
  {
    hide Strip;
  }

  // ---- Runs of refiner steps ----------------------------------------------

  ghost predicate IsRun(low: Lowering, qs: seq<Queries>, replies: seq<Reply>, max: nat) {
    && |qs| == |replies| + 1
    && forall i :: 0 <= i < |replies| ==>
         !replies[i].NotAnObject? && qs[i + 1] == Refine(low, qs[i], replies[i], max)
  }

  lemma NormsSubset(low: Lowering, p: seq<string>, q: seq<string>)
    requires forall x :: x in p ==> x in q
    ensures Norms(low, p) <= Norms(low, q)
  {
    forall x | x in Norms(low, p) ensures x in Norms(low, q) {
      var i :| 0 <= i < |p| && Normalize(low, p[i]) == x;
      assert p[i] in q;
      var j :| 0 <= j < |q| && q[j] == p[i];
      assert Normalize(low, q[j]) == x;
    }
  }

  lemma StepKeepsKnown(low: Lowering, q: Queries, q': Queries, r: Reply, max: nat)
    requires q' == Refine(low, q, r, max)
    ensures Known(low, q) <= Known(low, q') && q.tried <= q'.tried
  {
    if q' != q { NormsSubset(low, q.tried + q.current, q'.tried + q'.current); }
  }

  /** No query stands twice in flight and history together. */
  ghost predicate NoRepeats(low: Lowering, q: Queries) {
    Distinct(low, q.tried + q.current)
  }

  lemma StepKeepsDistinct(low: Lowering, q: Queries, q': Queries, r: Reply, max: nat)
    requires q' == Refine(low, q, r, max) && NoRepeats(low, q)
    ensures NoRepeats(low, q')
  {
    RefineMeans(low, q, r, max);
  }

  lemma {:induction false} KnownGrows(low: Lowering, qs: seq<Queries>, replies: seq<Reply>, max: nat, i: nat, j: nat)
    requires IsRun(low, qs, replies, max) && i <= j < |qs|
    ensures Known(low, qs[i]) <= Known(low, qs[j]) && qs[i].tried <= qs[j].tried
    decreases j - i
  {
    hide Refine, Known;
    if i < j {
      KnownGrows(low, qs, replies, max, i, j - 1);
      StepKeepsKnown(low, qs[j - 1], qs[j], replies[j - 1], max);
    }
  }

  /** No query is put in flight twice, up to case and white space: what a step
      puts in flight was in flight at no earlier state of the run, and the batch
      itself holds no query twice. */
  lemma NeverTwice(low: Lowering, qs: seq<Queries>, replies: seq<Reply>, max: nat, i: nat, j: nat)
    requires IsRun(low, qs, replies, max) && i < j < |qs| && qs[j] != qs[j - 1]
    ensures Distinct(low, qs[j].current)
    ensures Norms(low, qs[j].current) !! Known(low, qs[i])
    ensures forall p, r :: p in qs[j].current && (r in qs[i].tried || r in qs[i].current) ==>
              low(Strip(p)) != low(Strip(r))
  {
    hide Refine, Refined, FreshOf, Known;
    KnownGrows(low, qs, replies, max, i, j - 1);
    RefineMeans(low, qs[j - 1], replies[j - 1], max);
    FreshIsNew(low, qs[j].current, Considered(replies[j - 1], max), Known(low, qs[j - 1]));
    Apart(low, qs[j].current, qs[i]);
  }

  lemma Apart(low: Lowering, batch: seq<string>, q: Queries)
    requires Norms(low, batch) !! Known(low, q)
    ensures forall p, r :: p in batch && (r in q.tried || r in q.current) ==> low(Strip(p)) != low(Strip(r))
  {
    hide Strip;
    forall p, r | p in batch && (r in q.tried || r in q.current) ensures low(Strip(p)) != low(Strip(r)) {
      var all := q.tried + q.current;
      assert r in all;
      var i, j :| 0 <= i < |batch| && batch[i] == p && 0 <= j < |all| && all[j] == r;
      assert Normalize(low, batch[i]) in Norms(low, batch) && Normalize(low, all[j]) in Norms(low, all);
    }
  }

  lemma FreshIsNew(low: Lowering, batch: seq<string>, items: seq<Raw>, forbidden: set<string>)
    requires FreshOf(low, batch, items, forbidden)
    ensures Distinct(low, batch) && Norms(low, batch) !! forbidden
  {
    hide Offered, Normalize;
  }

  /** A step that changes anything extends the history by exactly the batch that
      leaves flight, and strictly when there was one. */
  lemma HistoryGrowsByOutgoingBatch(low: Lowering, qs: seq<Queries>, replies: seq<Reply>, max: nat, j: nat)
    requires IsRun(low, qs, replies, max) && j < |replies|
    ensures qs[j + 1] != qs[j] ==>
              qs[j + 1].tried == qs[j].tried + qs[j].current && 0 < |qs[j + 1].current| <= max
    ensures qs[j + 1] != qs[j] && j > 0 && qs[j] != qs[j - 1] ==> |qs[j + 1].tried| > |qs[j].tried|
  {
    RefineMeans(low, qs[j], replies[j], max);
    if j > 0 { RefineMeans(low, qs[j - 1], replies[j - 1], max); }
  }

  /** A run keeps flight and history free of repeats when it starts so. */
  lemma {:induction false} HistoryStaysDistinct(low: Lowering, qs: seq<Queries>, replies: seq<Reply>, max: nat)
    requires IsRun(low, qs, replies, max) && NoRepeats(low, qs[0])
    ensures NoRepeats(low, qs[|qs| - 1])
    decreases |qs|
  {
    if |qs| > 1 {
      StepKeepsDistinct(low, qs[0], qs[1], replies[0], max);
      HistoryStaysDistinct(low, qs[1..], replies[1..], max);
    }
  }
}
