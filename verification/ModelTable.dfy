/** The capability lookup of `src/llm_models.py`: an exact row, else the row of
    the longest known id the model extends, else that of its family, else the
    conservative row. */
module ModelTable {

  /** An effort text: one of the levels, or a text that is none of them. */
  datatype Effort = Low | Medium | High | XHigh | MaxEffort | NoLevel

  datatype Capabilities = Capabilities(
    samplingParams: bool,
    adaptiveThinking: bool,
    effortLevels: set<Effort>,
    structuredOutputs: bool)

  const UNKNOWN := Capabilities(false, false, {}, false)

  datatype Tables = Tables(known: map<string, Capabilities>, family: map<string, Capabilities>)

  /** `key` is a proper prefix match of `model`; with `boundary`, one that ends
      where a `-` segment of the model begins. */
  predicate Fits(key: string, model: string, boundary: bool) {
    key != "" && key <= model && (boundary ==> |key| < |model| && model[|key|] == '-')
  }

  /** The longest prefix of `model` with at most `n` characters that is a key and
      fits, or the empty string. It does not look at the order of the keys. */
  function LongestFit(model: string, keys: set<string>, boundary: bool, n: nat): string
    requires n <= |model|
  {
    if n == 0 then ""
    else if model[..n] in keys && Fits(model[..n], model, boundary) then model[..n]
    else LongestFit(model, keys, boundary, n - 1)
  }

  /** It is the longest of all the keys that fit, and there is only one such. */
  lemma {:induction false} LongestFitIsLongest(model: string, keys: set<string>, boundary: bool, n: nat)
    requires n <= |model|
    ensures var best := LongestFit(model, keys, boundary, n);
            && (best != "" ==> best in keys && Fits(best, model, boundary) && |best| <= n)
            && forall k :: k in keys && Fits(k, model, boundary) && |k| <= n ==> |k| <= |best| && k == best[..|k|]
  {
    if n > 0 {
      LongestFitIsLongest(model, keys, boundary, n - 1);
      assert forall k :: k in keys && Fits(k, model, boundary) && |k| == n ==> k == model[..n];
    }
  }

  /** `_longest_prefix_match`, over the keys in whatever order the table yields them. */
  method LongestPrefixMatch(model: string, order: seq<string>, boundary: bool) returns (bestKey: string)
    ensures bestKey == LongestFit(model, (set k | k in order), boundary, |model|)
  {
    bestKey := "";
    for i := 0 to |order|
      invariant bestKey != "" ==> bestKey in order[..i] && Fits(bestKey, model, boundary)
      invariant forall j :: 0 <= j < i && Fits(order[j], model, boundary) ==> |order[j]| <= |bestKey|
    {
      var key := order[i];
      if !(key <= model) || |key| <= |bestKey| {
        continue;
      }
      if boundary && !(|key| < |model| && model[|key|] == '-') {
        continue;
      }
      bestKey := key;
    }
    ghost var keys := set k | k in order;
    LongestFitIsLongest(model, keys, boundary, |model|);
    ghost var best := LongestFit(model, keys, boundary, |model|);
    if best != "" {
      var j :| 0 <= j < |order| && order[j] == best;
    }
    if bestKey != "" {
      assert bestKey in keys;
      assert bestKey == best[..|bestKey|];
    }
  }

  /** `capabilities_for`. */
  function CapabilitiesFor(t: Tables, model: string): Capabilities {
    if model in t.known then t.known[model]
    else
      var snapshot := LongestFit(model, t.known.Keys, true, |model|);
      if snapshot in t.known && snapshot != "" then t.known[snapshot]
      else
        var family := LongestFit(model, t.family.Keys, false, |model|);
        if family in t.family && family != "" then t.family[family] else UNKNOWN
  }

  /** The lookup as the source runs it, over tables with an iteration order. */
  method Lookup(t: Tables, knownOrder: seq<string>, familyOrder: seq<string>, model: string) returns (c: Capabilities)
    requires (set k | k in knownOrder) == t.known.Keys && (set k | k in familyOrder) == t.family.Keys
    ensures c == CapabilitiesFor(t, model)
  {
    if model in t.known {
      return t.known[model];
    }
    var snapshot := LongestPrefixMatch(model, knownOrder, true);
    LongestFitIsLongest(model, t.known.Keys, true, |model|);
    if snapshot != "" {
      return t.known[snapshot];
    }
    var family := LongestPrefixMatch(model, familyOrder, false);
    LongestFitIsLongest(model, t.family.Keys, false, |model|);
    if family != "" {
      return t.family[family];
    }
    return UNKNOWN;
  }

  /** A dated snapshot or point release of a known id, `known-suffix`, has a row
      of the known table: its own, or that of the longest id it extends. */
  lemma SnapshotHasKnownRow(t: Tables, id: string, suffix: string)
    requires id in t.known && id != ""
    ensures exists k :: k in t.known && |id| <= |k| && k <= id + "-" + suffix
              && CapabilitiesFor(t, id + "-" + suffix) == t.known[k]
  {
    var model := id + "-" + suffix;
    LongestFitIsLongest(model, t.known.Keys, true, |model|);
    assert Fits(id, model, true);
    if model !in t.known {
      var k := LongestFit(model, t.known.Keys, true, |model|);
      assert k in t.known && |id| <= |k|;
    } else {
      assert model <= model;
    }
  }

  /** `k` is the longest key of the table that the model is, up to its end or a
      `-` when `boundary` is set, an extension of. */
  ghost predicate LongestPrefix(k: string, table: map<string, Capabilities>, model: string, boundary: bool) {
    && k in table && k != "" && (if boundary then k + "-" <= model else k <= model)
    && forall j :: j in table && (if boundary then j + "-" <= model else j <= model) ==> |j| <= |k|
  }

  lemma FitsIs(key: string, model: string)
    ensures Fits(key, model, true) <==> key != "" && key + "-" <= model
    ensures Fits(key, model, false) <==> key != "" && key <= model
  {
    if key + "-" <= model { assert model[..|key|] == key && model[|key|] == (key + "-")[|key|]; }
  }

  /** The model starts with no known id that a `-` follows. */
  ghost predicate NoSnapshot(t: Tables, model: string) {
    model !in t.known && forall k :: k in t.known && k != "" ==> !(k + "-" <= model)
  }

  lemma NoSnapshotFits(t: Tables, model: string)
    requires NoSnapshot(t, model)
    ensures LongestFit(model, t.known.Keys, true, |model|) == ""
  {
    LongestFitIsLongest(model, t.known.Keys, true, |model|);
    FitsIs(LongestFit(model, t.known.Keys, true, |model|), model);
    hide LongestFit, Fits;
  }

  /** Which row a model gets: its own; else that of the longest known id with a `-`
      after it that the model starts with. */
  lemma KnownRow(t: Tables, model: string, k: string)
    ensures model in t.known ==> CapabilitiesFor(t, model) == t.known[model]
    ensures model !in t.known && LongestPrefix(k, t.known, model, true) ==> CapabilitiesFor(t, model) == t.known[k]
  {
    LongestFitIsLongest(model, t.known.Keys, true, |model|);
    FitsIs(k, model);
    FitsIs(LongestFit(model, t.known.Keys, true, |model|), model);
    hide LongestFit, Fits;
  }

  /** Else that of the longest family prefix, up to the whole id; else one that allows
      nothing. */
  lemma FamilyRow(t: Tables, model: string, f: string)
    requires NoSnapshot(t, model)
    ensures LongestPrefix(f, t.family, model, false) ==> CapabilitiesFor(t, model) == t.family[f]
    ensures (forall g :: g in t.family && g != "" ==> !(g <= model)) ==>
              CapabilitiesFor(t, model) == Capabilities(false, false, {}, false)
  {
    var best := LongestFit(model, t.family.Keys, false, |model|);
    NoSnapshotFits(t, model);
    LongestFitIsLongest(model, t.family.Keys, false, |model|);
    FitsIs(f, model);
    FitsIs(best, model);
    hide LongestFit, Fits, NoSnapshot;
  }
}
