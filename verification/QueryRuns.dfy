/** Page runs (vmm_query, core/common/vmm.c), defined by a page-by-page scan. */
module QueryRuns {
  import opened Geometry
  import opened FlatMaps

  /** Run key: 0 for a hole, perms | 8 for a mapped page. */
  function Key(m: FlatMap, v: nat): nat {
    if v in m then m[v].perms + 8 else 0
  }

  function RunStart(m: FlatMap, v: nat): (s: nat)
    ensures s <= v
    ensures forall k :: s <= k <= v ==> Key(m, k) == Key(m, v)
    ensures s > 0 ==> Key(m, s - 1) != Key(m, v)
  {
    if v > 0 && Key(m, v - 1) == Key(m, v) then RunStart(m, v - 1) else v
  }

  function RunEnd(m: FlatMap, v: nat): (e: nat)
    requires v < TOTAL_PAGES
    ensures v < e <= TOTAL_PAGES
    ensures forall k :: v <= k < e ==> Key(m, k) == Key(m, v)
    ensures e < TOTAL_PAGES ==> Key(m, e) != Key(m, v)
    decreases TOTAL_PAGES - v
  {
    if v + 1 < TOTAL_PAGES && Key(m, v + 1) == Key(m, v) then RunEnd(m, v + 1) else v + 1
  }

  /** [s, e) is a maximal run of pages that agree with page v, and contains it. */
  ghost predicate IsRun(m: FlatMap, v: nat, s: nat, e: nat) {
    && s <= v < e <= TOTAL_PAGES
    && (forall k :: s <= k < e ==> Key(m, k) == Key(m, v))
    && (s > 0 ==> Key(m, s - 1) != Key(m, v))
    && (e < TOTAL_PAGES ==> Key(m, e) != Key(m, v))
  }

  lemma RunIsUnique(m: FlatMap, v: nat, s: nat, e: nat)
    requires v < TOTAL_PAGES
    ensures IsRun(m, v, s, e) <==> s == RunStart(m, v) && e == RunEnd(m, v)
  {
    if IsRun(m, v, s, e) {
      var s', e' := RunStart(m, v), RunEnd(m, v);
      var beforeRun := if s > 0 then Key(m, s - 1) else 0;
      var beforeScan := if s' > 0 then Key(m, s' - 1) else 0;
      var afterRun, afterScan := Key(m, e), Key(m, e');
    }
  }

  /** Querying address `from`, then the end of the run returned, and so on. */
  function Tiles(m: FlatMap, from: nat): seq<(nat, nat)>
    requires from <= TOTAL_PAGES
    decreases TOTAL_PAGES - from
  {
    if from == TOTAL_PAGES then [] else [(from, RunEnd(m, from))] + Tiles(m, RunEnd(m, from))
  }

  /** Stepping by runs cuts [from, 2^27) into back-to-back pieces, each the run of every page in it. */
  lemma {:induction false} TilesPartition(m: FlatMap, from: nat)
    requires from <= TOTAL_PAGES
    requires 0 < from < TOTAL_PAGES ==> Key(m, from - 1) != Key(m, from)
    ensures var t := Tiles(m, from);
            && (from < TOTAL_PAGES ==> |t| > 0 && t[0].0 == from && t[|t| - 1].1 == TOTAL_PAGES)
            && (forall i :: 0 <= i < |t| - 1 ==> t[i].1 == t[i + 1].0)
            && (forall i, v :: 0 <= i < |t| && t[i].0 <= v < t[i].1 ==> IsRun(m, v, t[i].0, t[i].1))
    decreases TOTAL_PAGES - from
  {
    if from < TOTAL_PAGES {
      var e := RunEnd(m, from);
      assert Key(m, e - 1) == Key(m, from);
      TilesPartition(m, e);
      var t, rest := Tiles(m, from), Tiles(m, e);
      assert forall i :: 1 <= i < |t| ==> t[i] == rest[i - 1];
      forall v | from <= v < e
        ensures IsRun(m, v, from, e)
      {
        assert Key(m, v) == Key(m, from);
      }
    }
  }

  /** Two pages agree: both unmapped, or both mapped with the same permissions. */
  predicate Agree(m: FlatMap, v: nat, w: nat) {
    (v in m <==> w in m) && (v in m && w in m ==> m[v].perms == m[w].perms)
  }

  /** A run in terms of the pages: they agree, and the neighbours on both sides do not. */
  lemma RunMeans(m: FlatMap, v: nat, s: nat, e: nat)
    ensures IsRun(m, v, s, e) <==>
              && s <= v < e <= TOTAL_PAGES && (forall k: nat :: s <= k < e ==> Agree(m, k, v))
              && (s > 0 ==> !Agree(m, s - 1, v)) && (e < TOTAL_PAGES ==> !Agree(m, e, v))
  {
    forall k: nat
      ensures Key(m, k) == Key(m, v) <==> Agree(m, k, v)
    {
    }
  }
}
