/** The first half of AlertHueLights and TestHueLights: every name on the
    watch-list is looked up in the lights catalog by exact, case-sensitive
    name, and the key of the first entry with that name is collected; a name
    without an entry is logged and skipped. */
module LightMatching {
  import opened HueTypes

  /** Entry `k` is the first one of the catalog, in enumeration order, whose
      name is exactly `name`. */
  ghost predicate FirstWithName(catalog: seq<Light>, name: string, k: int)
  {
    0 <= k < |catalog| && catalog[k].name == name &&
    forall j :: 0 <= j < k ==> catalog[j].name != name
  }

  /** `id` is the key of the first entry named `name`. */
  ghost predicate IsFirstKey(catalog: seq<Light>, name: string, id: string)
  {
    exists j :: FirstWithName(catalog, name, j) && catalog[j].id == id
  }

  /** `id` is the key of an entry whose name is on the watch-list. */
  ghost predicate IsWatchedKey(catalog: seq<Light>, watch: seq<string>, id: string)
  {
    exists j :: 0 <= j < |catalog| && catalog[j].id == id && catalog[j].name in watch
  }

  /** `_hueBridgeLights.Where(x => x.Value.name == name).FirstOrDefault()`:
      the position of the entry found, or None for the default pair whose
      key is null. */
  function FirstNamed(catalog: seq<Light>, name: string): (r: Option<nat>)
    ensures r.None? <==> forall k :: 0 <= k < |catalog| ==> catalog[k].name != name
    ensures r.Some? ==> FirstWithName(catalog, name, r.value)
  {
    if catalog == [] then None
    else if catalog[0].name == name then Some(0)
    else
      match FirstNamed(catalog[1..], name)
      case None => None
      case Some(k) => Some(k + 1)
  }

  predicate HasLight(catalog: seq<Light>, name: string)
  {
    FirstNamed(catalog, name).Some?
  }

  /** The key collected for one watched name: none, or exactly one. */
  function IdsFor(catalog: seq<Light>, name: string): seq<string>
  {
    match FirstNamed(catalog, name)
    case None => []
    case Some(k) => [catalog[k].id]
  }

  /** The log line written for a watched name the catalog does not have. */
  function SkipMessage(name: string): string
  {
    SkipPrefix + name
  }

  const SkipPrefix := "Did not find Light on Hue Bridge with Name = "

  function SkipsFor(catalog: seq<Light>, name: string): seq<string>
  {
    if HasLight(catalog, name) then [] else [SkipMessage(name)]
  }

  /** `lightIndexes` after the first loop has seen all of `watch`. */
  function MatchedIds(catalog: seq<Light>, watch: seq<string>): (ids: seq<string>)
    ensures |ids| <= |watch|
  {
    if watch == [] then []
    else MatchedIds(catalog, watch[..|watch| - 1]) + IdsFor(catalog, watch[|watch| - 1])
  }

  /** The log lines the first loop has written after seeing all of `watch`. */
  function SkipLog(catalog: seq<Light>, watch: seq<string>): (lines: seq<string>)
    ensures |lines| <= |watch|
  {
    if watch == [] then []
    else SkipLog(catalog, watch[..|watch| - 1]) + SkipsFor(catalog, watch[|watch| - 1])
  }

  /** The watched names that have an entry, in watch-list order, repeats kept. */
  function Matched(catalog: seq<Light>, watch: seq<string>): seq<string>
  {
    if watch == [] then []
    else Matched(catalog, watch[..|watch| - 1]) +
         (if HasLight(catalog, watch[|watch| - 1]) then [watch[|watch| - 1]] else [])
  }

  /** The watched names that have no entry, in watch-list order, repeats kept. */
  function Unmatched(catalog: seq<Light>, watch: seq<string>): seq<string>
  {
    if watch == [] then []
    else Unmatched(catalog, watch[..|watch| - 1]) +
         (if HasLight(catalog, watch[|watch| - 1]) then [] else [watch[|watch| - 1]])
  }

  /** The first loop itself: walks the watch-list in order and collects the
      key of each name's first entry, logging each name it cannot find. */
  method CollectLightIds(catalog: seq<Light>, watch: seq<string>) returns (ids: seq<string>, skipped: seq<string>)
    ensures ids == MatchedIds(catalog, watch) && skipped == SkipLog(catalog, watch)
    ensures |ids| + |skipped| == |watch|
    ensures forall k :: 0 <= k < |ids| ==> IsWatchedKey(catalog, watch, ids[k])
  {
    ids, skipped := [], [];
    var i := 0;
    while i < |watch|
      invariant 0 <= i <= |watch|
      invariant ids == MatchedIds(catalog, watch[..i])
      invariant skipped == SkipLog(catalog, watch[..i])
    {
      assert watch[..i + 1][..i] == watch[..i];
      var name := watch[i];
      var found := FirstNamed(catalog, name);
      if found.Some? {
        ids := ids + [catalog[found.value].id];
      } else {
        skipped := skipped + [SkipMessage(name)];
      }
      i := i + 1;
    }
    assert watch[..i] == watch;
    MatchedPlusSkippedIsWatch(catalog, watch);
    MatchedIdsAreWatchedLights(catalog, watch);
  }

  /** Each watched name contributes exactly one key or exactly one log line,
      so neither list is longer than the watch-list. */
  lemma {:induction false} MatchedPlusSkippedIsWatch(catalog: seq<Light>, watch: seq<string>)
    ensures |MatchedIds(catalog, watch)| + |SkipLog(catalog, watch)| == |watch|
    ensures |MatchedIds(catalog, watch)| == |Matched(catalog, watch)|
    ensures |SkipLog(catalog, watch)| == |Unmatched(catalog, watch)|
  {
    if watch != [] {
      MatchedPlusSkippedIsWatch(catalog, watch[..|watch| - 1]);
    }
  }

  /** Every collected key is the key of a catalog entry whose name is on the
      watch-list. */
  lemma {:induction false} MatchedIdsAreWatchedLights(catalog: seq<Light>, watch: seq<string>)
    ensures forall k :: 0 <= k < |MatchedIds(catalog, watch)| ==>
              IsWatchedKey(catalog, watch, MatchedIds(catalog, watch)[k])
  {
    if watch != [] {
      var init, last := watch[..|watch| - 1], watch[|watch| - 1];
      MatchedIdsAreWatchedLights(catalog, init);
      var before := MatchedIds(catalog, init);
      var ids := MatchedIds(catalog, watch);
      assert ids == before + IdsFor(catalog, last);
      forall k | 0 <= k < |MatchedIds(catalog, watch)|
        ensures IsWatchedKey(catalog, watch, MatchedIds(catalog, watch)[k])
      {
        if k < |before| {
          assert IsWatchedKey(catalog, init, MatchedIds(catalog, init)[k]);
          var j :| 0 <= j < |catalog| && catalog[j].id == before[k] && catalog[j].name in init;
          var p :| 0 <= p < |init| && init[p] == catalog[j].name;
          assert watch[p] == catalog[j].name;
          assert ids[k] == before[k];
        } else {
          var j := FirstNamed(catalog, last).value;
          assert watch[|watch| - 1] == catalog[j].name;
          assert catalog[j].id == ids[k];
        }
      }
    }
  }

  /** The collected keys are exactly, one for one and in watch-list order,
      the keys of the first entries named by the matched names. */
  lemma {:induction false} MatchedIdsFollowWatchOrder(catalog: seq<Light>, watch: seq<string>)
    ensures |MatchedIds(catalog, watch)| == |Matched(catalog, watch)|
    ensures forall k :: 0 <= k < |Matched(catalog, watch)| ==>
              IsFirstKey(catalog, Matched(catalog, watch)[k], MatchedIds(catalog, watch)[k])
  {
    MatchedPlusSkippedIsWatch(catalog, watch);
    if watch != [] {
      var init, last := watch[..|watch| - 1], watch[|watch| - 1];
      MatchedIdsFollowWatchOrder(catalog, init);
      var ids, names := MatchedIds(catalog, watch), Matched(catalog, watch);
      forall k | 0 <= k < |Matched(catalog, watch)|
        ensures IsFirstKey(catalog, Matched(catalog, watch)[k], MatchedIds(catalog, watch)[k])
      {
        if k < |Matched(catalog, init)| {
          assert IsFirstKey(catalog, Matched(catalog, init)[k], MatchedIds(catalog, init)[k]);
          assert names[k] == Matched(catalog, init)[k] && ids[k] == MatchedIds(catalog, init)[k];
        } else {
          var j := FirstNamed(catalog, last).value;
          assert names[k] == last && ids[k] == catalog[j].id;
          assert FirstWithName(catalog, names[k], j);
        }
      }
    }
  }

  /** Each unmatched watched name yields exactly one log line, naming it, in
      watch-list order. */
  lemma {:induction false} SkipLogNamesUnmatched(catalog: seq<Light>, watch: seq<string>)
    ensures |SkipLog(catalog, watch)| == |Unmatched(catalog, watch)|
    ensures forall k :: 0 <= k < |Unmatched(catalog, watch)| ==>
              SkipLog(catalog, watch)[k] == SkipMessage(Unmatched(catalog, watch)[k]) &&
              !HasLight(catalog, Unmatched(catalog, watch)[k])
  {
    if watch != [] {
      SkipLogNamesUnmatched(catalog, watch[..|watch| - 1]);
    }
  }

  /** Watching one more name adds that name's key, if any, at the end. */
  lemma MatchedIdsSnoc(catalog: seq<Light>, watch: seq<string>, name: string)
    ensures MatchedIds(catalog, watch + [name]) == MatchedIds(catalog, watch) + IdsFor(catalog, name)
  {
    assert (watch + [name])[..|watch|] == watch;
  }

  /** Watching one more name adds its log line, if any, at the end. */
  lemma SkipLogSnoc(catalog: seq<Light>, watch: seq<string>, name: string)
    ensures SkipLog(catalog, watch + [name]) == SkipLog(catalog, watch) + SkipsFor(catalog, name)
  {
    assert (watch + [name])[..|watch|] == watch;
  }

  /** Matching a watch-list is matching its two halves one after the other. */
  lemma {:induction false} MatchedIdsAppend(catalog: seq<Light>, front: seq<string>, back: seq<string>)
    ensures MatchedIds(catalog, front + back) == MatchedIds(catalog, front) + MatchedIds(catalog, back)
    decreases |back|
  {
    if back == [] {
      assert front + back == front;
    } else {
      var init, last := back[..|back| - 1], back[|back| - 1];
      var a, b, c := MatchedIds(catalog, front), MatchedIds(catalog, init), IdsFor(catalog, last);
      assert MatchedIds(catalog, front + back) == (a + b) + c by {
        assert front + back == (front + init) + [last];
        MatchedIdsAppend(catalog, front, init);
        MatchedIdsSnoc(catalog, front + init, last);
      }
      assert MatchedIds(catalog, back) == b + c by {
        assert back == init + [last];
        MatchedIdsSnoc(catalog, init, last);
      }
    }
  }

  /** The same for the log lines. */
  lemma {:induction false} SkipLogAppend(catalog: seq<Light>, front: seq<string>, back: seq<string>)
    ensures SkipLog(catalog, front + back) == SkipLog(catalog, front) + SkipLog(catalog, back)
    decreases |back|
  {
    if back == [] {
      assert front + back == front;
    } else {
      var init, last := back[..|back| - 1], back[|back| - 1];
      var a, b, c := SkipLog(catalog, front), SkipLog(catalog, init), SkipsFor(catalog, last);
      assert SkipLog(catalog, front + back) == (a + b) + c by {
        assert front + back == (front + init) + [last];
        SkipLogAppend(catalog, front, init);
        SkipLogSnoc(catalog, front + init, last);
      }
      assert SkipLog(catalog, back) == b + c by {
        assert back == init + [last];
        SkipLogSnoc(catalog, init, last);
      }
    }
  }

  /** When every watched name is in the catalog nothing is logged and the
      k-th key is that of the first entry named by the k-th watched name; in
      particular a name watched twice yields its key twice. */
  lemma {:induction false} AllFoundGivesOneIdPerName(catalog: seq<Light>, watch: seq<string>)
    requires forall k :: 0 <= k < |watch| ==> HasLight(catalog, watch[k])
    ensures SkipLog(catalog, watch) == []
    ensures |MatchedIds(catalog, watch)| == |watch|
    ensures forall k :: 0 <= k < |watch| ==>
              IsFirstKey(catalog, watch[k], MatchedIds(catalog, watch)[k])
  {
    if watch != [] {
      var init, last := watch[..|watch| - 1], watch[|watch| - 1];
      assert watch == init + [last];
      assert HasLight(catalog, watch[|watch| - 1]);
      var j := FirstNamed(catalog, last).value;
      var before := MatchedIds(catalog, init);
      assert |before| == |init| && SkipLog(catalog, init) == [] &&
             forall k :: 0 <= k < |init| ==> IsFirstKey(catalog, init[k], before[k]) by {
        forall k | 0 <= k < |init| ensures HasLight(catalog, init[k]) {
          assert init[k] == watch[k];
        }
        AllFoundGivesOneIdPerName(catalog, init);
      }
      assert MatchedIds(catalog, watch) == before + [catalog[j].id] by {
        MatchedIdsSnoc(catalog, init, last);
      }
      assert SkipLog(catalog, watch) == [] by {
        SkipLogSnoc(catalog, init, last);
      }
      forall k | 0 <= k < |watch|
        ensures IsFirstKey(catalog, watch[k], MatchedIds(catalog, watch)[k])
      {
        if k < |init| {
          assert watch[k] == init[k] && MatchedIds(catalog, watch)[k] == before[k];
        } else {
          assert FirstWithName(catalog, watch[k], j) && MatchedIds(catalog, watch)[k] == catalog[j].id;
        }
      }
    }
  }

  /** When no watched name is in the catalog no key is collected and every
      name is logged once, in order. */
  lemma {:induction false} NoneFoundLogsEveryName(catalog: seq<Light>, watch: seq<string>)
    requires forall k :: 0 <= k < |watch| ==> !HasLight(catalog, watch[k])
    ensures MatchedIds(catalog, watch) == []
    ensures |SkipLog(catalog, watch)| == |watch|
    ensures forall k :: 0 <= k < |watch| ==> SkipLog(catalog, watch)[k] == SkipMessage(watch[k])
  {
    if watch != [] {
      var init, last := watch[..|watch| - 1], watch[|watch| - 1];
      assert watch == init + [last];
      assert !HasLight(catalog, watch[|watch| - 1]);
      var before := SkipLog(catalog, init);
      assert MatchedIds(catalog, init) == [] && |before| == |init| &&
             forall k :: 0 <= k < |init| ==> before[k] == SkipMessage(init[k]) by {
        forall k | 0 <= k < |init| ensures !HasLight(catalog, init[k]) {
          assert init[k] == watch[k];
        }
        NoneFoundLogsEveryName(catalog, init);
      }
      assert MatchedIds(catalog, watch) == [] by {
        MatchedIdsSnoc(catalog, init, last);
      }
      assert SkipLog(catalog, watch) == before + [SkipMessage(last)] by {
        SkipLogSnoc(catalog, init, last);
      }
      forall k | 0 <= k < |watch| ensures SkipLog(catalog, watch)[k] == SkipMessage(watch[k]) {
        if k < |init| {
          assert watch[k] == init[k] && SkipLog(catalog, watch)[k] == before[k];
        }
      }
    }
  }
}
