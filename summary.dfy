/**
 * The list that `printLimitedGiftsInfo` builds for the one-time start-up
 * summary: every gift with finite supply, scarcest first. The printing itself
 * is not modelled.
 */
module Summary {
  import opened Gifts
  import opened Sorting

  /** One summary line: ID, remaining and total supply. */
  datatype GiftInfo = GiftInfo(id: Int64, available: Int32, total: Int32)

  function InfoOf(g: Item): GiftInfo {
    GiftInfo(g.id, g.remains, g.total)
  }

  function InfoTotal(g: GiftInfo): int {
    g.total as int
  }

  /** The summary lines in catalogue order, before sorting. */
  function LimitedInfos(gifts: seq<Item>): (infos: seq<GiftInfo>)
    ensures |infos| <= |gifts|
    decreases |gifts|
  {
    if gifts == [] then []
    else
      var last := gifts[|gifts| - 1];
      LimitedInfos(gifts[..|gifts| - 1]) + (if last.total > 0 then [InfoOf(last)] else [])
  }

  /** Every summary line comes from a catalogue gift with `total > 0`. */
  lemma {:induction false} LimitedInfosSound(gifts: seq<Item>, x: GiftInfo)
    requires x in LimitedInfos(gifts)
    ensures exists i :: 0 <= i < |gifts| && gifts[i].total > 0 && x == InfoOf(gifts[i])
    decreases |gifts|
  {
    var init, last := gifts[..|gifts| - 1], gifts[|gifts| - 1];
    if x in LimitedInfos(init) {
      LimitedInfosSound(init, x);
      var i :| 0 <= i < |init| && init[i].total > 0 && x == InfoOf(init[i]);
      assert gifts[i] == init[i];
    } else {
      assert gifts[|gifts| - 1] == last;
    }
  }

  /** Every catalogue gift with `total > 0` has its summary line. */
  lemma {:induction false} LimitedInfosComplete(gifts: seq<Item>, i: nat)
    requires i < |gifts| && gifts[i].total > 0
    ensures InfoOf(gifts[i]) in LimitedInfos(gifts)
    decreases |gifts|
  {
    var init := gifts[..|gifts| - 1];
    if i < |init| {
      LimitedInfosComplete(init, i);
      assert init[i] == gifts[i];
    }
  }

  /** A summary line is exactly a catalogue gift with `total > 0`. */
  lemma LimitedInfosMembers(gifts: seq<Item>, x: GiftInfo)
    ensures x in LimitedInfos(gifts) <==>
            exists i :: 0 <= i < |gifts| && gifts[i].total > 0 && x == InfoOf(gifts[i])
  {
    if x in LimitedInfos(gifts) {
      LimitedInfosSound(gifts, x);
    }
    if exists i :: 0 <= i < |gifts| && gifts[i].total > 0 && x == InfoOf(gifts[i]) {
      var i :| 0 <= i < |gifts| && gifts[i].total > 0 && x == InfoOf(gifts[i]);
      LimitedInfosComplete(gifts, i);
    }
  }

  /**
   * `printLimitedGiftsInfo`: the finite-supply gifts, each once, in
   * non-decreasing order of total supply.
   */
  method LimitedGiftsInfo(gifts: seq<Item>) returns (limited: seq<GiftInfo>)
    ensures multiset(limited) == multiset(LimitedInfos(gifts))
    ensures SortedBy(limited, InfoTotal)
    ensures forall x :: x in limited <==>
              exists i :: 0 <= i < |gifts| && gifts[i].total > 0 && x == InfoOf(gifts[i])
  {
    var limitedGifts: seq<GiftInfo> := [];
    for i := 0 to |gifts|
      invariant limitedGifts == LimitedInfos(gifts[..i])
    {
      var gft := gifts[i];
      assert gifts[..i + 1][..i] == gifts[..i];
      if gft.total > 0 {
        limitedGifts := limitedGifts + [GiftInfo(gft.id, gft.remains, gft.total)];
      }
    }
    assert gifts[..|gifts|] == gifts;

    var a := new GiftInfo[|limitedGifts|](k requires 0 <= k < |limitedGifts| => limitedGifts[k]);
    assert a[..] == limitedGifts;
    SortByKey(a, InfoTotal);
    limited := a[..];

    forall x
      ensures x in limited <==> exists i :: 0 <= i < |gifts| && gifts[i].total > 0 && x == InfoOf(gifts[i])
    {
      assert x in limited <==> x in multiset(limited);
      assert x in limitedGifts <==> x in multiset(limitedGifts);
      LimitedInfosMembers(gifts, x);
    }
  }
}
