/**
 * `autoBuyGifts`: pick the limited gifts that are still in stock and not too
 * plentiful, try the scarcest first, and buy each one repeatedly until the
 * per-gift cap or the first failed purchase.
 *
 * The purchase RPC is an oracle: `succeeds(k)` is the outcome of the k-th
 * purchase call of the run (counting from 0). Every call appends the gift's ID
 * to the trace, so the k-th call is always made at trace position k.
 */
module AutoBuy {
  import opened Gifts
  import opened Sorting

  const MaxTotalCount: int := 50000
  const MaxBuyCount: nat := 100

  /** The record `autoBuyGifts` keeps for each gift it will try to buy. */
  datatype Target = Target(id: Int64, upgradable: bool, total: Int32)

  predicate IsTarget(g: Item) {
    0 < g.total as int <= MaxTotalCount && g.remains > 0
  }

  function ToTarget(g: Item): Target {
    Target(g.id, g.canUpgrade, g.total)
  }

  function TargetTotal(t: Target): int {
    t.total as int
  }

  /** The targets in catalogue order, before sorting. */
  function Targets(gifts: seq<Item>): (ts: seq<Target>)
    ensures |ts| <= |gifts|
    decreases |gifts|
  {
    if gifts == [] then []
    else
      var last := gifts[|gifts| - 1];
      Targets(gifts[..|gifts| - 1]) + (if IsTarget(last) then [ToTarget(last)] else [])
  }

  /** Every target comes from a catalogue gift that passes the filter. */
  lemma {:induction false} TargetsSound(gifts: seq<Item>, t: Target)
    requires t in Targets(gifts)
    ensures exists i :: 0 <= i < |gifts| && IsTarget(gifts[i]) && t == ToTarget(gifts[i])
    decreases |gifts|
  {
    var init, last := gifts[..|gifts| - 1], gifts[|gifts| - 1];
    if t in Targets(init) {
      TargetsSound(init, t);
      var i :| 0 <= i < |init| && IsTarget(init[i]) && t == ToTarget(init[i]);
      assert gifts[i] == init[i];
    } else {
      assert gifts[|gifts| - 1] == last;
    }
  }

  /** Every catalogue gift that passes the filter is a target. */
  lemma {:induction false} TargetsComplete(gifts: seq<Item>, i: nat)
    requires i < |gifts| && IsTarget(gifts[i])
    ensures ToTarget(gifts[i]) in Targets(gifts)
    decreases |gifts|
  {
    var init := gifts[..|gifts| - 1];
    if i < |init| {
      TargetsComplete(init, i);
      assert init[i] == gifts[i];
    }
  }

  /** A target is exactly a catalogue gift with finite supply of at most 50000 and stock left. */
  lemma TargetsMembers(gifts: seq<Item>, t: Target)
    ensures t in Targets(gifts) <==>
            exists i :: 0 <= i < |gifts| && IsTarget(gifts[i]) && t == ToTarget(gifts[i])
  {
    if t in Targets(gifts) {
      TargetsSound(gifts, t);
    }
    if exists i :: 0 <= i < |gifts| && IsTarget(gifts[i]) && t == ToTarget(gifts[i]) {
      var i :| 0 <= i < |gifts| && IsTarget(gifts[i]) && t == ToTarget(gifts[i]);
      TargetsComplete(gifts, i);
    }
  }

  /** There is no target exactly when no catalogue gift passes the filter. */
  lemma NoTargetsIff(gifts: seq<Item>)
    ensures Targets(gifts) == [] <==> forall i :: 0 <= i < |gifts| ==> !IsTarget(gifts[i])
  {
    if Targets(gifts) == [] {
      forall i | 0 <= i < |gifts|
        ensures !IsTarget(gifts[i])
      {
        TargetsMembers(gifts, ToTarget(gifts[i]));
      }
    } else {
      TargetsMembers(gifts, Targets(gifts)[0]);
    }
  }

  /**
   * Number of purchase calls made for one target whose first call is call
   * number `start`, allowing at most `cap` calls: every call until the first
   * failure, that failure included.
   */
  function Attempts(succeeds: nat -> bool, start: nat, cap: nat): (n: nat)
    ensures n <= cap
    ensures cap > 0 ==> n >= 1
    decreases cap
  {
    if cap == 0 then 0
    else if !succeeds(start) then 1
    else 1 + Attempts(succeeds, start + 1, cap - 1)
  }

  /** What the attempt count for one target is, stated without recursion. */
  ghost predicate AttemptCount(succeeds: nat -> bool, start: nat, cap: nat, n: nat) {
    && 1 <= n <= cap
    && (forall call :: start <= call < start + n - 1 ==> succeeds(call))
    && (n < cap ==> !succeeds(start + n - 1))
  }

  /**
   * A target gets one call more than its leading run of successes when it
   * fails within the cap, and exactly `cap` calls otherwise; no other count fits.
   */
  lemma {:induction false} AttemptsCharacterized(succeeds: nat -> bool, start: nat, cap: nat, n: nat)
    requires cap > 0
    ensures Attempts(succeeds, start, cap) == n <==> AttemptCount(succeeds, start, cap, n)
    decreases cap
  {
    if cap > 1 && succeeds(start) && n > 1 {
      AttemptsCharacterized(succeeds, start + 1, cap - 1, n - 1);
    }
  }

  /** `n` copies of one gift ID. */
  function Repeat(id: Int64, n: nat): (r: seq<Int64>)
    ensures |r| == n
    ensures forall k :: 0 <= k < n ==> r[k] == id
  {
    if n == 0 then [] else Repeat(id, n - 1) + [id]
  }

  /**
   * The purchase calls made for the sorted targets `order`: each target's
   * calls, in order, one block after another.
   */
  function Schedule(order: seq<Target>, succeeds: nat -> bool): (trace: seq<Int64>)
    ensures |order| <= |trace| <= MaxBuyCount * |order|
    decreases |order|
  {
    if order == [] then []
    else
      var prev := Schedule(order[..|order| - 1], succeeds);
      prev + Repeat(order[|order| - 1].id, Attempts(succeeds, |prev|, MaxBuyCount))
  }

  /** The calls for a prefix of the targets are a prefix of all the calls. */
  lemma {:induction false} SchedulePrefix(order: seq<Target>, succeeds: nat -> bool, i: nat)
    requires i <= |order|
    ensures Schedule(order[..i], succeeds) <= Schedule(order, succeeds)
    decreases |order|
  {
    if i < |order| {
      var init := order[..|order| - 1];
      assert order[..i] == init[..i];
      SchedulePrefix(init, succeeds, i);
    } else {
      assert order[..i] == order;
    }
  }

  /**
   * Target `i` gets its own block of calls, right after the blocks of the
   * targets before it, whatever happened to them: at least one call, at most
   * `MaxBuyCount`, and exactly `Attempts` of them.
   */
  lemma ScheduleBlock(order: seq<Target>, succeeds: nat -> bool, i: nat)
    requires i < |order|
    ensures var start := |Schedule(order[..i], succeeds)|;
            var n := Attempts(succeeds, start, MaxBuyCount);
            && 1 <= n <= MaxBuyCount
            && start + n <= |Schedule(order, succeeds)|
            && Schedule(order, succeeds)[start..start + n] == Repeat(order[i].id, n)
  {
    SchedulePrefix(order, succeeds, i + 1);
    assert order[..i + 1][..i] == order[..i];
  }

  /** Every call buys one of the targets. */
  lemma {:induction false} ScheduleIds(order: seq<Target>, succeeds: nat -> bool, k: nat)
    requires k < |Schedule(order, succeeds)|
    ensures exists i :: 0 <= i < |order| && order[i].id == Schedule(order, succeeds)[k]
    decreases |order|
  {
    var init := order[..|order| - 1];
    var prev := Schedule(init, succeeds);
    if k < |prev| {
      ScheduleIds(init, succeeds, k);
      var i :| 0 <= i < |init| && init[i].id == prev[k];
      assert order[i] == init[i];
    } else {
      assert order[|order| - 1].id == Schedule(order, succeeds)[k];
    }
  }

  /** One more target adds its block of calls at the end. */
  lemma ScheduleSnoc(order: seq<Target>, succeeds: nat -> bool, t: nat)
    requires t < |order|
    ensures var prev := Schedule(order[..t], succeeds);
            Schedule(order[..t + 1], succeeds) == prev + Repeat(order[t].id, Attempts(succeeds, |prev|, MaxBuyCount))
  {
    assert order[..t + 1][..t] == order[..t];
  }

  /** The filtering loop of `autoBuyGifts`: the targets in catalogue order. */
  method CollectTargets(gifts: seq<Item>) returns (targetGifts: seq<Target>)
    ensures targetGifts == Targets(gifts)
  {
    targetGifts := [];
    for i := 0 to |gifts|
      invariant targetGifts == Targets(gifts[..i])
    {
      var gft := gifts[i];
      assert gifts[..i + 1][..i] == gifts[..i];
      if gft.total > 0 && gft.total as int <= MaxTotalCount && gft.remains > 0 {
        targetGifts := targetGifts + [Target(gft.id, gft.canUpgrade, gft.total)];
      }
    }
    assert gifts[..|gifts|] == gifts;
  }

  /**
   * The inner buying loop of `autoBuyGifts` for one target whose first
   * purchase call is call number `start`: up to `MaxBuyCount` calls, stopping
   * after the first failure. Returns the gift ID once per call made.
   */
  method BuyTarget(gift: Target, succeeds: nat -> bool, start: nat) returns (calls: seq<Int64>)
    ensures calls == Repeat(gift.id, Attempts(succeeds, start, MaxBuyCount))
  {
    calls := [];
    for n := 0 to MaxBuyCount
      invariant calls == Repeat(gift.id, n)
      invariant forall call :: start <= call < start + n ==> succeeds(call)
    {
      var ok := succeeds(start + n);
      calls := calls + [gift.id];
      if !ok {
        AttemptsCharacterized(succeeds, start, MaxBuyCount, n + 1);
        return;
      }
    }
    AttemptsCharacterized(succeeds, start, MaxBuyCount, MaxBuyCount);
  }

  /** The outer buying loop of `autoBuyGifts`: every target in turn, in the given order. */
  method BuyEach(order: seq<Target>, succeeds: nat -> bool) returns (trace: seq<Int64>)
    ensures trace == Schedule(order, succeeds)
  {
    trace := [];
    for t := 0 to |order|
      invariant trace == Schedule(order[..t], succeeds)
    {
      ScheduleSnoc(order, succeeds, t);
      var calls := BuyTarget(order[t], succeeds, |trace|);
      trace := trace + calls;
    }
    assert order[..|order|] == order;
  }

  /**
   * `autoBuyGifts`: collect the targets, sort them by total supply and make the
   * purchase calls. `order` is the sorted target list, `trace` the gift ID of
   * every purchase call in the order they were made.
   */
  method AutoBuyGifts(gifts: seq<Item>, succeeds: nat -> bool) returns (order: seq<Target>, trace: seq<Int64>)
    ensures multiset(order) == multiset(Targets(gifts))
    ensures SortedBy(order, TargetTotal)
    ensures forall t :: t in order <==>
              exists i :: 0 <= i < |gifts| && IsTarget(gifts[i]) && t == ToTarget(gifts[i])
    ensures trace == Schedule(order, succeeds)
    ensures trace == [] <==> forall i :: 0 <= i < |gifts| ==> !IsTarget(gifts[i])
  {
    NoTargetsIff(gifts);
    var targetGifts := CollectTargets(gifts);
    if |targetGifts| == 0 {
      return [], [];
    }
    var a := new Target[|targetGifts|](k requires 0 <= k < |targetGifts| => targetGifts[k]);
    assert a[..] == targetGifts;
    SortByKey(a, TargetTotal);
    order := a[..];
    trace := BuyEach(order, succeeds);
    forall t
      ensures t in order <==> exists i :: 0 <= i < |gifts| && IsTarget(gifts[i]) && t == ToTarget(gifts[i])
    {
      assert t in order <==> t in multiset(order);
      assert t in targetGifts <==> t in multiset(targetGifts);
      TargetsMembers(gifts, t);
    }
  }
}
