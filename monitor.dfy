/**
 * The polling loop of `main`: per iteration, bump the activity counter, fetch
 * the catalogue with the stored hash, and on a changed catalogue print the
 * start-up summary once, run the auto-buyer, record the gift IDs seen and
 * decide whether to notify the operator and advance the stored hash.
 *
 * `Next` and `Run` state the loop on values; `Poller.Step` is the iteration on
 * mutable state and is proved to follow `Next`.
 */
module Monitor {
  import opened Gifts
  import opened Sorting
  import opened AutoBuy
  import opened Summary
  import opened Format

  /** The answer to `PaymentsGetStarGifts`: an error, "not modified", a new catalogue with its hash, or a reply of any other type. */
  datatype FetchOutcome = FetchError | NotModified | Changed(hash: Int32, gifts: seq<Item>) | Unexpected

  /** What the loop remembers between iterations. */
  datatype LoopState = LoopState(known: set<Int64>, hash: Int32, counter: Int64, summaryPrinted: bool)

  /** Process start: nothing known, hash 0, counter 0, summary not yet printed. */
  const Start: LoopState := LoopState({}, 0, 0, false)

  /** What one iteration receives from outside: the fetch answer, whether a notification send succeeds, and the clock reading. */
  datatype Tick = Tick(outcome: FetchOutcome, sendOk: bool, timestamp: string)

  function Ids(gifts: seq<Item>): set<Int64> {
    set i | 0 <= i < |gifts| :: gifts[i].id
  }

  /** Some gift of the reply has an ID the loop has not seen before. */
  predicate HasNew(known: set<Int64>, gifts: seq<Item>) {
    exists i :: 0 <= i < |gifts| && gifts[i].id !in known
  }

  /** Only IDs decide newness: a reply is new exactly when its ID set is not already known. */
  lemma HasNewIffUnseenId(known: set<Int64>, gifts: seq<Item>)
    ensures HasNew(known, gifts) <==> !(Ids(gifts) <= known)
  {
    if !(Ids(gifts) <= known) {
      var x :| x in Ids(gifts) && x !in known;
      var i :| 0 <= i < |gifts| && gifts[i].id == x;
    }
  }

  /** The iteration hands a message to the send call. */
  predicate Notifies(s: LoopState, t: Tick) {
    t.outcome.Changed? && HasNew(s.known, t.outcome.gifts) && MessageOf(t.outcome.gifts, t.timestamp) != ""
  }

  /** The iteration prints the start-up summary. */
  predicate SummaryFires(s: LoopState, t: Tick) {
    t.outcome.Changed? && !s.summaryPrinted
  }

  /** The state after one iteration. */
  function Next(s: LoopState, t: Tick): (r: LoopState)
    ensures r.counter == Inc64(s.counter)
    ensures s.known <= r.known
    ensures !t.outcome.Changed? ==> r.known == s.known && r.hash == s.hash && r.summaryPrinted == s.summaryPrinted
    ensures t.outcome.Changed? ==> r.known == s.known + Ids(t.outcome.gifts) && r.summaryPrinted
    ensures r.hash == if t.outcome.Changed? &&
                         (!HasNew(s.known, t.outcome.gifts) ||
                          (t.sendOk && exists i :: 0 <= i < |t.outcome.gifts| && t.outcome.gifts[i].remains != 0))
                      then t.outcome.hash else s.hash
  {
    var counter := Inc64(s.counter);
    match t.outcome
    case Changed(hash, gifts) =>
      MessageEmpty(gifts, t.timestamp);
      var advance := !HasNew(s.known, gifts) || (MessageOf(gifts, t.timestamp) != "" && t.sendOk);
      LoopState(s.known + Ids(gifts), if advance then hash else s.hash, counter, true)
    case _ => s.(counter := counter)
  }

  /**
   * A failed send keeps the old hash, but the new IDs are already recorded: when
   * the same catalogue comes back, nothing is new any more, so no message is
   * sent and the hash advances. The notification is never retried.
   */
  lemma FailedSendNotRetried(s: LoopState, hash: Int32, gifts: seq<Item>, t1: string, t2: string, ok2: bool)
    requires HasNew(s.known, gifts)
    requires exists i :: 0 <= i < |gifts| && gifts[i].remains != 0
    ensures var s1 := Next(s, Tick(Changed(hash, gifts), false, t1));
            var again := Tick(Changed(hash, gifts), ok2, t2);
            && Notifies(s, Tick(Changed(hash, gifts), false, t1))
            && s1.hash == s.hash
            && !Notifies(s1, again)
            && Next(s1, again).hash == hash
  {
    var s1 := Next(s, Tick(Changed(hash, gifts), false, t1));
    MessageEmpty(gifts, t1);
    HasNewIffUnseenId(s1.known, gifts);
  }

  /** The state after a run of iterations. */
  function Run(s: LoopState, ticks: seq<Tick>): LoopState
    decreases |ticks|
  {
    if ticks == [] then s else Run(Next(s, ticks[0]), ticks[1..])
  }

  /** Every gift ID carried by a changed catalogue of the run. */
  function SeenIds(ticks: seq<Tick>): set<Int64>
    decreases |ticks|
  {
    if ticks == [] then {}
    else (if ticks[0].outcome.Changed? then Ids(ticks[0].outcome.gifts) else {}) + SeenIds(ticks[1..])
  }

  /** The known IDs only grow: after a run they are the IDs known before plus every ID of every changed catalogue. */
  lemma {:induction false} RunKnown(s: LoopState, ticks: seq<Tick>)
    ensures Run(s, ticks).known == s.known + SeenIds(ticks)
    decreases |ticks|
  {
    if ticks != [] {
      RunKnown(Next(s, ticks[0]), ticks[1..]);
    }
  }

  /** After a run the summary flag is set exactly when it was set before or some catalogue changed. */
  lemma {:induction false} RunPrinted(s: LoopState, ticks: seq<Tick>)
    ensures Run(s, ticks).summaryPrinted <==>
            s.summaryPrinted || exists k :: 0 <= k < |ticks| && ticks[k].outcome.Changed?
    decreases |ticks|
  {
    if ticks != [] {
      RunPrinted(Next(s, ticks[0]), ticks[1..]);
      if exists k :: 0 <= k < |ticks| && ticks[k].outcome.Changed? {
        var k :| 0 <= k < |ticks| && ticks[k].outcome.Changed?;
        if k > 0 {
          assert ticks[1..][k - 1].outcome.Changed?;
        }
      }
      if exists k :: 0 <= k < |ticks[1..]| && ticks[1..][k].outcome.Changed? {
        var k :| 0 <= k < |ticks[1..]| && ticks[1..][k].outcome.Changed?;
        assert ticks[k + 1].outcome.Changed?;
      }
    }
  }

  /** How many iterations of a run print the start-up summary. */
  function SummaryCount(s: LoopState, ticks: seq<Tick>): nat
    decreases |ticks|
  {
    if ticks == [] then 0
    else (if SummaryFires(s, ticks[0]) then 1 else 0) + SummaryCount(Next(s, ticks[0]), ticks[1..])
  }

  /** The summary is printed at most once: once if it was not printed yet and some catalogue changes, never otherwise. */
  lemma {:induction false} SummaryAtMostOnce(s: LoopState, ticks: seq<Tick>)
    ensures SummaryCount(s, ticks) ==
            if !s.summaryPrinted && exists k :: 0 <= k < |ticks| && ticks[k].outcome.Changed? then 1 else 0
    decreases |ticks|
  {
    if ticks != [] {
      SummaryAtMostOnce(Next(s, ticks[0]), ticks[1..]);
      if exists k :: 0 <= k < |ticks| && ticks[k].outcome.Changed? {
        var k :| 0 <= k < |ticks| && ticks[k].outcome.Changed?;
        if k > 0 {
          assert ticks[1..][k - 1].outcome.Changed?;
        }
      }
      if exists k :: 0 <= k < |ticks[1..]| && ticks[1..][k].outcome.Changed? {
        var k :| 0 <= k < |ticks[1..]| && ticks[1..][k].outcome.Changed?;
        assert ticks[k + 1].outcome.Changed?;
      }
    }
  }

  /** The summary is printed at iteration `k` exactly when that is the first changed catalogue of a run that starts unprinted. */
  lemma SummaryAtFirstChange(s: LoopState, ticks: seq<Tick>, k: nat)
    requires k < |ticks|
    ensures SummaryFires(Run(s, ticks[..k]), ticks[k]) <==>
            !s.summaryPrinted && ticks[k].outcome.Changed? &&
            forall j :: 0 <= j < k ==> !ticks[j].outcome.Changed?
  {
    RunPrinted(s, ticks[..k]);
    assert forall j :: 0 <= j < k ==> ticks[..k][j] == ticks[j];
  }

  /** The counter after a run: one more per iteration, with int64 wrap-around. */
  lemma {:induction false} RunCounter(s: LoopState, ticks: seq<Tick>)
    ensures Run(s, ticks).counter == Wrap64(s.counter as int + |ticks|)
    decreases |ticks|
  {
    if ticks != [] {
      var s' := Next(s, ticks[0]);
      RunCounter(s', ticks[1..]);
      var c := s.counter as int;
      var n := |ticks|;
      if c == 0x7fff_ffff_ffff_ffff {
        assert s'.counter as int == c + 1 - Two64;
        assert (c + 1 - Two64 + (n - 1) + 0x8000_0000_0000_0000) % Two64 == (c + n + 0x8000_0000_0000_0000) % Two64;
      }
    }
  }

  /** `crashWatcher`'s test: the process is killed when the counter did not move since the previous sample. */
  predicate WatchdogFatal(lastCount: Int64, currentCount: Int64) {
    currentCount == lastCount
  }

  /** Between two samples, any number of iterations short of a full 2^64 wrap keeps the watchdog quiet. */
  lemma WatchdogQuiet(s: LoopState, ticks: seq<Tick>)
    requires 0 < |ticks| < Two64
    ensures !WatchdogFatal(s.counter, Run(s, ticks).counter)
  {
    RunCounter(s, ticks);
    var c := s.counter as int;
    var n := |ticks|;
    assert (-n) % Two64 != 0;
  }

  /** What an iteration did besides changing the loop state. */
  datatype StepReport = StepReport(
    summary: Option<seq<GiftInfo>>,  // the start-up summary, when printed
    buyOrder: seq<Target>,           // the auto-buy targets, in the order tried
    purchases: seq<Int64>,           // the gift ID of every purchase call
    notification: Option<string>)    // the message handed to the send call

  /** The loop's mutable state: the globals `knownGifts`, `activityCounter`, the `sync.Once` flag, and `previousHash`. */
  class Poller {
    var knownGifts: map<Int64, bool>
    var previousHash: Int32
    var activityCounter: Int64
    var summaryPrinted: bool

    function State(): LoopState
      reads this
    {
      LoopState(knownGifts.Keys, previousHash, activityCounter, summaryPrinted)
    }

    constructor ()
      ensures State() == Start
    {
      knownGifts := map[];
      previousHash := 0;
      activityCounter := 0;
      summaryPrinted := false;
    }

    /**
     * The scan of the reply: every ID not yet in `knownGifts` is added, and
     * `newExist` reports whether there was any.
     */
    method RecordIds(gifts: seq<Item>) returns (newExist: bool)
      modifies this
      ensures knownGifts.Keys == old(knownGifts.Keys) + Ids(gifts)
      ensures newExist == HasNew(old(knownGifts.Keys), gifts)
      ensures previousHash == old(previousHash) && activityCounter == old(activityCounter)
      ensures summaryPrinted == old(summaryPrinted)
    {
      ghost var known0 := knownGifts.Keys;
      newExist := false;
      for i := 0 to |gifts|
        invariant knownGifts.Keys == known0 + Ids(gifts[..i])
        invariant newExist <==> HasNew(known0, gifts[..i])
        invariant previousHash == old(previousHash) && activityCounter == old(activityCounter)
        invariant summaryPrinted == old(summaryPrinted)
      {
        assert Ids(gifts[..i + 1]) == Ids(gifts[..i]) + {gifts[i].id} by {
          assert forall j :: 0 <= j < i ==> gifts[..i + 1][j] == gifts[..i][j];
          assert gifts[..i + 1][i] == gifts[i];
        }
        assert HasNew(known0, gifts[..i + 1]) <==> HasNew(known0, gifts[..i]) || gifts[i].id !in known0 by {
          assert forall j :: 0 <= j < i ==> gifts[..i + 1][j] == gifts[..i][j];
          assert gifts[..i + 1][i] == gifts[i];
        }
        if gifts[i].id in knownGifts {
          continue;
        }
        newExist := true;
        knownGifts := knownGifts[gifts[i].id := true];
      }
      assert gifts[..|gifts|] == gifts;
    }

    /**
     * The work done on a changed catalogue: the summary on the first change,
     * the purchases, the ID scan, then the notification and the hash update.
     */
    method HandleChanged(currentHash: Int32, gifts: seq<Item>, sendOk: bool, timestamp: string, succeeds: nat -> bool)
      returns (report: StepReport)
      modifies this
      ensures knownGifts.Keys == old(knownGifts.Keys) + Ids(gifts) && summaryPrinted
      ensures activityCounter == old(activityCounter)
      ensures previousHash ==
                if !HasNew(old(knownGifts.Keys), gifts) || (MessageOf(gifts, timestamp) != "" && sendOk)
                then currentHash else old(previousHash)
      ensures (report.summary.Some? <==> !old(summaryPrinted))
      ensures report.summary.Some? ==>
                multiset(report.summary.value) == multiset(LimitedInfos(gifts)) &&
                SortedBy(report.summary.value, InfoTotal)
      ensures multiset(report.buyOrder) == multiset(Targets(gifts))
      ensures SortedBy(report.buyOrder, TargetTotal)
      ensures report.purchases == Schedule(report.buyOrder, succeeds)
      ensures report.notification ==
                if HasNew(old(knownGifts.Keys), gifts) && MessageOf(gifts, timestamp) != ""
                then Some(MessageOf(gifts, timestamp)) else None
    {
      var summary := None;
      if !summaryPrinted {
        summaryPrinted := true;
        var limited := LimitedGiftsInfo(gifts);
        summary := Some(limited);
      }

      var order, trace := AutoBuyGifts(gifts, succeeds);
      report := StepReport(summary, order, trace, None);

      var newExist := RecordIds(gifts);

      if !newExist {
        previousHash := currentHash;
        return;
      }

      var message := FormatGiftUpdateMessage(gifts, timestamp);
      if message == "" {
        return;
      }
      report := report.(notification := Some(message));
      if !sendOk {
        return;
      }
      previousHash := currentHash;
    }

    /**
     * One iteration of the loop. `fetch` answers the catalogue request for a
     * given hash, `sendOk` is the outcome of the notification send, and
     * `succeeds` the outcome of each purchase call.
     */
    method Step(fetch: Int32 -> FetchOutcome, sendOk: bool, timestamp: string, succeeds: nat -> bool)
      returns (report: StepReport)
      modifies this
      ensures State() == Next(old(State()), Tick(fetch(old(previousHash)), sendOk, timestamp))
      ensures var outcome := fetch(old(previousHash));
              && (report.summary.Some? <==> SummaryFires(old(State()), Tick(outcome, sendOk, timestamp)))
              && (report.summary.Some? ==>
                    multiset(report.summary.value) == multiset(LimitedInfos(outcome.gifts)) &&
                    SortedBy(report.summary.value, InfoTotal))
              && (outcome.Changed? ==>
                    multiset(report.buyOrder) == multiset(Targets(outcome.gifts)) &&
                    SortedBy(report.buyOrder, TargetTotal) &&
                    report.purchases == Schedule(report.buyOrder, succeeds))
              && (!outcome.Changed? ==> report.buyOrder == [] && report.purchases == [])
              && report.notification ==
                   if Notifies(old(State()), Tick(outcome, sendOk, timestamp))
                   then Some(MessageOf(outcome.gifts, timestamp)) else None
    {
      activityCounter := Inc64(activityCounter);
      report := StepReport(None, [], [], None);
      var availGifts := fetch(previousHash);
      match availGifts {
        case FetchError =>
          return;
        case NotModified =>
        case Unexpected =>
        case Changed(currentHash, gifts) =>
          report := HandleChanged(currentHash, gifts, sendOk, timestamp, succeeds);
      }
    }
  }
}
