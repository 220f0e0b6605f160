/** The purchase gate of src/components/ShopSidebar.tsx: the set of items ever bought, the time of
    each item's last purchase, the five-minute cooldown, and the per-second countdown map. */
module ShopSidebar {
  import opened Wrappers
  import opened ShopCatalog

  /** Five minutes, in milliseconds. */
  const CooldownMs: int := 5 * 60 * 1000

  /** The `purchasedItems` and `purchaseTimes` state cells. */
  datatype ShopState = ShopState(purchasedItems: set<string>, purchaseTimes: map<string, int>)

  /** `purchaseTimes[itemId]` is truthy: present and not 0 (JavaScript treats a time of 0 as false). */
  predicate HasPurchaseTime(s: ShopState, id: string)
  {
    id in s.purchaseTimes && s.purchaseTimes[id] != 0
  }

  /** `isItemAvailable`: never bought, or bought at a recorded time at least five minutes before `now`. */
  predicate IsItemAvailable(s: ShopState, id: string, now: int)
  {
    if id !in s.purchasedItems then true
    else if !HasPurchaseTime(s, id) then false
    else now - s.purchaseTimes[id] >= CooldownMs
  }

  /** `Math.ceil(ms / 1000)` for a whole number of milliseconds. */
  function CeilSeconds(ms: int): (secs: int)
    ensures (secs - 1) * 1000 < ms <= secs * 1000
  {
    -((-ms) / 1000)
  }

  /** `getTimeUntilAvailable`: whole seconds, rounded up, until the cooldown ends; 0 when there is
      no cooldown to wait for. */
  function TimeUntilAvailable(s: ShopState, id: string, now: int): (secs: nat)
    ensures id !in s.purchasedItems ==> secs == 0
    ensures id in s.purchasedItems && !HasPurchaseTime(s, id) ==> secs == 0
    ensures id in s.purchasedItems && HasPurchaseTime(s, id) ==>
      var remaining := CooldownMs - (now - s.purchaseTimes[id]);
      && (secs == 0 <==> IsItemAvailable(s, id, now))
      && (secs > 0 ==> (secs - 1) * 1000 < remaining <= secs * 1000)
      && (now >= s.purchaseTimes[id] ==> secs <= CooldownMs / 1000)
  {
    if id !in s.purchasedItems then 0
    else if !HasPurchaseTime(s, id) then 0
    else
      var elapsed := now - s.purchaseTimes[id];
      var remaining := CooldownMs - elapsed;
      var secs := CeilSeconds(remaining);
      if secs > 0 then secs else 0
  }

  /** The outcome of a buy click: the new state, and the price reported to `onPurchase`, if any. */
  datatype Outcome = Outcome(state: ShopState, charged: Option<nat>)

  /** `handlePurchase`: an affordable item that is available at `now` is bought; otherwise nothing
      changes. The code reads the clock twice: `now` is the reading inside `isItemAvailable`, and
      `stamp` the later one that the `setPurchaseTimes` updater records. */
  function Purchase(s: ShopState, item: ShopItem, earnedBP: int, now: int, stamp: int): (o: Outcome)
    ensures o.charged.Some? <==> earnedBP >= item.price && IsItemAvailable(s, item.id, now)
    ensures o.charged.Some? ==> o.charged.value == item.price
    ensures o.charged.Some? ==>
      && o.state.purchasedItems == s.purchasedItems + {item.id}
      && o.state.purchaseTimes == s.purchaseTimes[item.id := stamp]
    ensures o.charged.None? ==> o.state == s
  {
    if earnedBP >= item.price && IsItemAvailable(s, item.id, now) then
      Outcome(ShopState(s.purchasedItems + {item.id}, s.purchaseTimes[item.id := stamp]), Some(item.price))
    else
      Outcome(s, None)
  }

  /** An item never bought is available at any time and shows no countdown. */
  lemma NeverPurchasedIsAvailable(s: ShopState, id: string, now: int)
    requires id !in s.purchasedItems
    ensures IsItemAvailable(s, id, now) && TimeUntilAvailable(s, id, now) == 0
  {
  }

  /** A bought item without a recorded time is never available, yet shows no countdown. */
  lemma PurchasedWithoutTimeIsLocked(s: ShopState, id: string, now: int)
    requires id in s.purchasedItems && !HasPurchaseTime(s, id)
    ensures !IsItemAvailable(s, id, now) && TimeUntilAvailable(s, id, now) == 0
  {
  }

  /** Buying never forgets a purchase, and touches no other item's record. */
  lemma PurchaseOnlyGrows(s: ShopState, item: ShopItem, earnedBP: int, now: int, stamp: int, other: string)
    requires other != item.id
    ensures s.purchasedItems <= Purchase(s, item, earnedBP, now, stamp).state.purchasedItems
    ensures other in Purchase(s, item, earnedBP, now, stamp).state.purchasedItems <==> other in s.purchasedItems
    ensures other in s.purchaseTimes ==>
      other in Purchase(s, item, earnedBP, now, stamp).state.purchaseTimes
      && Purchase(s, item, earnedBP, now, stamp).state.purchaseTimes[other] == s.purchaseTimes[other]
  {
  }

  /** After a purchase stamped at `stamp`, any attempt before the cooldown counted from the stamp
      ends is refused, however much balance there is. */
  lemma CooldownRejectsEarlyRetry(s: ShopState, item: ShopItem, earnedBP: int, now: int, stamp: int,
                                  earnedLater: int, later: int, stampLater: int)
    requires Purchase(s, item, earnedBP, now, stamp).charged.Some?
    requires later < stamp + CooldownMs
    ensures Purchase(Purchase(s, item, earnedBP, now, stamp).state, item, earnedLater, later, stampLater).charged.None?
  {
  }

  /** After a purchase stamped at a non-zero time, an affordable attempt once the cooldown counted
      from the stamp has ended succeeds again and re-arms the timer with its own stamp. */
  lemma CooldownAllowsLaterRetry(s: ShopState, item: ShopItem, earnedBP: int, now: int, stamp: int,
                                 earnedLater: int, later: int, stampLater: int)
    requires Purchase(s, item, earnedBP, now, stamp).charged.Some?
    requires stamp != 0 && later >= stamp + CooldownMs && earnedLater >= item.price
    ensures var o := Purchase(Purchase(s, item, earnedBP, now, stamp).state, item, earnedLater, later, stampLater);
      o.charged == Some(item.price) && o.state.purchaseTimes[item.id] == stampLater
  {
  }

  /** The cooldown runs from the stamp, not from the availability check: when the stamp is taken
      after the check, a retry exactly five minutes after the check is still refused. */
  lemma LateStampDelaysRetry(s: ShopState, item: ShopItem, earnedBP: int, now: int, stamp: int,
                             earnedLater: int, stampLater: int)
    requires Purchase(s, item, earnedBP, now, stamp).charged.Some?
    requires stamp > now
    ensures Purchase(Purchase(s, item, earnedBP, now, stamp).state, item, earnedLater, now + CooldownMs, stampLater).charged.None?
  {
  }

  /** `id` is the id of one of the first `n` catalog items. */
  predicate InCatalogPrefix(id: string, n: nat)
    requires n <= |ShopItems|
  {
    exists j :: 0 <= j < n && ShopItems[j].id == id
  }

  /** The interval callback: for each catalog item that has been bought, its remaining seconds.
      Each `getTimeUntilAvailable` call reads the clock again, so `nows[j]` is the reading taken
      for the `j`-th catalog item. */
  method TimeRemaining(s: ShopState, nows: seq<int>) returns (m: map<string, nat>)
    requires |nows| == |ShopItems|
    ensures forall id :: id in m <==> id in s.purchasedItems && InCatalogPrefix(id, |ShopItems|)
    ensures forall j :: 0 <= j < |ShopItems| && ShopItems[j].id in s.purchasedItems ==>
      ShopItems[j].id in m && m[ShopItems[j].id] == TimeUntilAvailable(s, ShopItems[j].id, nows[j])
  {
    CatalogIdsDistinct();
    m := map[];
    var i := 0;
    while i < |ShopItems|
      invariant 0 <= i <= |ShopItems|
      invariant forall id :: id in m <==> id in s.purchasedItems && InCatalogPrefix(id, i)
      invariant forall j :: 0 <= j < i && ShopItems[j].id in s.purchasedItems ==>
        ShopItems[j].id in m && m[ShopItems[j].id] == TimeUntilAvailable(s, ShopItems[j].id, nows[j])
    {
      var item := ShopItems[i];
      if item.id in s.purchasedItems {
        m := m[item.id := TimeUntilAvailable(s, item.id, nows[i])];
      }
      i := i + 1;
    }
  }

  /** `timeRemaining[item.id] || 0`: the countdown shown for an item. */
  function TimeLeft(timeRemaining: map<string, nat>, id: string): (secs: nat)
    ensures id in timeRemaining ==> secs == timeRemaining[id]
    ensures id !in timeRemaining ==> secs == 0
  {
    if id in timeRemaining then timeRemaining[id] else 0
  }

  /** The minutes and seconds of the `m:ss` countdown. */
  function TimerParts(timeLeft: nat): (r: (nat, nat))
    ensures r.0 * 60 + r.1 == timeLeft && r.1 < 60
  {
    (timeLeft / 60, timeLeft % 60)
  }

  /** A countdown started no later than `now` shows at most five minutes. */
  lemma TimerAtMostFiveMinutes(s: ShopState, id: string, now: int)
    requires id in s.purchasedItems && HasPurchaseTime(s, id) && now >= s.purchaseTimes[id]
    ensures TimerParts(TimeUntilAvailable(s, id, now)).0 <= 5
  {
  }

  /** The component's state cells. */
  class Shop {
    var purchasedItems: set<string>
    var purchaseTimes: map<string, int>
    var timeRemaining: map<string, nat>

    function State(): ShopState
      reads this
    {
      ShopState(purchasedItems, purchaseTimes)
    }

    constructor (purchasedItems: set<string>, purchaseTimes: map<string, int>)
      ensures State() == ShopState(purchasedItems, purchaseTimes)
      ensures timeRemaining == map[]
    {
      this.purchasedItems := purchasedItems;
      this.purchaseTimes := purchaseTimes;
      this.timeRemaining := map[];
    }

    /** `handlePurchase`, returning the price it reports to `onPurchase`. `now` is the clock
        reading of the availability check, `stamp` the one recorded as the purchase time. */
    method HandlePurchase(item: ShopItem, earnedBP: int, now: int, stamp: int) returns (charged: Option<nat>)
      modifies this
      ensures State() == Purchase(old(State()), item, earnedBP, now, stamp).state
      ensures charged == Purchase(old(State()), item, earnedBP, now, stamp).charged
      ensures old(purchasedItems) <= purchasedItems
      ensures timeRemaining == old(timeRemaining)
    {
      var o := Purchase(State(), item, earnedBP, now, stamp);
      purchasedItems := o.state.purchasedItems;
      purchaseTimes := o.state.purchaseTimes;
      charged := o.charged;
    }

    /** One tick of the one-second interval: the countdown map is rebuilt, and the countdown shown
        for every catalog item is its remaining cooldown at the reading taken for it. */
    method Tick(nows: seq<int>)
      requires |nows| == |ShopItems|
      modifies this`timeRemaining
      ensures forall id :: id in timeRemaining <==> id in purchasedItems && InCatalogPrefix(id, |ShopItems|)
      ensures forall j :: 0 <= j < |ShopItems| ==>
        TimeLeft(timeRemaining, ShopItems[j].id) == TimeUntilAvailable(State(), ShopItems[j].id, nows[j])
    {
      timeRemaining := TimeRemaining(State(), nows);
      forall j | 0 <= j < |ShopItems|
        ensures TimeLeft(timeRemaining, ShopItems[j].id) == TimeUntilAvailable(State(), ShopItems[j].id, nows[j])
      {
        assert InCatalogPrefix(ShopItems[j].id, |ShopItems|);
      }
    }
  }
}
