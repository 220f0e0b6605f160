# Tracker-BP: the progress and rewards engine

A model in Dafny of the logic inside the Tracker-BP web application, a tracker of recurring
and one-off missions that earn a virtual currency (BP) spendable in a small shop. Three pieces
of sequential logic are modelled and proved:

- **The task ledger** (`src/App.tsx`). Each click handler (toggle complete, increment,
  decrement, toggle visibility) is a pure per-task function (module `Tasks`) that the
  application applies with `map` to every task carrying the clicked id (`App.UpdateWhere`). The
  daily reset maps its own per-task function over every task (`App.ResetAll`). The
  `tasks`, `initialBP` and `spentBP` state cells are the fields of the class `App.Ledger`, whose
  methods replace them. `App.EarnedBP` is `calculateEarnedBP`. It adds a task's
  `baseBP` when the task is a ticked, rewarded one-shot task, or when its count has reached
  `Threshold(maxCompletions)` (the cap, at most 5) and its reward flag `bpAwarded` is set.
  `Ledger.Balance` is `totalBP = initialBP + earned - spentBP`.
  The central invariant (`Tasks.Invariant`) has two parts. First, the count stays in
  `[0, maxCompletions]`. Second, a set `bpAwarded` is backed by progress: the threshold is met,
  or a one-shot task is ticked. Every handler preserves it. Under it, the earned total is exactly the
  sum of `baseBP` over the rewarded tasks (`App.EarnedIsAwardedSum`), so a reward is counted once.
  The load-time migration (`App.LoadTasks`) is modelled as well. Loaded values are taken as
  inputs, and `initialTasks` (the default catalog) is a parameter.
- **The shop's purchase gate** (`src/components/ShopSidebar.tsx`, with the catalog of
  `src/data/shopItems.ts`). The state is the set of item ids ever bought and a map from id to
  the time of the last purchase in milliseconds. An item is available when it was never bought,
  or when its last purchase is at least 300000 ms old. The countdown is shown in whole seconds,
  rounded up. A purchase needs the balance to cover the price and the item to be available. It
  then reports the price, records the id and stamps the time. The clock readings are parameters.
- **The daily reset predicate** (`src/utils/resetUtils.ts`). It is modelled over the string the
  Kyiv-time formatter produces. The date is the text before the first `", "`. The hour is the
  number parsed from the text before the first `":"` of the next piece. A reset is due when a
  non-empty marker is stored, the date differs from it, and the hour is 7 or more. Every failure
  yields no reset. `ResetStore.MarkResetDone` stores the date.

Modules: `Wrappers` (Option), `Lists` (`map`), `Tasks`, `App`, `ShopCatalog`, `ShopSidebar`,
`ResetUtils`.

Behaviour of the code that the model keeps as written:

- The multiplier flags are state only. The code never applies a multiplier or any rounding to
  `totalBP`, so neither is modelled.
- A rejected purchase is a no-op: `ShopSidebar.Purchase` returns no charge and the same state.
  No rejection reason is reported.
- `isItemAvailable` and `getTimeUntilAvailable` test `!purchaseTime`, which is also true for a
  stored time of 0. A purchase stamped at 0 is debited like any other, but the item can then never
  be bought again, while any other stamp allows a repurchase after five minutes.
  `ShopSidebar.HasPurchaseTime` models this, and `CooldownAllowsLaterRetry` requires a non-zero stamp.
- An increment of a task whose count already meets the threshold, but whose `bpAwarded` is
  false, grants the reward. Such a task can come from older stored data, where the flag defaults
  to false, and it still satisfies `Tasks.Invariant`, which constrains only a set flag. The rule
  stated in the comment above `calculateEarnedBP`, that repetitions past the 5th add nothing,
  therefore holds for tasks whose reward is already granted (`Tasks.IncrementPastThreshold`), and
  for tasks within a daily cycle: `Tasks.AwardKept` (a task at its threshold has its flag) is
  started by the reset (`Tasks.ResetTaskStartsCycle`), kept by every handler
  (`Tasks.HandlersKeepAwardKept`), and under it an increment past the threshold adds nothing
  (`Tasks.IncrementPastThresholdInCycle`).
- The only write of the `lastResetDate` marker is in `markResetDone`, which `checkReset` calls
  only after `shouldReset` reported a reset, and `shouldReset` is false without a marker. A fresh
  installation therefore never gets a marker and never resets (`ResetUtils.ResetStore.FreshStoreNeverResets`,
  and `App.Ledger.CheckReset` leaves both the tasks and the missing marker as they were).
- `checkReset` reads the clock twice, once in `shouldReset` and once in `markResetDone`.
  `Ledger.CheckReset` takes both readings.
- `handlePurchase` also reads the clock twice: `isItemAvailable` reads it for the check, and the
  `setPurchaseTimes` updater reads it again, later, for the stamp. `ShopSidebar.Purchase` takes
  both readings (`now` and `stamp`), and the cooldown lemmas count five minutes from the stamp.
  `ShopSidebar.LateStampDelaysRetry` shows that a retry exactly five minutes after the check is
  refused when the stamp came later.

## Model

| member | source | states |
|---|---|---|
| Tasks.Threshold | src/App.tsx:122 | the reward threshold is the smaller of `maxCompletions` and 5 |
| Tasks.ToggleComplete | src/App.tsx:137-166 | only `completed` and `bpAwarded` change; at or above the cap `completed` becomes true, below it flips; `bpAwarded` follows the new `completed` for one-shot tasks and is untouched otherwise |
| Tasks.Increment | src/App.tsx:168-191 | only count, `completed` and `bpAwarded` change; the count becomes `min(current+1, max)`; `completed` becomes true once the cap is reached; `bpAwarded` is kept and is set once the threshold is reached |
| Tasks.Decrement | src/App.tsx:193-212 | only count, `completed` and `bpAwarded` change; the count becomes `max(current-1, 0)`; `completed` is forced false below the cap; `bpAwarded` is kept exactly while the new count meets the threshold, so it is never set |
| Tasks.Earns | src/App.tsx:117-126 | the reduce's test for adding `baseBP`: both branches demand `bpAwarded`, so no task earns without it |
| Tasks.Contribution | src/App.tsx:117-128 | a task adds its whole `baseBP` or nothing, and nothing without its reward flag |
| Tasks.ToggleVisibility | src/App.tsx:218 | only `visible` changes, and it flips |
| Tasks.ResetTask | src/App.tsx:65-70 | count, `completed` and `bpAwarded` are cleared and every other field is kept |
| Tasks.EarnsIffAwarded | src/App.tsx:114-129 | for a task whose reward is backed by progress, the code's two-branch earning test holds exactly when `bpAwarded` is set |
| Tasks.ToggleCompletePreservesInvariant | src/App.tsx:137-166 | toggling keeps the count in range and every granted reward backed |
| Tasks.IncrementPreservesInvariant | src/App.tsx:172-185 | incrementing keeps the count in `[0, max]`, keeps rewards backed and never clears `bpAwarded` |
| Tasks.DecrementPreservesInvariant | src/App.tsx:197-206 | decrementing keeps the count in range and rewards backed, and never sets `bpAwarded` |
| Tasks.IncrementPastThreshold | src/App.tsx:178-185 | once a backed reward is granted, an increment keeps the flag and the task's contribution (`baseBP`) unchanged |
| Tasks.ResetTaskStartsCycle | src/App.tsx:65-70 | after the daily reset a task satisfies the cycle rule: at its threshold its reward is granted |
| Tasks.HandlersKeepAwardKept | src/App.tsx:137-223 | toggling, incrementing, decrementing and hiding keep the cycle rule of a task that satisfies the invariant |
| Tasks.IncrementPastThresholdInCycle | src/App.tsx:112-129 | within a cycle, incrementing a task already at its threshold keeps the flag and leaves its contribution at `baseBP` |
| Tasks.IncrementReachingThresholdGrants | src/App.tsx:178-185 | the increment that reaches the threshold grants the reward: contribution goes from 0 to `baseBP` |
| Tasks.DecrementAtThresholdRevokes | src/App.tsx:197-206 | a decrement at or below the threshold of a rewarded task revokes it: contribution goes from `baseBP` to 0 |
| Tasks.OneShotToggle | src/App.tsx:152-161 | below its cap a one-shot task flips `completed` on toggle, `bpAwarded` follows, and it contributes `baseBP` exactly when turned on |
| Tasks.OneShotScenario | src/App.tsx:152-161 | a fresh one-shot task worth 20 contributes 20, then 0, then 20 across on, off, on |
| Tasks.ToggleVisibilityProperties | src/App.tsx:218 | visibility is a flipped flag: twice is the identity, the id is kept, the contribution and the invariant are unaffected |
| Tasks.ResetTaskProperties | src/App.tsx:65-70 | the reset of one task is idempotent, earns nothing and restores the invariant |
| App.UpdateWhere | src/App.tsx:139-164 | the handlers' `map`: same length, every task with the id transformed, every other task unchanged |
| App.ResetAll | src/App.tsx:64-71 | the reset maps every task through the per-task reset, keeping the order and length |
| App.VisibleTasks | src/App.tsx:135 | the visible list holds exactly the visible tasks of the list and is no longer than it |
| App.VisibleTasksConcat | src/App.tsx:135 | the visible list preserves order: filtering a concatenation filters each part |
| App.EarnedBP | src/App.tsx:114-129 | definition of `calculateEarnedBP` as a left fold, without a contract of its own; its properties are `App.EarnedIsAwardedSum`, `App.EarnedPointwise`, `App.EarnedNoAwards`, `App.EarnedSameContributions` and `App.EarnedAfterUpdate` |
| App.EarnedPointwise | src/App.tsx:114-129 | two lists differing at one position earn amounts differing by that task's change in contribution |
| App.EarnedIsAwardedSum | src/App.tsx:114-129 | when every reward is backed, the earned total is the sum of `baseBP` over tasks with `bpAwarded` |
| App.EarnedNoAwards | src/App.tsx:114-129 | a list without any granted reward earns 0 |
| App.EarnedSameContributions | src/App.tsx:114-129 | lists whose tasks contribute pairwise the same earn the same |
| App.EarnedAfterUpdate | src/App.tsx:114-132 | a handler applied to a uniquely named task moves the earned total by that task's change in contribution |
| App.UpdatePreservesInvariant | src/App.tsx:139-164 | a handler that keeps each task's invariant keeps the whole list's invariant |
| App.IncrementPastThresholdEarnsNothing | src/App.tsx:178-185 | incrementing a rewarded, uniquely named task leaves the earned total unchanged |
| App.DecrementRevokesReward | src/App.tsx:197-206 | decrementing a rewarded, uniquely named task at the threshold lowers the earned total by exactly its `baseBP` |
| App.ToggleVisibilityList | src/App.tsx:214-223 | toggling visibility leaves the earned total unchanged, and toggling twice restores the list |
| App.ResetAllProperties | src/App.tsx:64-71 | the reset zeroes count, `completed` and `bpAwarded` and keeps every other field; it is idempotent and leaves earned BP 0 |
| App.Migrate | src/App.tsx:25-29 | a loaded task keeps every stored field; a missing `visible` becomes true and a missing `bpAwarded` false |
| App.LoadTasks | src/App.tsx:17-36 | a non-empty stored array is loaded element by element through the migration; anything else gives the default catalog |
| App.Persist | src/App.tsx:88 | every field is written, so the load-time migration reads the written task back unchanged |
| App.LoadAfterPersist | src/App.tsx:17-36 | loading a saved non-empty list gives the same list (hence the same earned total); a saved empty list gives the default catalog |
| App.MigrateDefaultsAward | src/App.tsx:28 | a task loaded without `bpAwarded` carries no unbacked reward |
| App.Ledger.Balance | src/App.tsx:132 | definition of `totalBP = initialBP + earned - spentBP`, without a contract of its own; `App.Ledger.BalanceCountsAwardsOnce` and the methods' `ensures` state what the balance does |
| App.Ledger.BalanceCountsAwardsOnce | src/App.tsx:112-132 | in a sound ledger the balance is the starting balance plus each granted reward once, minus the spend |
| App.Ledger.constructor | src/App.tsx:17-58 | the state cells start from the loaded tasks and the loaded starting balance and spend |
| App.Ledger.HandleToggleComplete | src/App.tsx:137-166 | the task list becomes the toggled list; balance inputs unchanged; the invariant is preserved |
| App.Ledger.HandleIncrement | src/App.tsx:168-191 | the task list becomes the incremented list; balance inputs unchanged; the invariant is preserved; incrementing a uniquely named, rewarded task leaves the balance unchanged |
| App.Ledger.HandleDecrement | src/App.tsx:193-212 | the task list becomes the decremented list; balance inputs unchanged; the invariant is preserved; decrementing a uniquely named, rewarded task at or below its threshold lowers the balance by exactly its `baseBP` |
| App.Ledger.HandleToggleVisibility | src/App.tsx:214-223 | the task list becomes the toggled list, with the balance unchanged |
| App.Ledger.CheckReset | src/App.tsx:61-74 | when the reset predicate holds, every task is reset (earned 0) and the second clock reading's date is stored; otherwise nothing changes; with no stored marker the tasks are kept and no marker is written |
| App.Ledger.SetInitialBP | src/components/InitialBPModal.tsx:37-42 | a non-negative starting balance is stored and the balance moves by the difference |
| App.Ledger.OnPurchase | src/App.tsx:262-264 | the spend grows by exactly the price and the balance drops by exactly the price |
| App.Ledger.Purchase | src/components/ShopSidebar.tsx:88-94 | a buy click succeeds exactly when the balance covers the price and the item is available at the check's clock reading; the shop records the later stamp; then the spend grows by the price and the balance stays non-negative; otherwise nothing changes; the tasks, the starting balance and the shop's countdown map are never touched |
| ShopCatalog.CatalogIdsDistinct | src/data/shopItems.ts:3-52 | the six catalog items have distinct ids |
| ShopSidebar.HasPurchaseTime | src/components/ShopSidebar.tsx:54-55 | definition of the truthiness test `purchaseTime`: present and not 0; `ShopSidebar.PurchasedWithoutTimeIsLocked` states its effect |
| ShopSidebar.IsItemAvailable | src/components/ShopSidebar.tsx:52-58 | definition of `isItemAvailable`, without a contract of its own; `ShopSidebar.TimeUntilAvailable`, `ShopSidebar.NeverPurchasedIsAvailable`, `ShopSidebar.PurchasedWithoutTimeIsLocked` and the cooldown lemmas state its properties |
| ShopSidebar.CeilSeconds | src/components/ShopSidebar.tsx:68 | `Math.ceil(ms / 1000)`: the least whole number of seconds covering the milliseconds |
| ShopSidebar.TimeUntilAvailable | src/components/ShopSidebar.tsx:61-69 | 0 for an item never bought or without a recorded time; otherwise the remaining cooldown rounded up to seconds, 0 exactly when the item is available, at most 300 when the purchase is not in the future |
| ShopSidebar.Purchase | src/components/ShopSidebar.tsx:88-94 | a purchase is accepted iff affordable and available at the check's clock reading `now`; then it charges exactly the price, adds the id and records the second reading `stamp`; a rejection changes nothing |
| ShopSidebar.NeverPurchasedIsAvailable | src/components/ShopSidebar.tsx:52-69 | an item never bought is available and has 0 seconds remaining |
| ShopSidebar.PurchasedWithoutTimeIsLocked | src/components/ShopSidebar.tsx:52-69 | a bought item with no recorded time (or time 0) is never available, yet shows 0 seconds |
| ShopSidebar.PurchaseOnlyGrows | src/components/ShopSidebar.tsx:91-92 | no purchase removes an id, and other items' ids and times are untouched |
| ShopSidebar.CooldownRejectsEarlyRetry | src/components/ShopSidebar.tsx:52-58 | after a purchase stamped at `stamp`, any attempt whose check reads the clock before `stamp + 300000` is refused, whatever the balance |
| ShopSidebar.CooldownAllowsLaterRetry | src/components/ShopSidebar.tsx:52-58 | after a purchase with a non-zero stamp, an affordable attempt whose check reads at or after `stamp + 300000` succeeds and records its own stamp |
| ShopSidebar.LateStampDelaysRetry | src/components/ShopSidebar.tsx:52-94 | when the stamp is read after the check, a retry exactly 300000 ms after the check is still refused |
| ShopSidebar.TimeRemaining | src/components/ShopSidebar.tsx:61-82 | the countdown map has an entry exactly for each bought catalog item, holding its remaining seconds at the clock reading taken for that item; as the catalog ids are distinct, no entry overwrites another |
| ShopSidebar.TimeLeft | src/components/ShopSidebar.tsx:119 | definition of the shown countdown: the map's entry, or 0 without one; `ShopSidebar.Shop.Tick` states that after a tick it is each catalog item's remaining cooldown |
| ShopSidebar.TimerParts | src/components/ShopSidebar.tsx:120-121 | minutes and seconds satisfy `minutes*60 + seconds == timeLeft` with `seconds < 60` |
| ShopSidebar.TimerAtMostFiveMinutes | src/components/ShopSidebar.tsx:61-69 | a countdown for a purchase not in the future shows at most 5 minutes |
| ShopSidebar.Shop.constructor | src/components/ShopSidebar.tsx:16-33 | the shop starts from the loaded purchases and times, with an empty countdown map |
| ShopSidebar.Shop.HandlePurchase | src/components/ShopSidebar.tsx:88-94 | with the check's clock reading and the stamp as separate inputs, the state becomes the purchase outcome's state and the reported price is its charge; the bought set only grows |
| ShopSidebar.Shop.Tick | src/components/ShopSidebar.tsx:74-86 | each tick rebuilds the countdown map for the bought catalog items, and the countdown then shown for every catalog item, bought or not, is its remaining cooldown in seconds at its own clock reading |
| ResetUtils.IndexOf | src/utils/resetUtils.ts:17-18 | the first occurrence of the separator at or after a position, or none |
| ResetUtils.Before | src/utils/resetUtils.ts:17-18 | for a non-empty separator (the code passes `", "` and `":"`), the first piece of `split`: the prefix before the first separator, or the whole string |
| ResetUtils.FirstOccurrence | src/utils/resetUtils.ts:17 | when the text before a separator lacks its first character, the split happens right after that text |
| ResetUtils.NoOccurrence | src/utils/resetUtils.ts:17-18 | a string lacking the separator's first character does not split |
| ResetUtils.DigitPrefix | src/utils/resetUtils.ts:21 | the longest run of leading digits, the part `parseInt` reads |
| ResetUtils.ParseInt | src/utils/resetUtils.ts:21 | the result is NaN exactly when the text does not start with a digit |
| ResetUtils.ParseTwoDigits | src/utils/resetUtils.ts:21 | parsing a two-digit field gives its number back |
| ResetUtils.GetKyivTime | src/utils/resetUtils.ts:17-23 | definition of `getKyivTime` over the formatted string, without a contract of its own; `ResetUtils.GetKyivTimeOfFormatted` states its round trip |
| ResetUtils.GetKyivTimeOfFormatted | src/utils/resetUtils.ts:17-23 | a formatted clock `date, HH:MM` reads back as that date and hour |
| ResetUtils.ShouldReset | src/utils/resetUtils.ts:26-42 | definition of `shouldReset`, without a contract of its own; `ResetUtils.NoMarkerNoReset`, `ResetUtils.SameDayNoReset` and `ResetUtils.NewDayResetsFromSeven` state its cases |
| ResetUtils.NoMarkerNoReset | src/utils/resetUtils.ts:26-42 | no reset without a stored (non-empty) marker, on a failed read, or when the clock cannot be split |
| ResetUtils.SameDayNoReset | src/utils/resetUtils.ts:34-37 | no reset on the marker's own date, at any hour |
| ResetUtils.NewDayResetsFromSeven | src/utils/resetUtils.ts:34-37 | on another date a reset is due exactly when the hour is 7 or more |
| ResetUtils.ResetStore.constructor | src/utils/resetUtils.ts:28 | the store starts with the loaded marker |
| ResetUtils.ResetStore.ShouldResetAt | src/utils/resetUtils.ts:26-29 | definition of `shouldReset` with the marker read from the store, without a contract of its own; `ResetUtils.ResetStore.MarkResetDone` and `App.Ledger.CheckReset` state its use |
| ResetUtils.ResetStore.FreshStoreNeverResets | src/utils/resetUtils.ts:26-29 | a store without a marker never reports a reset, at any clock |
| ResetUtils.ResetStore.MarkResetDone | src/utils/resetUtils.ts:44-51 | the marker becomes the clock's date (kept when the clock cannot be split); afterwards no reset is due on that date |

## Left out

- Rendering, hooks, JSX, the language and theme contexts and every presentational component:
  they do not take part in the ledger rules.
- The button-disabling rules of the task item component: these are UI gating that the
  handlers do not rely on.
- `localStorage` and `JSON.parse`/`JSON.stringify`: loaded values are inputs (`SavedTasks`,
  the constructors' arguments, `StorageRead`), and persistence writes are dropped, except the
  `lastResetDate` marker. A failing write of that marker is not modelled.
- Stored array elements are assumed to be task-shaped objects. An element such as `null` would
  make the migration throw in the code and fall back to the default catalog.
- `parseInt` of the stored `initialBP` and `spentBP` and of the dialog input: the loaded numbers
  are inputs, and only the dialog's non-negative guard is kept, as a precondition of `SetInitialBP`.
- `Date.now()`, `toLocaleString` with the `Europe/Kyiv` time zone, `setInterval`/`clearInterval`:
  each clock reading is a parameter (`now` and `stamp`, one reading per catalog item for a tick
  of the countdown, or the formatted string), with no order assumed between two readings. What the formatter prints for the
  midnight hour under `hour12: false` is outside the model. Some engines print `24`, which would
  read as an hour of at least 7.
- `ResetUtils.ParseInt`: reads leading decimal digits only, without the leading whitespace and
  sign `parseInt` also accepts, because the formatter prints unsigned two-digit hours.
- The multiplier flags and any rounding: the code never applies them to the balance.
- The contents of `initialTasks`: the file is not part of this model, so it is a parameter.
- The shop items' Ukrainian and Russian names and descriptions: display text.
- The `m:ss` string padding of the countdown: display formatting; only the minutes/seconds split is modelled.
- JavaScript numbers are modelled as unbounded integers: the code only stores integral counts,
  prices and millisecond timestamps.
