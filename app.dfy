/** The task ledger of src/App.tsx: the task list, the manual starting balance and the running
    spend, the handlers that replace the task list, the earned total and the balance. */
module App {
  import opened Wrappers
  import opened Tasks
  import Lists
  import ShopCatalog
  import ShopSidebar
  import ResetUtils

  // ---------------------------------------------------------------------------
  // The task list

  /** `prevTasks.map(task => task.id === id ? f(task) : task)`: every task carrying `id` is
      transformed, every other task is kept as it is. */
  function UpdateWhere(ts: seq<Task>, id: string, f: Task -> Task): (r: seq<Task>)
    ensures |r| == |ts|
    ensures forall i :: 0 <= i < |ts| && ts[i].id == id ==> r[i] == f(ts[i])
    ensures forall i :: 0 <= i < |ts| && ts[i].id != id ==> r[i] == ts[i]
  {
    Lists.Map(ts, (t: Task) => if t.id == id then f(t) else t)
  }

  /** The daily reset applied to every task. */
  function ResetAll(ts: seq<Task>): (r: seq<Task>)
    ensures |r| == |ts|
    ensures forall i :: 0 <= i < |ts| ==> r[i] == ResetTask(ts[i])
  {
    Lists.Map(ts, ResetTask)
  }

  /** `calculateEarnedBP`: the `reduce` over the tasks, from the left, adding each task's contribution. */
  function EarnedBP(ts: seq<Task>): int
  {
    if ts == [] then 0 else EarnedBP(ts[..|ts| - 1]) + Contribution(ts[|ts| - 1])
  }

  /** The sum of `baseBP` over the tasks whose reward is granted: the rule the comment above
      `calculateEarnedBP` states, that a reward counts once, from the moment it is granted. */
  function AwardedSum(ts: seq<Task>): int
  {
    if ts == [] then 0
    else AwardedSum(ts[..|ts| - 1]) + (if ts[|ts| - 1].bpAwarded then ts[|ts| - 1].baseBP else 0)
  }

  /** `tasks.filter(task => task.visible)`. */
  function VisibleTasks(ts: seq<Task>): (r: seq<Task>)
    ensures |r| <= |ts|
    ensures forall t :: t in r <==> t in ts && t.visible
  {
    if ts == [] then []
    else if ts[0].visible then [ts[0]] + VisibleTasks(ts[1..])
    else VisibleTasks(ts[1..])
  }

  predicate AllInvariant(ts: seq<Task>)
  {
    forall i :: 0 <= i < |ts| ==> Invariant(ts[i])
  }

  /** No task other than the one at position `i` carries its id. */
  predicate UniqueAt(ts: seq<Task>, i: nat)
    requires i < |ts|
  {
    forall j :: 0 <= j < |ts| && j != i ==> ts[j].id != ts[i].id
  }

  /** Two lists of the same length that differ only at position `i` earn amounts that differ
      by the change in that one task's contribution. */
  lemma {:induction false} EarnedPointwise(a: seq<Task>, b: seq<Task>, i: nat)
    requires |a| == |b| && i < |a|
    requires forall j :: 0 <= j < |a| && j != i ==> a[j] == b[j]
    ensures EarnedBP(b) == EarnedBP(a) - Contribution(a[i]) + Contribution(b[i])
  {
    var n := |a| - 1;
    if i == n {
      assert a[..n] == b[..n];
    } else {
      EarnedPointwise(a[..n], b[..n], i);
    }
  }

  /** With every granted reward backed by progress, the code's earned total equals the sum of the
      rewards granted: a reward is counted once, exactly while its flag is set. */
  lemma {:induction false} EarnedIsAwardedSum(ts: seq<Task>)
    requires forall i :: 0 <= i < |ts| ==> AwardJustified(ts[i])
    ensures EarnedBP(ts) == AwardedSum(ts)
  {
    if ts != [] {
      EarnedIsAwardedSum(ts[..|ts| - 1]);
      EarnsIffAwarded(ts[|ts| - 1]);
    }
  }

  /** A list in which no reward is granted earns nothing. */
  lemma {:induction false} EarnedNoAwards(ts: seq<Task>)
    requires forall i :: 0 <= i < |ts| ==> !ts[i].bpAwarded
    ensures EarnedBP(ts) == 0
  {
    if ts != [] {
      EarnedNoAwards(ts[..|ts| - 1]);
    }
  }

  /** Applying a handler to the only task carrying `ts[i].id` changes the earned total by the
      change in that task's contribution. */
  lemma EarnedAfterUpdate(ts: seq<Task>, i: nat, f: Task -> Task)
    requires i < |ts|
    requires UniqueAt(ts, i)
    ensures EarnedBP(UpdateWhere(ts, ts[i].id, f)) == EarnedBP(ts) - Contribution(ts[i]) + Contribution(f(ts[i]))
  {
    EarnedPointwise(ts, UpdateWhere(ts, ts[i].id, f), i);
  }

  /** A handler that keeps every task's invariant keeps the list's invariant. */
  lemma UpdatePreservesInvariant(ts: seq<Task>, id: string, f: Task -> Task)
    requires AllInvariant(ts)
    requires forall t :: Invariant(t) ==> Invariant(f(t))
    ensures AllInvariant(UpdateWhere(ts, id, f))
  {
  }

  /** Past the threshold an increment of a uniquely named task leaves the earned total unchanged. */
  lemma IncrementPastThresholdEarnsNothing(ts: seq<Task>, i: nat)
    requires i < |ts|
    requires UniqueAt(ts, i)
    requires Invariant(ts[i]) && ts[i].bpAwarded
    ensures EarnedBP(UpdateWhere(ts, ts[i].id, Increment)) == EarnedBP(ts)
  {
    EarnedAfterUpdate(ts, i, Increment);
    IncrementPastThreshold(ts[i]);
  }

  /** A decrement at or below the threshold of a uniquely named, rewarded task lowers the earned
      total by exactly that task's `baseBP`. */
  lemma DecrementRevokesReward(ts: seq<Task>, i: nat)
    requires i < |ts|
    requires UniqueAt(ts, i)
    requires Invariant(ts[i]) && ts[i].bpAwarded && ts[i].maxCompletions >= 1
    requires ts[i].currentCompletions <= Threshold(ts[i].maxCompletions)
    ensures EarnedBP(UpdateWhere(ts, ts[i].id, Decrement)) == EarnedBP(ts) - ts[i].baseBP
  {
    EarnedAfterUpdate(ts, i, Decrement);
    DecrementAtThresholdRevokes(ts[i]);
  }

  /** Toggling visibility changes no earned total, and toggling it twice restores the list. */
  lemma ToggleVisibilityList(ts: seq<Task>, id: string)
    ensures EarnedBP(UpdateWhere(ts, id, ToggleVisibility)) == EarnedBP(ts)
    ensures UpdateWhere(UpdateWhere(ts, id, ToggleVisibility), id, ToggleVisibility) == ts
  {
    var once := UpdateWhere(ts, id, ToggleVisibility);
    EarnedSameContributions(ts, once);
    assert forall i :: 0 <= i < |ts| ==> once[i].id == ts[i].id;
  }

  /** Lists whose tasks contribute pairwise the same earn the same. */
  lemma {:induction false} EarnedSameContributions(a: seq<Task>, b: seq<Task>)
    requires |a| == |b|
    requires forall i :: 0 <= i < |a| ==> Contribution(a[i]) == Contribution(b[i])
    ensures EarnedBP(a) == EarnedBP(b)
  {
    if a != [] {
      EarnedSameContributions(a[..|a| - 1], b[..|b| - 1]);
    }
  }

  /** The reset leaves each task as it was except progress and award, is idempotent, and leaves
      nothing earned. */
  lemma ResetAllProperties(ts: seq<Task>)
    ensures ResetAll(ResetAll(ts)) == ResetAll(ts)
    ensures EarnedBP(ResetAll(ts)) == 0
    ensures forall i :: 0 <= i < |ts| ==>
      ResetAll(ts)[i] == ts[i].(currentCompletions := 0, completed := false, bpAwarded := false)
  {
    EarnedNoAwards(ResetAll(ts));
  }

  /** The visible list keeps the order of the full list: filtering a concatenation filters each part. */
  lemma {:induction false} VisibleTasksConcat(a: seq<Task>, b: seq<Task>)
    ensures VisibleTasks(a + b) == VisibleTasks(a) + VisibleTasks(b)
  {
    if a == [] {
      assert a + b == b;
    } else {
      assert (a + b)[0] == a[0];
      assert (a + b)[1..] == a[1..] + b;
      VisibleTasksConcat(a[1..], b);
      if a[0].visible {
        assert VisibleTasks(a + b) == [a[0]] + VisibleTasks(a[1..] + b);
        assert VisibleTasks(a) + VisibleTasks(b) == [a[0]] + (VisibleTasks(a[1..]) + VisibleTasks(b));
      } else {
        assert VisibleTasks(a + b) == VisibleTasks(a[1..] + b);
        assert VisibleTasks(a) == VisibleTasks(a[1..]);
      }
    }
  }

  // ---------------------------------------------------------------------------
  // Loading the task list

  /** A task as parsed from storage: `visible` and `bpAwarded` may be missing in older data. */
  datatype StoredTask = StoredTask(
    id: string,
    title: string,
    description: string,
    baseBP: int,
    maxCompletions: int,
    currentCompletions: int,
    completed: bool,
    visible: Option<bool>,
    bpAwarded: Option<bool>)

  /** What reading the `tasks` key yields: nothing usable (the read threw, the key is missing or
      empty, or `JSON.parse` threw), a parsed value that is not an array, or an array. */
  datatype SavedTasks = Unusable | NotAnArray | TaskArray(items: seq<StoredTask>)

  /** The forward-compatible defaults: a missing `visible` is true, a missing `bpAwarded` false. */
  function Migrate(s: StoredTask): (t: Task)
    ensures t.visible == s.visible.GetOr(true) && t.bpAwarded == s.bpAwarded.GetOr(false)
    ensures t.id == s.id && t.title == s.title && t.description == s.description
    ensures t.baseBP == s.baseBP && t.maxCompletions == s.maxCompletions
    ensures t.currentCompletions == s.currentCompletions && t.completed == s.completed
  {
    Task(s.id, s.title, s.description, s.baseBP, s.maxCompletions, s.currentCompletions, s.completed,
         s.visible.GetOr(true), s.bpAwarded.GetOr(false))
  }

  /** `JSON.stringify` of a task, as `setItem('tasks', …)` writes it: every field is written, so the
      migration reads the task back unchanged. */
  function Persist(t: Task): (s: StoredTask)
    ensures s.visible.Some? && s.bpAwarded.Some?
    ensures Migrate(s) == t
  {
    StoredTask(t.id, t.title, t.description, t.baseBP, t.maxCompletions, t.currentCompletions, t.completed,
               Some(t.visible), Some(t.bpAwarded))
  }

  /** The initial value of the `tasks` state cell: the migrated stored array when it is a
      non-empty array, the default catalog otherwise. */
  function LoadTasks(saved: SavedTasks, initialTasks: seq<Task>): (r: seq<Task>)
    ensures saved.TaskArray? && |saved.items| > 0 ==>
      |r| == |saved.items| && forall i :: 0 <= i < |r| ==> r[i] == Migrate(saved.items[i])
    ensures !(saved.TaskArray? && |saved.items| > 0) ==> r == initialTasks
  {
    match saved
    case TaskArray(items) => if |items| > 0 then Lists.Map(items, Migrate) else initialTasks
    case _ => initialTasks
  }

  /** Saving a non-empty task list and loading it back gives the same list, hence the same
      earned total; an empty list comes back as the default catalog. */
  lemma LoadAfterPersist(ts: seq<Task>, initialTasks: seq<Task>)
    ensures |ts| > 0 ==> LoadTasks(TaskArray(Lists.Map(ts, Persist)), initialTasks) == ts
    ensures ts == [] ==> LoadTasks(TaskArray(Lists.Map(ts, Persist)), initialTasks) == initialTasks
  {
    var loaded := LoadTasks(TaskArray(Lists.Map(ts, Persist)), initialTasks);
    if |ts| > 0 {
      assert forall i :: 0 <= i < |ts| ==> loaded[i] == Migrate(Persist(ts[i])) == ts[i];
    }
  }

  /** A task loaded without a stored `bpAwarded` has no granted reward, so it satisfies the award
      rule; with its count in range it satisfies the whole invariant. */
  lemma MigrateDefaultsAward(s: StoredTask)
    requires s.bpAwarded.None?
    ensures AwardJustified(Migrate(s))
    ensures 0 <= s.currentCompletions <= s.maxCompletions ==> Invariant(Migrate(s))
  {
  }

  // ---------------------------------------------------------------------------
  // The ledger: the `tasks`, `initialBP` and `spentBP` state cells of `AppContent`

  class Ledger {
    var tasks: seq<Task>
    var initialBP: int
    var spentBP: int

    /** `totalBP`: the balance shown and passed to the shop. */
    function Balance(): int
      reads this
    {
      initialBP + EarnedBP(tasks) - spentBP
    }

    /** Every task satisfies the range and award invariant. */
    predicate Sound()
      reads this
    {
      AllInvariant(tasks)
    }

    /** In a sound ledger the balance counts every granted reward exactly once. */
    lemma BalanceCountsAwardsOnce()
      requires Sound()
      ensures Balance() == initialBP + AwardedSum(tasks) - spentBP
    {
      EarnedIsAwardedSum(tasks);
    }

    constructor (saved: SavedTasks, initialTasks: seq<Task>, initialBP: int, spentBP: int)
      ensures this.tasks == LoadTasks(saved, initialTasks)
      ensures this.initialBP == initialBP && this.spentBP == spentBP
    {
      this.tasks := LoadTasks(saved, initialTasks);
      this.initialBP := initialBP;
      this.spentBP := spentBP;
    }

    method HandleToggleComplete(id: string)
      modifies this
      ensures tasks == UpdateWhere(old(tasks), id, ToggleComplete)
      ensures initialBP == old(initialBP) && spentBP == old(spentBP)
      ensures old(Sound()) ==> Sound()
    {
      forall t | Invariant(t) ensures Invariant(ToggleComplete(t)) {
        ToggleCompletePreservesInvariant(t);
      }
      if Sound() {
        UpdatePreservesInvariant(tasks, id, ToggleComplete);
      }
      tasks := UpdateWhere(tasks, id, ToggleComplete);
    }

    method HandleIncrement(id: string)
      modifies this
      ensures tasks == UpdateWhere(old(tasks), id, Increment)
      ensures initialBP == old(initialBP) && spentBP == old(spentBP)
      ensures old(Sound()) ==> Sound()
      ensures old(Sound()) ==> forall i ::
        (0 <= i < |old(tasks)| && old(tasks)[i].id == id && UniqueAt(old(tasks), i) && old(tasks)[i].bpAwarded)
        ==> Balance() == old(Balance())
    {
      forall i | 0 <= i < |tasks| && tasks[i].id == id && UniqueAt(tasks, i) && tasks[i].bpAwarded && Sound()
        ensures EarnedBP(UpdateWhere(tasks, id, Increment)) == EarnedBP(tasks)
      {
        IncrementPastThresholdEarnsNothing(tasks, i);
      }
      forall t | Invariant(t) ensures Invariant(Increment(t)) {
        IncrementPreservesInvariant(t);
      }
      if Sound() {
        UpdatePreservesInvariant(tasks, id, Increment);
      }
      tasks := UpdateWhere(tasks, id, Increment);
    }

    method HandleDecrement(id: string)
      modifies this
      ensures tasks == UpdateWhere(old(tasks), id, Decrement)
      ensures initialBP == old(initialBP) && spentBP == old(spentBP)
      ensures old(Sound()) ==> Sound()
      ensures old(Sound()) ==> forall i ::
        (&& 0 <= i < |old(tasks)| && old(tasks)[i].id == id && UniqueAt(old(tasks), i)
         && old(tasks)[i].bpAwarded && old(tasks)[i].maxCompletions >= 1
         && old(tasks)[i].currentCompletions <= Threshold(old(tasks)[i].maxCompletions))
        ==> Balance() == old(Balance()) - old(tasks)[i].baseBP
    {
      forall i | 0 <= i < |tasks| && tasks[i].id == id && UniqueAt(tasks, i) && tasks[i].bpAwarded && Sound() &&
          tasks[i].maxCompletions >= 1 && tasks[i].currentCompletions <= Threshold(tasks[i].maxCompletions)
        ensures EarnedBP(UpdateWhere(tasks, id, Decrement)) == EarnedBP(tasks) - tasks[i].baseBP
      {
        DecrementRevokesReward(tasks, i);
      }
      forall t | Invariant(t) ensures Invariant(Decrement(t)) {
        DecrementPreservesInvariant(t);
      }
      if Sound() {
        UpdatePreservesInvariant(tasks, id, Decrement);
      }
      tasks := UpdateWhere(tasks, id, Decrement);
    }

    method HandleToggleVisibility(id: string)
      modifies this
      ensures tasks == UpdateWhere(old(tasks), id, ToggleVisibility)
      ensures initialBP == old(initialBP) && spentBP == old(spentBP)
      ensures Balance() == old(Balance())
      ensures old(Sound()) ==> Sound()
    {
      ToggleVisibilityList(tasks, id);
      tasks := UpdateWhere(tasks, id, ToggleVisibility);
    }

    /** `checkReset`: when the reset predicate holds, every task is reset and the marker is
        written. `checkClock` and `markClock` are the two clock readings the code takes, one in
        `shouldReset` and one in `markResetDone`. */
    method CheckReset(store: ResetUtils.ResetStore, checkClock: string, markClock: string)
      modifies this, store
      ensures old(store.ShouldResetAt(checkClock)) ==> tasks == ResetAll(old(tasks)) && EarnedBP(tasks) == 0
      ensures !old(store.ShouldResetAt(checkClock)) ==> tasks == old(tasks)
      ensures old(store.lastResetDate).None? ==> tasks == old(tasks) && store.lastResetDate.None?
      ensures store.lastResetDate ==
        if old(store.ShouldResetAt(checkClock)) && ResetUtils.GetKyivTime(markClock).Some?
        then Some(ResetUtils.GetKyivTime(markClock).value.date)
        else old(store.lastResetDate)
      ensures initialBP == old(initialBP) && spentBP == old(spentBP)
      ensures old(Sound()) ==> Sound()
    {
      if store.lastResetDate.None? {
        store.FreshStoreNeverResets(checkClock);
      }
      if store.ShouldResetAt(checkClock) {
        ResetAllProperties(tasks);
        tasks := ResetAll(tasks);
        store.MarkResetDone(markClock);
      }
    }

    /** The `onSave` callback of the starting-balance dialog, reached only through its guard
        that the entered number is not negative. */
    method SetInitialBP(bp: int)
      requires bp >= 0
      modifies this
      ensures initialBP == bp
      ensures tasks == old(tasks) && spentBP == old(spentBP)
      ensures Balance() == old(Balance()) - old(initialBP) + bp
    {
      initialBP := bp;
    }

    /** The `onPurchase` callback: the price is added to the running spend. */
    method OnPurchase(price: nat)
      modifies this
      ensures spentBP == old(spentBP) + price
      ensures tasks == old(tasks) && initialBP == old(initialBP)
      ensures Balance() == old(Balance()) - price
    {
      spentBP := spentBP + price;
    }

    /** A click on an item's buy button: the shop's gate runs against the current balance and,
        when it lets the purchase through, the reported price is spent. `now` is the clock reading
        of the availability check and `stamp` the later one recorded as the purchase time. */
    method Purchase(shop: ShopSidebar.Shop, item: ShopCatalog.ShopItem, now: int, stamp: int) returns (bought: bool)
      modifies this, shop
      ensures bought == (old(Balance()) >= item.price && ShopSidebar.IsItemAvailable(old(shop.State()), item.id, now))
      ensures shop.State() == ShopSidebar.Purchase(old(shop.State()), item, old(Balance()), now, stamp).state
      ensures spentBP == old(spentBP) + (if bought then item.price else 0)
      ensures Balance() == old(Balance()) - (if bought then item.price else 0)
      ensures bought ==> Balance() >= 0
      ensures tasks == old(tasks) && initialBP == old(initialBP)
      ensures shop.timeRemaining == old(shop.timeRemaining)
    {
      var charged := shop.HandlePurchase(item, Balance(), now, stamp);
      bought := charged.Some?;
      if charged.Some? {
        OnPurchase(charged.value);
      }
    }
  }
}
