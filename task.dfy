/** The task record of src/types/Task.ts and the per-task transforms that the
    handlers of src/App.tsx apply inside their `map` over the task list. */
module Tasks {

  /** One mission. `title` and `description` are display text the logic never reads. */
  datatype Task = Task(
    id: string,
    title: string,
    description: string,
    baseBP: int,
    maxCompletions: int,
    currentCompletions: int,
    completed: bool,
    visible: bool,
    bpAwarded: bool)

  /** The repetition count at which a task's reward is granted: its own cap, but never more than 5. */
  function Threshold(maxCompletions: int): (k: int)
    ensures k <= 5 && k <= maxCompletions
    ensures k == 5 || k == maxCompletions
  {
    if maxCompletions >= 5 then 5 else maxCompletions
  }

  /** Whether `calculateEarnedBP` adds this task's `baseBP` to the total. Both of its branches
      demand the reward flag. */
  predicate Earns(t: Task)
    ensures Earns(t) ==> t.bpAwarded
  {
    || (t.maxCompletions == 1 && t.completed && t.bpAwarded)
    || (t.currentCompletions >= Threshold(t.maxCompletions) && t.bpAwarded)
  }

  /** What this task adds to the earned total: its whole `baseBP` or nothing, and nothing without
      the reward flag. */
  function Contribution(t: Task): (c: int)
    ensures c == 0 || c == t.baseBP
    ensures !t.bpAwarded ==> c == 0
  {
    if Earns(t) then t.baseBP else 0
  }

  /** The count stays within the task's cap. */
  predicate InRange(t: Task)
  {
    0 <= t.currentCompletions <= t.maxCompletions
  }

  /** A granted reward is backed by progress: the threshold is met, or a one-shot task is ticked. */
  predicate AwardJustified(t: Task)
  {
    t.bpAwarded ==> t.currentCompletions >= Threshold(t.maxCompletions) || (t.maxCompletions == 1 && t.completed)
  }

  predicate Invariant(t: Task)
  {
    InRange(t) && AwardJustified(t)
  }

  /** Within one daily cycle a task that has reached its threshold has its reward granted. The
      daily reset establishes it; older stored data may violate it. */
  predicate AwardKept(t: Task)
  {
    t.maxCompletions >= 1 && t.currentCompletions >= Threshold(t.maxCompletions) ==> t.bpAwarded
  }

  /** The body of `handleToggleComplete` for the matching task. */
  function ToggleComplete(t: Task): (r: Task)
    ensures r == t.(completed := r.completed, bpAwarded := r.bpAwarded)
    ensures r.completed == (t.currentCompletions >= t.maxCompletions || !t.completed)
    ensures r.bpAwarded == if t.maxCompletions == 1 then r.completed else t.bpAwarded
  {
    if t.currentCompletions >= t.maxCompletions then
      // at the cap the task stays completed
      var shouldAward := t.maxCompletions == 1 && !t.bpAwarded;
      t.(completed := true, bpAwarded := if shouldAward then true else t.bpAwarded)
    else
      var newCompleted := !t.completed;
      var shouldAward := t.maxCompletions == 1 && newCompleted && !t.bpAwarded;
      var shouldRevoke := t.maxCompletions == 1 && !newCompleted && t.bpAwarded;
      t.(completed := newCompleted,
         bpAwarded := if shouldAward then true else if shouldRevoke then false else t.bpAwarded)
  }

  /** The body of `handleIncrement` for the matching task. */
  function Increment(t: Task): (r: Task)
    ensures r == t.(currentCompletions := r.currentCompletions, completed := r.completed, bpAwarded := r.bpAwarded)
    ensures r.currentCompletions <= t.currentCompletions + 1 && r.currentCompletions <= t.maxCompletions
    ensures r.currentCompletions == t.currentCompletions + 1 || r.currentCompletions == t.maxCompletions
    ensures r.completed == (t.completed || r.currentCompletions >= t.maxCompletions)
    ensures r.bpAwarded == (t.bpAwarded || r.currentCompletions >= Threshold(t.maxCompletions))
  {
    var newCompletions := if t.currentCompletions + 1 < t.maxCompletions then t.currentCompletions + 1 else t.maxCompletions;
    var isMaxReached := newCompletions >= t.maxCompletions;
    var shouldAward := newCompletions >= Threshold(t.maxCompletions) && !t.bpAwarded;
    t.(currentCompletions := newCompletions,
       completed := if isMaxReached then true else t.completed,
       bpAwarded := if shouldAward then true else t.bpAwarded)
  }

  /** The body of `handleDecrement` for the matching task. */
  function Decrement(t: Task): (r: Task)
    ensures r == t.(currentCompletions := r.currentCompletions, completed := r.completed, bpAwarded := r.bpAwarded)
    ensures r.currentCompletions >= t.currentCompletions - 1 && r.currentCompletions >= 0
    ensures r.currentCompletions == t.currentCompletions - 1 || r.currentCompletions == 0
    ensures r.completed == (t.completed && r.currentCompletions >= t.maxCompletions)
    ensures r.bpAwarded == (t.bpAwarded && r.currentCompletions >= Threshold(t.maxCompletions))
  {
    var newCompletions := if t.currentCompletions - 1 > 0 then t.currentCompletions - 1 else 0;
    var shouldRevoke := newCompletions < Threshold(t.maxCompletions) && t.bpAwarded;
    t.(currentCompletions := newCompletions,
       completed := if newCompletions < t.maxCompletions then false else t.completed,
       bpAwarded := if shouldRevoke then false else t.bpAwarded)
  }

  /** The body of `handleToggleVisibility` for the matching task: only the flag flips. */
  function ToggleVisibility(t: Task): (r: Task)
    ensures r.visible == !t.visible
    ensures r.(visible := t.visible) == t
  {
    t.(visible := !t.visible)
  }

  /** The body of the daily-reset `map` inside `checkReset`: progress, tick and reward are cleared,
      the task itself is kept. */
  function ResetTask(t: Task): (r: Task)
    ensures r.currentCompletions == 0 && !r.completed && !r.bpAwarded
    ensures r.(currentCompletions := t.currentCompletions, completed := t.completed, bpAwarded := t.bpAwarded) == t
  {
    t.(currentCompletions := 0, completed := false, bpAwarded := false)
  }

  // ---------------------------------------------------------------------------
  // Properties of one task

  /** Under the invariant the code's two-branch earning rule is exactly "the reward is granted". */
  lemma EarnsIffAwarded(t: Task)
    requires AwardJustified(t)
    ensures Earns(t) <==> t.bpAwarded
    ensures Contribution(t) == if t.bpAwarded then t.baseBP else 0
  {
  }

  /** Toggling keeps the count in range and every granted reward backed by progress. */
  lemma ToggleCompletePreservesInvariant(t: Task)
    requires Invariant(t)
    ensures Invariant(ToggleComplete(t))
  {
  }

  /** Incrementing keeps the count in range, never revokes a reward and keeps it backed. */
  lemma IncrementPreservesInvariant(t: Task)
    requires Invariant(t)
    ensures Invariant(Increment(t))
    ensures t.bpAwarded ==> Increment(t).bpAwarded
  {
  }

  /** Decrementing keeps the count in range, never grants a reward, and revokes it below the threshold. */
  lemma DecrementPreservesInvariant(t: Task)
    requires Invariant(t)
    ensures Invariant(Decrement(t))
    ensures Decrement(t).bpAwarded ==> t.bpAwarded
  {
  }

  /** Once a task's reward is granted, further increments change neither the flag nor what it earns:
      repetitions past the threshold (the 5th for long tasks) add nothing. */
  lemma IncrementPastThreshold(t: Task)
    requires Invariant(t) && t.bpAwarded
    ensures Increment(t).bpAwarded
    ensures Contribution(Increment(t)) == Contribution(t) == t.baseBP
  {
  }

  /** The daily reset starts a cycle: every reset task satisfies the cycle rule. */
  lemma ResetTaskStartsCycle(t: Task)
    ensures AwardKept(ResetTask(t))
  {
  }

  /** Every handler keeps the cycle rule of a task that satisfies the invariant. */
  lemma HandlersKeepAwardKept(t: Task)
    requires Invariant(t) && AwardKept(t)
    ensures AwardKept(ToggleComplete(t))
    ensures AwardKept(Increment(t))
    ensures AwardKept(Decrement(t))
    ensures AwardKept(ToggleVisibility(t))
  {
  }

  /** Within a cycle, an increment of a task that has already reached its threshold keeps the flag
      and adds nothing: repetitions past the 5th earn nothing more, whatever the flag was believed to be. */
  lemma IncrementPastThresholdInCycle(t: Task)
    requires Invariant(t) && AwardKept(t)
    requires t.maxCompletions >= 1 && t.currentCompletions >= Threshold(t.maxCompletions)
    ensures t.bpAwarded && Increment(t).bpAwarded
    ensures Contribution(Increment(t)) == Contribution(t) == t.baseBP
  {
    IncrementPastThreshold(t);
  }

  /** Incrementing a task that reaches its threshold grants the reward exactly once. */
  lemma IncrementReachingThresholdGrants(t: Task)
    requires Invariant(t) && !t.bpAwarded
    requires t.currentCompletions + 1 == Threshold(t.maxCompletions)
    ensures Increment(t).bpAwarded && Contribution(Increment(t)) == t.baseBP
    ensures Contribution(t) == 0
  {
  }

  /** A decrement at or below the threshold takes a granted reward back. */
  lemma DecrementAtThresholdRevokes(t: Task)
    requires Invariant(t) && t.bpAwarded && t.maxCompletions >= 1
    requires t.currentCompletions <= Threshold(t.maxCompletions)
    ensures Contribution(t) == t.baseBP
    ensures !Decrement(t).bpAwarded && Contribution(Decrement(t)) == 0
  {
  }

  /** Below its cap a one-shot task flips on each toggle, and its reward follows the tick. */
  lemma OneShotToggle(t: Task)
    requires t.maxCompletions == 1 && t.currentCompletions < 1
    ensures ToggleComplete(t).completed == !t.completed
    ensures ToggleComplete(t).bpAwarded == !t.completed
    ensures Contribution(ToggleComplete(t)) == if t.completed then 0 else t.baseBP
  {
  }

  /** A fresh one-shot task worth 20 earns 20, then 0, then 20 across on, off, on. */
  lemma OneShotScenario(t: Task)
    requires t.maxCompletions == 1 && t.currentCompletions == 0 && t.baseBP == 20
    requires !t.completed && !t.bpAwarded
    ensures Contribution(ToggleComplete(t)) == 20
    ensures Contribution(ToggleComplete(ToggleComplete(t))) == 0
    ensures Contribution(ToggleComplete(ToggleComplete(ToggleComplete(t)))) == 20
  {
    OneShotToggle(t);
    OneShotToggle(ToggleComplete(t));
    OneShotToggle(ToggleComplete(ToggleComplete(t)));
  }

  /** Visibility is a display flag: flipping it twice restores the task, and it never affects earning. */
  lemma ToggleVisibilityProperties(t: Task)
    ensures ToggleVisibility(ToggleVisibility(t)) == t
    ensures ToggleVisibility(t).id == t.id && ToggleVisibility(t).visible == !t.visible
    ensures Contribution(ToggleVisibility(t)) == Contribution(t)
    ensures Invariant(ToggleVisibility(t)) == Invariant(t)
  {
  }

  /** The reset zeroes progress and the award, keeps everything else, is idempotent and earns nothing. */
  lemma ResetTaskProperties(t: Task)
    ensures ResetTask(ResetTask(t)) == ResetTask(t)
    ensures Contribution(ResetTask(t)) == 0
    ensures t.maxCompletions >= 0 ==> Invariant(ResetTask(t))
  {
  }
}
