/**
 * The registry of running scripts kept by the editor (`executing_tasks` and
 * the `Executer` thread groups in fiji/scripting/TextEditor.java), and the
 * choice the "Kill running script..." dialog makes over it. Threads, the
 * interrupt and the three-second grace period are abstracted away: a task is
 * an identity that is registered when it starts and removed when it finishes
 * or is killed.
 */
module ScriptTasks {

  /** Running tasks in start order; `next` is the identity the next task gets. */
  datatype Registry = Registry(tasks: seq<nat>, next: nat)

  predicate Distinct(s: seq<nat>)
  {
    forall i, j :: 0 <= i < j < |s| ==> s[i] != s[j]
  }

  /** Every registered task is a distinct identity that was handed out already. */
  predicate Wf(reg: Registry)
  {
    && Distinct(reg.tasks)
    && forall t :: t in reg.tasks ==> t < reg.next
  }

  const Empty: Registry := Registry([], 0)

  /** A new Executer registers itself at the end of the list. */
  function Start(reg: Registry): (r: Registry)
    ensures reg.next in r.tasks
    ensures Wf(reg) ==> reg.next !in reg.tasks
    ensures |r.tasks| == |reg.tasks| + 1 && r.tasks[..|reg.tasks|] == reg.tasks
    ensures Wf(reg) ==> Wf(r)
  {
    Registry(reg.tasks + [reg.next], reg.next + 1)
  }

  /** The index of the first occurrence of `t`. */
  function FirstIndex(tasks: seq<nat>, t: nat): (i: nat)
    requires t in tasks
    ensures i < |tasks| && tasks[i] == t
    ensures forall j :: 0 <= j < i ==> tasks[j] != t
  {
    if tasks[0] == t then 0 else FirstIndex(tasks[1..], t) + 1
  }

  /**
   * `Vector.remove(Object)`: drop the first occurrence of `t`, if any; the
   * other tasks keep their order.
   */
  function RemoveTask(tasks: seq<nat>, t: nat): (r: seq<nat>)
    ensures t !in tasks ==> r == tasks
    ensures |r| == if t in tasks then |tasks| - 1 else |tasks|
    ensures forall x :: x in r ==> x in tasks
    ensures forall x :: x != t ==> (x in r <==> x in tasks)
    ensures Distinct(tasks) ==> Distinct(r) && t !in r
    ensures t in tasks ==> r == tasks[..FirstIndex(tasks, t)] + tasks[FirstIndex(tasks, t) + 1..]
  {
    if t !in tasks then tasks
    else
      var i := FirstIndex(tasks, t);
      SpliceMembers(tasks, i);
      tasks[..i] + tasks[i + 1..]
  }

  /** Splicing out index `i` keeps every other element and its multiplicity. */
  lemma SpliceMembers(s: seq<nat>, i: nat)
    requires i < |s|
    ensures forall x :: x in s[..i] + s[i + 1..] ==> x in s
    ensures forall x :: x != s[i] ==> (x in s[..i] + s[i + 1..] <==> x in s)
    ensures Distinct(s) ==> Distinct(s[..i] + s[i + 1..]) && s[i] !in s[..i] + s[i + 1..]
  {
    var r := s[..i] + s[i + 1..];
    assert forall k :: 0 <= k < |r| ==> r[k] == if k < i then s[k] else s[k + 1];
    assert forall k :: 0 <= k < |s| && k != i ==> s[k] == if k < i then r[k] else r[k - 1];
  }

  /** A task that finishes, normally or by an exception, removes itself. */
  function Finish(reg: Registry, t: nat): (r: Registry)
    ensures r.tasks == RemoveTask(reg.tasks, t) && r.next == reg.next
    ensures Wf(reg) ==> t !in r.tasks
    ensures forall x :: x != t ==> (x in r.tasks <==> x in reg.tasks)
    ensures Wf(reg) ==> Wf(r)
  {
    reg.(tasks := RemoveTask(reg.tasks, t))
  }

  /** What the kill dialog returned: cancelled, or the "Kill all" box and the chosen entry. */
  datatype KillChoice = Canceled | Chosen(killAll: bool, index: int)

  /**
   * The tasks `chooseTaskToKill` picks: none when nothing runs or the dialog
   * was cancelled, all of them with "Kill all", otherwise exactly the chosen one.
   * The dialog only offers indices of running tasks.
   */
  function TasksToKill(tasks: seq<nat>, choice: KillChoice): (r: seq<nat>)
    requires |tasks| > 0 && choice.Chosen? && !choice.killAll ==> 0 <= choice.index < |tasks|
    ensures |tasks| == 0 || choice.Canceled? ==> r == []
    ensures |tasks| > 0 && choice.Chosen? && choice.killAll ==> r == tasks
    ensures |tasks| > 0 && choice.Chosen? && !choice.killAll ==> r == [tasks[choice.index]]
    ensures forall x :: x in r ==> x in tasks
  {
    if |tasks| == 0 then []
    else match choice
      case Canceled => []
      case Chosen(killAll, index) => if killAll then tasks else [tasks[index]]
  }

  /** Each doomed task is eventually obliterated, which removes it from the list. */
  function Obliterate(tasks: seq<nat>, doomed: seq<nat>): (r: seq<nat>)
    decreases |doomed|
  {
    if |doomed| == 0 then tasks
    else Obliterate(RemoveTask(tasks, doomed[0]), doomed[1..])
  }

  /** With distinct tasks, obliterating removes exactly the doomed ones. */
  lemma {:induction false} ObliterateRemovesExactly(tasks: seq<nat>, doomed: seq<nat>)
    requires Distinct(tasks)
    ensures Distinct(Obliterate(tasks, doomed))
    ensures forall x :: x in Obliterate(tasks, doomed) <==> x in tasks && x !in doomed
    decreases |doomed|
  {
    if |doomed| > 0 {
      ObliterateRemovesExactly(RemoveTask(tasks, doomed[0]), doomed[1..]);
      assert doomed == [doomed[0]] + doomed[1..];
    }
  }

  /** The registry once every task the dialog picked has been stopped. */
  function Kill(reg: Registry, choice: KillChoice): (r: Registry)
    requires |reg.tasks| > 0 && choice.Chosen? && !choice.killAll ==> 0 <= choice.index < |reg.tasks|
  {
    reg.(tasks := Obliterate(reg.tasks, TasksToKill(reg.tasks, choice)))
  }

  /** Killing keeps the registry well formed and removes exactly the picked tasks. */
  lemma KillRemovesPicked(reg: Registry, choice: KillChoice)
    requires Wf(reg)
    requires |reg.tasks| > 0 && choice.Chosen? && !choice.killAll ==> 0 <= choice.index < |reg.tasks|
    ensures Wf(Kill(reg, choice))
    ensures forall x :: x in Kill(reg, choice).tasks <==> x in reg.tasks && x !in TasksToKill(reg.tasks, choice)
  {
    var r := Kill(reg, choice);
    ObliterateRemovesExactly(reg.tasks, TasksToKill(reg.tasks, choice));
  }

  /** Obliterating every task, in registry order, empties the list. */
  lemma {:induction false} ObliterateEverything(tasks: seq<nat>)
    ensures Obliterate(tasks, tasks) == []
    decreases |tasks|
  {
    if |tasks| > 0 {
      assert RemoveTask(tasks, tasks[0]) == tasks[1..];
      ObliterateEverything(tasks[1..]);
    }
  }

  /** "Kill all" leaves nothing running. */
  lemma KillAllEmptiesRegistry(reg: Registry, index: int)
    ensures Kill(reg, Chosen(true, index)).tasks == []
  {
    ObliterateEverything(reg.tasks);
  }

  /** A single kill stops the chosen task and leaves every other task running. */
  lemma KillOneKeepsOthers(reg: Registry, index: int)
    requires Wf(reg) && 0 <= index < |reg.tasks|
    ensures reg.tasks[index] !in Kill(reg, Chosen(false, index)).tasks
    ensures forall x :: x != reg.tasks[index] ==> (x in Kill(reg, Chosen(false, index)).tasks <==> x in reg.tasks)
  {
    KillRemovesPicked(reg, Chosen(false, index));
  }

  /** Nothing running: the dialog is not even shown and nothing is killed. */
  lemma KillOnEmptyRegistry(choice: KillChoice)
    ensures TasksToKill([], choice) == [] && Kill(Empty, choice) == Empty
  {
  }
}
