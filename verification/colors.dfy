/**
 The colour a task card gives its current person: the task's own colour for
 that position when one is configured, else the widget's default colour,
 else a built-in green. JavaScript truthiness decides "configured": a colours
 array counts even when empty, a colour string only when non-empty.
 */
module Colors {
  import opened Options
  import opened TaskStates

  const BuiltInColor: string := "#4CAF50"

  /** `colors[index]` exists and is a non-empty string. */
  predicate HasOwnColor(colors: Option<seq<string>>, index: int) {
    colors.Some? && 0 <= index < |colors.value| && colors.value[index] != ""
  }

  predicate HasDefault(defaultColor: Option<string>) {
    defaultColor.Some? && defaultColor.value != ""
  }

  function ResolveColor(task: Task, index: int, defaultColor: Option<string>): (r: string)
    ensures r != ""
    ensures HasOwnColor(task.colors, index) ==> r == task.colors.value[index]
    ensures !HasOwnColor(task.colors, index) && HasDefault(defaultColor) ==> r == defaultColor.value
    ensures !HasOwnColor(task.colors, index) && !HasDefault(defaultColor) ==> r == BuiltInColor
  {
    if task.colors.Some? && 0 <= index < |task.colors.value| && task.colors.value[index] != "" then
      task.colors.value[index]
    else if defaultColor.Some? && defaultColor.value != "" then
      defaultColor.value
    else
      BuiltInColor
  }

  /** The result is always one of the three candidates, whatever the configuration. */
  lemma ResolveColorCandidates(task: Task, index: int, defaultColor: Option<string>)
    ensures var r := ResolveColor(task, index, defaultColor);
            || (task.colors.Some? && r in task.colors.value)
            || defaultColor == Some(r)
            || r == BuiltInColor
  {
  }

  /** A task's colour for a position does not depend on the default when it has one of its own. */
  lemma OwnColorIgnoresDefault(task: Task, index: int, d1: Option<string>, d2: Option<string>)
    requires HasOwnColor(task.colors, index)
    ensures ResolveColor(task, index, d1) == ResolveColor(task, index, d2)
  {
  }

  /** "Dishes" with one red entry: red at position 0, the default at position 1. */
  lemma DishesExample()
    ensures var dishes := Task("Dishes", ["Alice", "Bob"], Some(["#FF0000"]));
            && ResolveColor(dishes, 0, Some("#123456")) == "#FF0000"
            && ResolveColor(dishes, 1, Some("#123456")) == "#123456"
            && ResolveColor(dishes, 1, None) == BuiltInColor
            && ResolveColor(dishes, 1, Some("")) == BuiltInColor
  {
  }
}
