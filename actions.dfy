/** The selectable actions of the grid selector and the automatic assignment of
    shortcut keys to them (`number` or `letter` mode). */
module Actions {

  datatype Option<T> = None | Some(value: T)

  /** One selectable item: its label, its optional shortcut key and the value the
      prompt resolves with. */
  datatype Action = Action(name: string, key: Option<string>, value: string)

  /** The `keys` option of the prompt's configuration; `Unset` stands for it being absent. */
  datatype KeyMode = Unset | Number | Letter

  /** `action.key` is truthy: present and not the empty string. */
  predicate HasKey(a: Action)
  {
    a.key.Some? && a.key.value != ""
  }

  /** The digit key `((index + 1) % 10).toString()` of `number` mode. */
  function NumberKey(index: nat): (k: string)
    ensures |k| == 1 && '0' <= k[0] <= '9'
  {
    [('0' as int + (index + 1) % 10) as char]
  }

  /** The letter key `String.fromCharCode(97 + index)` of `letter` mode. */
  function LetterKey(index: nat): (k: string)
    requires index <= 25
    ensures |k| == 1 && 'a' <= k[0] <= 'z'
  {
    [(97 + index) as char]
  }

  /** The key that the given mode writes onto the action at `index`, if any. */
  function AutoKey(mode: KeyMode, index: nat): Option<string>
  {
    match mode
    case Number => if index <= 9 then Some(NumberKey(index)) else None
    case Letter => if index <= 25 then Some(LetterKey(index)) else None
    case Unset => None
  }

  /** The action list after key assignment: every action the mode reaches gets the
      mode's key, whatever key it had, and every other action is unchanged. */
  function WithKeys(actions: seq<Action>, mode: KeyMode): (r: seq<Action>)
    ensures |r| == |actions|
  {
    seq(|actions|, i requires 0 <= i < |actions| =>
      match AutoKey(mode, i)
      case Some(k) => actions[i].(key := Some(k))
      case None => actions[i])
  }

  /** Key assignment, done in place on the caller's actions like the source's
      `forEach` loops. */
  method AssignKeys(actions: array<Action>, mode: KeyMode)
    modifies actions
    ensures actions[..] == WithKeys(old(actions[..]), mode)
  {
    if mode == Number {
      for index := 0 to actions.Length
        invariant forall i :: 0 <= i < index ==> actions[i] == WithKeys(old(actions[..]), mode)[i]
        invariant forall i :: index <= i < actions.Length ==> actions[i] == old(actions[i])
      {
        if index <= 9 {
          actions[index] := actions[index].(key := Some(NumberKey(index)));
        }
      }
    } else if mode == Letter {
      for index := 0 to actions.Length
        invariant forall i :: 0 <= i < index ==> actions[i] == WithKeys(old(actions[..]), mode)[i]
        invariant forall i :: index <= i < actions.Length ==> actions[i] == old(actions[i])
      {
        if index <= 25 {
          actions[index] := actions[index].(key := Some(LetterKey(index)));
        }
      }
    }
    assert actions[..] == WithKeys(old(actions[..]), mode);
  }

  /** `number` mode gives the first ten actions the keys "1".."9","0" in that order,
      replacing whatever key they had, and leaves every later action untouched;
      names and values never change. */
  lemma NumberModeKeys(actions: seq<Action>)
    ensures forall i :: 0 <= i < |actions| && i <= 9 ==>
      WithKeys(actions, Number)[i].key == Some(["1", "2", "3", "4", "5", "6", "7", "8", "9", "0"][i])
    ensures forall i :: 9 < i < |actions| ==> WithKeys(actions, Number)[i] == actions[i]
    ensures forall i :: 0 <= i < |actions| ==>
      WithKeys(actions, Number)[i].name == actions[i].name && WithKeys(actions, Number)[i].value == actions[i].value
  {
    forall i | 0 <= i < |actions| && i <= 9
      ensures WithKeys(actions, Number)[i].key == Some(["1", "2", "3", "4", "5", "6", "7", "8", "9", "0"][i])
    {
      assert NumberKey(i) == ["1", "2", "3", "4", "5", "6", "7", "8", "9", "0"][i];
    }
  }

  /** `letter` mode gives the first twenty-six actions the keys "a".."z" in order,
      replacing whatever key they had, and leaves every later action untouched. */
  lemma LetterModeKeys(actions: seq<Action>)
    ensures forall i :: 0 <= i < |actions| && i <= 25 ==>
      WithKeys(actions, Letter)[i].key == Some(["abcdefghijklmnopqrstuvwxyz"[i]])
    ensures forall i :: 25 < i < |actions| ==> WithKeys(actions, Letter)[i] == actions[i]
    ensures forall i :: 0 <= i < |actions| ==>
      WithKeys(actions, Letter)[i].name == actions[i].name && WithKeys(actions, Letter)[i].value == actions[i].value
  {
    forall i | 0 <= i < |actions| && i <= 25
      ensures WithKeys(actions, Letter)[i].key == Some(["abcdefghijklmnopqrstuvwxyz"[i]])
    {
      assert LetterKey(i) == ["abcdefghijklmnopqrstuvwxyz"[i]];
    }
  }

  /** Without a mode, the caller's keys are kept as they are. */
  lemma UnsetModeKeepsKeys(actions: seq<Action>)
    ensures WithKeys(actions, Unset) == actions
  {
  }

  /** The keys a mode assigns are pairwise distinct. */
  lemma AutoKeysDistinct(mode: KeyMode, i: nat, j: nat)
    requires i != j && AutoKey(mode, i).Some? && AutoKey(mode, j).Some?
    ensures AutoKey(mode, i) != AutoKey(mode, j)
  {
    assert AutoKey(mode, i).value[0] != AutoKey(mode, j).value[0];
  }

  /** Assigning keys twice is the same as assigning them once, so re-running the
      assignment on every render changes nothing after the first. */
  lemma WithKeysIdempotent(actions: seq<Action>, mode: KeyMode)
    ensures WithKeys(WithKeys(actions, mode), mode) == WithKeys(actions, mode)
  {
  }
}
