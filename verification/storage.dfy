/** The local-storage helpers of script.js. The `'tasks'` slot is modelled
    by the list it holds once decoded, or `None` while the key is absent;
    the JSON encoding in between is not modelled. */
module Storage {
  import opened Wrappers
  import opened Sequences

  /** The `'tasks'` slot: absent, or holding a list of strings. */
  type Slot = Option<seq<string>>

  /** `getStoredTasks`: the stored list, with an absent slot read as the
      empty list. */
  function GetStoredTasks(slot: Slot): (tasks: seq<string>)
    ensures slot == None ==> tasks == []
    ensures slot.Some? ==> tasks == slot.value
  {
    slot.GetOr([])
  }

  /** `setStoredTasks`: overwrites the whole slot. */
  function SetStoredTasks(tasks: seq<string>): (slot: Slot)
    ensures slot == Some(tasks)
  {
    Some(tasks)
  }

  /** Writing a list and reading it back gives the same list. */
  lemma StoredRoundTrip(tasks: seq<string>)
    ensures GetStoredTasks(SetStoredTasks(tasks)) == tasks
  {
  }

  /** `saveTask`: read, push, write back. The slot is present afterwards,
      one longer, with the old contents as an unchanged prefix and the new
      text last. */
  function SaveTask(slot: Slot, text: string): (r: Slot)
    ensures r.Some?
    ensures |GetStoredTasks(r)| == |GetStoredTasks(slot)| + 1
    ensures GetStoredTasks(r)[..|GetStoredTasks(slot)|] == GetStoredTasks(slot)
    ensures GetStoredTasks(r)[|GetStoredTasks(slot)|] == text
  {
    var tasks := GetStoredTasks(slot);
    SetStoredTasks(tasks + [text])
  }

  /** `removeTaskFromStorage`: when `text` is stored, the slot afterwards
      holds the stored list with its first `text` removed; otherwise nothing
      is written and the slot is exactly as it was (an absent slot stays
      absent). */
  function RemoveTaskFromStorage(slot: Slot, text: string): (r: Slot)
    ensures text !in GetStoredTasks(slot) ==> r == slot
    ensures text in GetStoredTasks(slot) ==>
      && r.Some?
      && GetStoredTasks(r) == RemoveFirst(GetStoredTasks(slot), text)
  {
    var tasks := GetStoredTasks(slot);
    var idx := IndexOf(tasks, text);
    if idx > -1 then
      SpliceIndexOfIsRemoveFirst(tasks, text);
      SetStoredTasks(Splice(tasks, idx))
    else
      slot
  }

  /** Removal from storage deletes exactly the element at the least index
      holding `text`: everything before it stays in place, everything after
      it moves one place down, and the list is one shorter. */
  lemma RemoveDeletesFirstOccurrence(slot: Slot, text: string, i: nat)
    requires i < |GetStoredTasks(slot)|
    requires GetStoredTasks(slot)[i] == text && text !in GetStoredTasks(slot)[..i]
    ensures GetStoredTasks(RemoveTaskFromStorage(slot, text))
         == GetStoredTasks(slot)[..i] + GetStoredTasks(slot)[i + 1..]
  {
    RemoveFirstAtLeastIndex(GetStoredTasks(slot), text, i);
  }
}
