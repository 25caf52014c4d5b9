/**
 * The alarm settings: the list of user-uploaded alarm sounds and the id of
 * the selected one (`"default"` for the built-in sound). Deleting filters
 * the list by id; uploading checks the file size and appends.
 */
module Alarms {
  import opened Optional

  /** A user alarm; `data` is the encoded sound, opaque here. */
  datatype CustomAlarm = CustomAlarm(id: string, name: string, data: string)

  /** A chosen file: its name, its size in bytes and its encoded contents. */
  datatype AudioFile = AudioFile(name: string, size: nat, data: string)

  /** What a file choice led to: no file, a refusal for size, or a new alarm. */
  datatype UploadOutcome = NoFile | TooLarge | Added

  const DefaultAlarm: string := "default"

  /** The upload limit: 2 MiB. */
  const MaxUploadBytes: nat := 2 * 1024 * 1024

  /** `alarms.filter(a => a.id !== id)`. */
  function Without(alarms: seq<CustomAlarm>, id: string): (r: seq<CustomAlarm>)
    ensures forall a :: a in r <==> a in alarms && a.id != id
    ensures |r| <= |alarms|
    decreases |alarms|
  {
    if alarms == [] then []
    else if alarms[0].id == id then Without(alarms[1..], id)
    else [alarms[0]] + Without(alarms[1..], id)
  }

  /** The selection names the built-in sound or an alarm in the list. */
  predicate Resolves(alarms: seq<CustomAlarm>, selected: string) {
    selected == DefaultAlarm || exists a :: a in alarms && a.id == selected
  }

  /** Filtering a concatenation filters each part: the kept alarms stay in their order. */
  lemma {:induction false} WithoutAppend(xs: seq<CustomAlarm>, ys: seq<CustomAlarm>, id: string)
    ensures Without(xs + ys, id) == Without(xs, id) + Without(ys, id)
    decreases |xs|
  {
    if xs != [] {
      assert (xs + ys)[1..] == xs[1..] + ys;
      WithoutAppend(xs[1..], ys, id);
    } else {
      assert xs + ys == ys;
    }
  }

  /** A list with no alarm of that id is left exactly as it was. */
  lemma {:induction false} WithoutAbsent(alarms: seq<CustomAlarm>, id: string)
    requires forall a :: a in alarms ==> a.id != id
    ensures Without(alarms, id) == alarms
    decreases |alarms|
  {
    if alarms != [] {
      assert alarms[0] in alarms;
      assert forall a :: a in alarms[1..] ==> a in alarms;
      WithoutAbsent(alarms[1..], id);
      assert alarms == [alarms[0]] + alarms[1..];
    }
  }

  /** Exactly the alarms with that id are removed: every other one keeps its number of copies. */
  lemma {:induction false} WithoutCount(alarms: seq<CustomAlarm>, id: string, a: CustomAlarm)
    ensures multiset(Without(alarms, id))[a] == if a.id == id then 0 else multiset(alarms)[a]
    decreases |alarms|
  {
    if alarms != [] {
      WithoutCount(alarms[1..], id, a);
      assert alarms == [alarms[0]] + alarms[1..];
      assert multiset(alarms) == multiset([alarms[0]]) + multiset(alarms[1..]);
    }
  }

  /** Deleting keeps the selection meaningful: it falls back to the default when its alarm goes. */
  lemma DeleteKeepsSelectionResolved(alarms: seq<CustomAlarm>, selected: string, id: string)
    requires Resolves(alarms, selected)
    ensures Resolves(Without(alarms, id), if selected == id then DefaultAlarm else selected)
  {
  }

  class AlarmSettings {
    var customAlarms: seq<CustomAlarm>
    var selectedAlarm: string

    /**
     * The stored settings as loaded: a missing list is empty, and a missing
     * or empty selection is the built-in sound.
     */
    constructor (saved: Option<seq<CustomAlarm>>, savedSelection: Option<string>)
      ensures customAlarms == if saved.Some? then saved.value else []
      ensures selectedAlarm == if savedSelection.Some? && savedSelection.value != "" then savedSelection.value else DefaultAlarm
    {
      customAlarms := if saved.Some? then saved.value else [];
      selectedAlarm := if savedSelection.Some? && savedSelection.value != "" then savedSelection.value else DefaultAlarm;
    }

    method DeleteAlarm(id: string)
      modifies this
      ensures customAlarms == Without(old(customAlarms), id)
      ensures selectedAlarm == if old(selectedAlarm) == id then DefaultAlarm else old(selectedAlarm)
      ensures Resolves(old(customAlarms), old(selectedAlarm)) ==> Resolves(customAlarms, selectedAlarm)
    {
      ghost var before, was := customAlarms, selectedAlarm;
      customAlarms := Without(customAlarms, id);
      if selectedAlarm == id {
        selectedAlarm := DefaultAlarm;
      }
      if Resolves(before, was) {
        DeleteKeepsSelectionResolved(before, was, id);
      }
    }

    /**
     * A file choice: nothing without a file, a refusal above 2 MiB, else the
     * new alarm (with the id it is given) goes to the end of the list and is
     * selected.
     */
    method HandleFileChange(file: Option<AudioFile>, newId: string) returns (outcome: UploadOutcome)
      modifies this
      ensures outcome == if file.None? then NoFile else if file.value.size > MaxUploadBytes then TooLarge else Added
      ensures outcome != Added ==> customAlarms == old(customAlarms) && selectedAlarm == old(selectedAlarm)
      ensures outcome == Added ==>
        && customAlarms == old(customAlarms) + [CustomAlarm(newId, file.value.name, file.value.data)]
        && selectedAlarm == newId
      ensures Resolves(old(customAlarms), old(selectedAlarm)) ==> Resolves(customAlarms, selectedAlarm)
      ensures outcome == Added ==> Resolves(customAlarms, selectedAlarm)
    {
      if file.None? {
        return NoFile;
      }
      if file.value.size > MaxUploadBytes {
        return TooLarge;
      }
      var newAlarm := CustomAlarm(newId, file.value.name, file.value.data);
      customAlarms := customAlarms + [newAlarm];
      selectedAlarm := newAlarm.id;
      assert newAlarm in customAlarms;
      outcome := Added;
    }
  }
}
