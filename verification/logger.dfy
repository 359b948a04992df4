/** The interaction log: the follow-up date planned for a sent mail, and the
    JSON list on disk that every logged interaction is appended to. */
module InteractionLogger {
  import opened Wrappers
  import opened Json
  import opened Clock

  const FollowupDays: int := 5

  /** `plan_followup(sent_time)`: five days after the mail went out. */
  function PlanFollowup(sent: DateTime): (r: DateTime)
    ensures r.time == sent.time
  {
    AddDays(sent, FollowupDays)
  }

  /** The follow-up is exactly five days, and so strictly, after the sent
      time, on the weekday five days on. */
  lemma FollowupFiveDaysLater(sent: DateTime)
    ensures Stamp(PlanFollowup(sent)) == Stamp(sent) + 5 * MicrosPerDay
    ensures Stamp(sent) < Stamp(PlanFollowup(sent))
    ensures Weekday(PlanFollowup(sent).day) == (Weekday(sent.day) + 5) % 7
  {
  }

  /** What the log file holds after `entry` is logged: a file that does not
      exist is started as a one-entry list; a list gets the entry at its
      end; anything else makes `append` raise, and the file stays as it
      was. */
  function Appended(file: Option<Json>, entry: Json): (r: Option<Json>)
    ensures r.Some?
  {
    match file
    case None => Some(Arr([entry]))
    case Some(Arr(items)) => Some(Arr(items + [entry]))
    case Some(_) => file
  }

  /** Logging to a missing file leaves a list holding only the entry. */
  lemma AppendedToMissing(entry: Json)
    ensures Appended(None, entry) == Some(Arr([entry]))
    ensures |Appended(None, entry).value.items| == 1
  {
  }

  /** Logging to a list puts the entry last and keeps every earlier entry,
      unchanged and in order. */
  lemma AppendedKeepsEarlier(items: seq<Json>, entry: Json)
    ensures var r := Appended(Some(Arr(items)), entry).value;
      r.Arr? && |r.items| == |items| + 1 && r.items[|items|] == entry && r.items[..|items|] == items
  {
  }

  /** Only a file that is not a list is left alone. */
  lemma AppendedChangesLists(file: Option<Json>, entry: Json)
    ensures Appended(file, entry) == file <==> file.Some? && !file.value.Arr?
  {
    if file.Some? && file.value.Arr? {
      assert |Appended(file, entry).value.items| == |file.value.items| + 1;
    }
  }

  /** The log file at `path`: `None` while it does not exist. */
  class LogFile {
    var content: Option<Json>

    constructor (initial: Option<Json>)
      ensures content == initial
    {
      content := initial;
    }

    /** `log_interaction(entry, path)`: read, append, write back. A failure
        is reported (`logged` is false) and swallowed, never raised. */
    method LogInteraction(entry: Json) returns (logged: bool)
      modifies this
      ensures content == Appended(old(content), entry)
      ensures logged <==> old(content).None? || old(content).value.Arr?
    {
      var logs: seq<Json>;
      if content.None? {
        logs := [];
        assert logs + [entry] == [entry];
      } else if content.value.Arr? {
        logs := content.value.items;
      } else {
        return false;
      }
      logs := logs + [entry];
      content := Some(Arr(logs));
      return true;
    }
  }
}
