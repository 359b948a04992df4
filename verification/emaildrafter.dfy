/** The mail drafter's rules: when to send, and the interaction-log entry
    written for each drafted mail. The text itself comes from the language
    model and is a parameter here. */
module EmailDrafter {
  import opened Wrappers
  import opened Json
  import opened Strings
  import opened Clock
  import opened InteractionLogger

  const Saturday: nat := 5
  const StartHour: nat := 9
  const EndHour: nat := 18

  /** `suggest_optimal_time()` for the current time `now`. */
  function SuggestOptimalTime(now: DateTime): (r: DateTime)
    ensures now.day <= r.day <= now.day + 2
    ensures r == now || r.time == OClock(StartHour)
  {
    var wd := Weekday(now.day);
    if wd >= Saturday || Hour(now.time) >= EndHour then
      DateTime(now.day + (if wd >= Saturday then 7 - wd else 1), OClock(StartHour))
    else if Hour(now.time) < StartHour then
      DateTime(now.day, OClock(StartHour))
    else now
  }

  /** On Saturday or Sunday the mail goes out at 09:00 on the Monday that
      follows. */
  lemma WeekendGoesToMonday(now: DateTime)
    requires Weekday(now.day) >= Saturday
    ensures var r := SuggestOptimalTime(now);
      Weekday(r.day) == 0 && now.day < r.day <= now.day + 2 && r.time == OClock(StartHour)
  {
    var wd := Weekday(now.day);
    var q := (now.day + 6) / 7;
    assert now.day + 6 == 7 * q + wd;
    assert now.day + (7 - wd) + 6 == 7 * (q + 1);
  }

  /** Monday to Friday from 18:00 on, it goes out at 09:00 the next calendar
      day, which for a Friday is a Saturday. */
  lemma EveningGoesToNextDay(now: DateTime)
    requires Weekday(now.day) < Saturday && Hour(now.time) >= EndHour
    ensures SuggestOptimalTime(now) == DateTime(now.day + 1, OClock(StartHour))
    ensures Weekday(now.day) == 4 ==> Weekday(SuggestOptimalTime(now).day) == Saturday
  {
    WeekdayNext(now.day);
  }

  /** Monday to Friday before 09:00, it goes out at 09:00 the same day; from
      09:00 to 17:59 it goes out at once. */
  lemma WeekdayDaytime(now: DateTime)
    requires Weekday(now.day) < Saturday && Hour(now.time) < EndHour
    ensures Hour(now.time) < StartHour ==> SuggestOptimalTime(now) == DateTime(now.day, OClock(StartHour))
    ensures Hour(now.time) >= StartHour ==> SuggestOptimalTime(now) == now
  {
  }

  /** The suggestion is never earlier than now, and whenever it is not now
      it is 09:00:00 sharp. */
  lemma SuggestionNotEarlier(now: DateTime)
    ensures Stamp(now) <= Stamp(SuggestOptimalTime(now))
    ensures SuggestOptimalTime(now) != now ==> SuggestOptimalTime(now).time == OClock(StartHour)
  {
    var r := SuggestOptimalTime(now);
    if r.day > now.day {
      LaterDayLater(now, r);
    } else if r != now {
      assert now.time < OClock(StartHour);
    }
  }

  /** The log entry `draft_email` writes for a drafted mail, sent at `now`.
      The time stamps are written by `isoformat`, a parameter here. */
  function LogEntry(
    studentName: string, profName: string, profInterest: string, goal: string, extra: string,
    reply: string, now: DateTime, isoformat: DateTime -> string): (r: Record)
    ensures r.Keys == {"student_name", "professor_name", "professor_interest", "professor_email", "goal",
                       "extra_note", "email_text", "sent_time", "followup_time", "responded"}
  {
    map[
      "student_name" := Str(studentName),
      "professor_name" := Str(profName),
      "professor_interest" := Str(profInterest),
      "professor_email" := Str("UNKNOWN"),
      "goal" := Str(goal),
      "extra_note" := Str(extra),
      "email_text" := Str(Strip(reply)),
      "sent_time" := Str(isoformat(now)),
      "followup_time" := Str(isoformat(PlanFollowup(now))),
      "responded" := Bool(false)
    ]
  }

  /** The entry marks the mail as unanswered with an unknown address, and
      its follow-up is the time five days after the sent time. */
  lemma LogEntryFollowup(
    studentName: string, profName: string, profInterest: string, goal: string, extra: string,
    reply: string, now: DateTime, isoformat: DateTime -> string)
    ensures var e := LogEntry(studentName, profName, profInterest, goal, extra, reply, now, isoformat);
      e["responded"] == Bool(false) && e["professor_email"] == Str("UNKNOWN") &&
      e["sent_time"] == Str(isoformat(now)) &&
      (exists t: DateTime :: Stamp(t) == Stamp(now) + 5 * MicrosPerDay && e["followup_time"] == Str(isoformat(t)))
  {
    FollowupFiveDaysLater(now);
    var t := PlanFollowup(now);
    assert LogEntry(studentName, profName, profInterest, goal, extra, reply, now, isoformat)["followup_time"] == Str(isoformat(t));
  }

  /** The logging step of `draft_email`: the entry is appended to the log
      file and the trimmed reply is returned. */
  method DraftEmail(
    log: LogFile, studentName: string, profName: string, profInterest: string, goal: string, extra: string,
    reply: string, now: DateTime, isoformat: DateTime -> string)
    returns (emailText: string)
    modifies log
    ensures emailText == Strip(reply)
    ensures log.content == Appended(old(log.content),
      Obj(LogEntry(studentName, profName, profInterest, goal, extra, reply, now, isoformat)))
  {
    emailText := Strip(reply);
    var entry := LogEntry(studentName, profName, profInterest, goal, extra, reply, now, isoformat);
    var _ := log.LogInteraction(Obj(entry));
  }
}
