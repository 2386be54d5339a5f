# Lecture reminder bot: scheduling core

A Dafny model of the reminder core of a Telegram bot that reminds the
members of lecture channels shortly before each lecture. Once an hour the
bot reads a calendar feed and schedules a one-shot job for every event
whose begin time passes its window test. As written, that test accepts the
next clock hour plus a stretch of the hour after it, so an event can be
accepted by two consecutive runs (see Findings). The model keeps both the
test as written and a corrected test that accepts exactly the next clock hour. The job runs at a local "HH:mm" time a
configured number of minutes before the event. When it runs, it posts the
event's description to the channel named after the event, if that channel
is registered. Channel admins add and remove channels in the registry
(`class_info`) by posting `/register` or `/delete` together with the bot
password. Users can list the registered channels as buttons.

Modules:

- `Wrappers` (wrappers.dfy): `Option`.
- `Clock` (clock.dfy): integer time.
  - Timestamps are UTC seconds. Local time is UTC plus a fixed offset in seconds.
  - The hour floor, and the selection window as written, with its two
    clock readings.
  - The corrected selection window (see Findings), and `Window`, which
    names one of the two for an update run.
  - Time of day floored to the minute.
  - The zero-padded "HH:mm" formatter, with a strict parser that serves as
    its inverse.
  - The fire time of a reminder.
- `Text` (text.dfy): Python's substring test `pattern in text`. It is proved
  equal to "occurs at some position".
- `Registry` (registry.dfy): the channel registry as class `ChannelRegistry`.
  - A `map` from channel title to invite link and chat id.
  - A `seq` of its keys in insertion order, because a Python dict iterates
    in that order.
  - The command gate of `manage_channel`, `send_reminder` and `create_buttons`.
- `Reminders` (reminders.dfy): calendar `Event`s and scheduler `Job`s.
  - The specification functions `Selected` (which events an update run
    picks) and `NewJobs` (which jobs it appends), for either window.
  - The job list as class `JobList`, whose `UpdateEvents` and `RunJob`
    change it in place.

Each job carries an identity `id`: the scheduler's job objects are distinct
even when their fields are equal. This makes it possible to say that a fired
job never runs again. `JobList.Valid()` keeps three facts:
- identities are distinct;
- every identity is below the counter that numbers new jobs;
- every fire time is a well-formed "HH:mm".

Three facts about the code that the model keeps:
- An update run appends its jobs without deduplication: a job equal to a
  pending one is added again.
- Deleting an absent channel raises `KeyError`, because `dict.pop` is
  called without a default.
- Deleting a channel does not cancel its queued jobs. Such a job still runs
  later, finds no channel, sends nothing, and is removed.

## Model

| member | source | states |
|---|---|---|
| `Clock.FloorHour` | main.py:38 | The floored hour is a multiple of 3600 and at most one hour below the time, never above it. |
| `Clock.InWindow` | main.py:38-43 | The test as written, with lo the reading of line 38 and hi the later reading of line 43. When lo ≤ hi it accepts everything the corrected test accepts. Anything else it accepts lies in [floor_hour(lo)+2h, hi+2h). |
| `Clock.WindowEdges` | main.py:43 | As written, the window includes its lower edge floor_hour(lo)+1h and excludes the second before it and its upper edge hi+2h. |
| `Clock.WindowCovers` | main.py:38-43 | As written, the window contains [lo+1h, hi+2h) at any moment within the hour. |
| `Clock.WindowWidth` | main.py:38-43 | As written, the window is 1h plus the seconds past the hour at the first reading plus the seconds between the readings wide. It is exactly 1h only on the hour with no time passing, and more than 1h once the second reading is past the hour boundary. |
| `Clock.ExactHourlyRunsAdjacent` | main.py:38-43 | Only under the assumption that no time passes between the two readings: two runs exactly on consecutive hour boundaries have disjoint windows whose union is [now+1h, now+3h). |
| `Clock.LateRunsOverlap` | main.py:38-43 | As written, take any run whose second reading is past its hour boundary, and any run in the following clock hour. Both select an event that begins two hours after the first boundary. |
| `Clock.InHourWindow` | main.py:42-43 | Corrected window: an event is selected exactly when it begins in the clock hour after the one containing now. |
| `Clock.HourlyRunsSelectOnce` | main.py:43 | Corrected window: take one run in each hour from t0 on, at any moment within its hour. Every begin time at or after t0+1h is selected by exactly one of these runs, the one named in the lemma. |
| `Clock.ConsecutiveRunsOverlap` | main.py:38-43 | Runs in consecutive clock hours, the later one reading the clock later. With the corrected window no begin time passes both tests. As written, exactly the begin times in [floor_hour(lo1)+2h, hi1+2h) pass both. |
| `Clock.TimeOfDay` | main.py:45-46 | The local time of day, floored to the minute: 0 ≤ hour < 24, 0 ≤ minute < 60, and the seconds since midnight lie within that minute. |
| `Clock.TwoDigits` | main.py:46 | Two decimal digits, zero-padded, whose value is the number. |
| `Clock.FormatHHmm` | main.py:46 | The formatted time has five characters: two digits, ':', two digits. The hour's first digit is at most 2 and the minute's first digit is at most 5. |
| `Clock.FormatThenParse` | main.py:44-46 | Reading a formatted time of day gives back that time of day. |
| `Clock.ParseThenFormat` | main.py:44-46 | Every string that reads as a valid "HH:mm" is the formatting of what it reads as. |
| `Clock.FireTime` | main.py:45-46 | The fire time is a well-formed "HH:mm" of length 5. Its hour and minute are the local time of day of begin + offset - 60·reminderMinutes, floored to the minute. |
| `Text.Contains` | main.py:137-138 | The substring test is true exactly when the pattern occurs at some position of the text. |
| `Text.EmptyPatternAlwaysContained` | main.py:137 | The empty string occurs in every text, so an empty password passes the gate for every post. |
| `Registry.Classify` | main.py:137-148 | If the password does not occur, the post is refused. Otherwise `/register` is chosen whenever it occurs, and `/delete` only when `/register` does not occur. |
| `Registry.Without` | main.py:149 | Deleting a title from the key order removes exactly that title and keeps every other title. If the title is absent, the order is unchanged. |
| `Registry.WithoutAt` | main.py:149 | In a key order without repetitions, deleting a title removes exactly its one position. The others keep their order and stay unrepeated. |
| `Registry.ChannelRegistry.constructor` | main.py:162 | The registry starts empty. |
| `Registry.ChannelRegistry.Register` | main.py:139-142 | `registry[title]` becomes the new entry (last write wins) and all other keys are unchanged. A new title goes to the end of the iteration order. A title already present keeps its place. |
| `Registry.ChannelRegistry.Delete` | main.py:149 | `found` holds exactly when the title was registered. Only the title is removed and the rest of the order is kept. For an absent title nothing changes. |
| `Registry.ChannelRegistry.ManageChannel` | main.py:135-158 | Password and `/register`: the entry (invite link, chat id) is stored. Otherwise password and `/delete`: the title is removed, or `KeyError` if it is absent, with the registry unchanged. No password: "wrong password" and the registry unchanged. Password but no command: the registry unchanged. |
| `Registry.ChannelRegistry.SendReminder` | main.py:28-32 | A message is sent exactly when the channel is a registry key, to that entry's chat id with the given text. The outcome is `CancelJob` in both cases. |
| `Registry.ChannelRegistry.CreateButtons` | main.py:55-64 | One button per registry entry, in the dict's insertion order: the k-th button is labelled with the k-th inserted title and opens that entry's invite link. No title is repeated and every registered title has a button. |
| `Reminders.Selected` | main.py:39-43 | The events an update run keeps, for the given window, in feed order. There are never more of them than events in the feed. |
| `Reminders.SelectedCount` | main.py:39-43 | For either window, an update run keeps each event its window accepts as many times as the feed lists it, and drops every other event. |
| `Reminders.MakeJob` | main.py:44-51 | The job for an event runs `send_reminder` with channel = event name and text = event description, at a well-formed "HH:mm" fire time, and gets the given identity. |
| `Reminders.NewJobs` | main.py:39-51 | The jobs an update run appends for the given window, in feed order. It has no contract of its own; what its result is (one job per selected event, its fields and identities) is stated by `NewJobsMatchSelected`, and how it splits over a feed by `NewJobsAppend` and `NewJobsSnoc`. |
| `Reminders.NewJobsMatchSelected` | main.py:43-51 | For either window, an update run creates exactly one job per selected event, in feed order. The k-th job has the channel = event name, the payload = event description and the fire time of that event's begin. Its identity is firstId+k. |
| `Reminders.SelectedAppend` | main.py:39-43 | For either window, selecting from a feed in two parts gives the first part's selection followed by the second part's. |
| `Reminders.NewJobsAppend` | main.py:39-51 | For either window, processing a feed in two parts gives the first part's jobs followed by the second part's, numbered on from the first. |
| `Reminders.NewJobsSnoc` | main.py:43-51 | For either window, an event the window rejects adds no job, and an event it accepts adds exactly its one job. |
| `Reminders.UpdateStep` | main.py:39-51 | One step of the loop over the feed: if the list is the pending jobs followed by the jobs of the first i events, then after event i it is the pending jobs followed by the jobs of the first i+1, with event i's job (numbered with the counter) appended exactly when the window accepts it, and the counter moved on exactly then. |
| `Reminders.NewJobsFresh` | main.py:44-51 | New jobs get identities at or above the counter, so no removed job is ever created again. |
| `Reminders.ConsecutiveRunsShare` | main.py:38-43 | Two update runs in consecutive clock hours, over the same feed, the later one reading the clock later. With the corrected window they never both select an event. As written, they both select exactly the feed's events that begin in [floor_hour(lo1)+2h, hi1+2h). |
| `Reminders.JobList.constructor` | main.py:2 | The module-level scheduler of the imported `schedule` library starts with no reminder jobs, and the identity counter at zero. The hourly update job of line 174 is not a reminder job and is not in this list. |
| `Reminders.JobList.UpdateEvents` | main.py:36-52 | For the given window (`AsWritten` is the program, `Corrected` the fix in Findings), the job list becomes the old list followed by `NewJobs` of the snapshot, and the counter moves on by the number of selected events. Pending jobs are untouched, nothing is deduplicated, and the validity invariant is kept. |
| `Reminders.JobList.RunJob` | main.py:28-32 | Running a due job sends exactly what `SendReminder` decides. Because the outcome is `CancelJob`, exactly that job leaves the list and no remaining job carries its identity. |
| `Reminders.HourlyRunsOnLecture` | main.py:38-51 | A lecture at 02:00 and runs at 00:00 and 01:00 whose tests read the clock 5 s after the start: as written the job list ends with two jobs for it, with the corrected window with one. |

## Left out

- Telegram calls are not modelled: send_message, delete_message, polling, set_my_commands and the confirmation and error replies. A send is the value `Sent(chatId, text)`. The invite link from export_chat_invite_link is a parameter of `ManageChannel`.
- Fetching and parsing the calendar feed are not modelled. An update run takes the parsed events as a sequence. The parser's event collection has no guaranteed order, so the sequence order stands in for it.
- The schedule library is not modelled: next-run computation for daily "at" jobs, `run_pending`, and the hourly trigger of the update run. `RunJob` takes the position of a job that is due; which jobs are due is an input.
- Real time-zone conversion (`to('local')`) is not modelled. Local time is UTC plus a fixed offset in seconds. Times are whole seconds; the sub-second part of the clock is not modelled.
- Clock.InWindow: line 38 reads the clock once before the fetch, and line 43 reads it again, after the fetch, for each event that passes the lower edge (the chained comparison evaluates `utcnow()` only then). The model gives each run one first reading `lo` and one later reading `hi` with lo ≤ hi, shared by all events of the run, so it does not capture the readings growing from event to event. `ExactHourlyRunsAdjacent` holds only when hi == lo, that is, when no time passes; `LateRunsOverlap` and `ConsecutiveRunsOverlap` state what happens when it does.
- Reminders.JobList.RunJob, Reminders.JobList.UpdateEvents: a failing send or a failing feed fetch is not modelled. In the code such an exception escapes the job function. Neither `run_pending` nor the main loop (main.py:176-178) catches it, so scheduling stops for good and the failing job is never cancelled.
- The polling retry loop, the polling thread, the main loop and its sleeps are left out: they concern concurrency and reconnection. The registry is changed only through its methods, one call at a time.
- The admin, help, start and classes reply handlers and password change are left out: they only send messages. So is configuration loading, including the `setup(save_changes=True)` call, which passes a parameter `setup` does not take.
- Registry.ChannelRegistry.ManageChannel: the `KeyError` of line 149 is returned as a result, with the registry unchanged. It is not an exception that escapes the handler.
- Logging prints are left out.
- Clock.ParseHHmm is a strict reading of "HH:mm", used only as the inverse of the formatter. It rejects the seconds form "HH:mm:ss" and anything else the schedule library's `at` may accept; that parser is not part of this model.

## Findings

| source | as written | input that shows it | evidently intended | confidence | as-written member | corrected member |
|---|---|---|---|---|---|---|
| main.py:38-43 | The window's lower edge `floor_hour(now) + 1h` comes from the floored reading of line 38, but its upper edge `utcnow() + 2h` comes from a fresh, unfloored reading taken after the fetch. | The hourly runs at 00:00 and 01:00, whose tests read the clock at 00:00:05 and 01:00:05, both select an event beginning at 02:00:00: two jobs are scheduled and the reminder is sent twice (`HourlyRunsOnLecture`: two jobs as written, one corrected). Any time past the hour boundary at the second reading, even below a second, has this effect on events that begin on the hour. | Both edges come from the floored reading, `floor_hour(now) + 1h <= begin < floor_hour(now) + 2h`: each run covers exactly the next clock hour, matching the comment "begins within the next hour". | high; not executed | `Clock.InWindow`, `Clock.LateRunsOverlap`, `Reminders.HourlyRunsOnLecture` | `Clock.InHourWindow`, `Clock.HourlyRunsSelectOnce`, `Reminders.ConsecutiveRunsShare` |
