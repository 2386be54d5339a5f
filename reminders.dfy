/**
 * The pending reminder jobs: each hourly update run turns the calendar
 * events of the coming hour into one-shot jobs, and a job that runs sends
 * its reminder (if its channel is registered) and is removed.
 *
 * An update run is described by the window it applies (`Clock.AsWritten`,
 * the test of the program, or `Clock.Corrected`), the clock reading `lo`
 * taken before the fetch and the later reading `hi` the test takes.
 */
module Reminders {
  import opened Wrappers
  import Clock
  import Registry

  /** A calendar event; its name is the title of the channel it belongs to. */
  datatype Event = Event(name: string, description: string, begin: int)

  /**
   * A job of the scheduler: run `send_reminder(channel, payload)` at local
   * time `at`. `id` is the job's identity, which the scheduler's job
   * objects have even when two of them carry equal fields.
   */
  datatype Job = Job(id: nat, at: string, channel: string, payload: string)

  /** The events an update run selects, in feed order. */
  function Selected(w: Clock.Window, events: seq<Event>, lo: int, hi: int): (r: seq<Event>)
    ensures |r| <= |events|
  {
    if events == [] then []
    else
      var rest := Selected(w, events[1..], lo, hi);
      if Clock.Selects(w, lo, hi, events[0].begin) then [events[0]] + rest else rest
  }

  /**
   * Selection keeps each event the window accepts as often as the feed
   * lists it and drops every other event.
   */
  lemma {:induction false} SelectedCount(w: Clock.Window, events: seq<Event>, lo: int, hi: int, e: Event)
    ensures multiset(Selected(w, events, lo, hi))[e] ==
      if Clock.Selects(w, lo, hi, e.begin) then multiset(events)[e] else 0
  {
    if events != [] {
      SelectedCount(w, events[1..], lo, hi, e);
      assert events == [events[0]] + events[1..];
      assert multiset(events) == multiset{events[0]} + multiset(events[1..]);
    }
  }

  /** The job an update run creates for a selected event. */
  function MakeJob(id: nat, e: Event, utcOffset: int, reminderMinutes: int): (j: Job)
    ensures j.id == id && j.channel == e.name && j.payload == e.description && Clock.IsHHmm(j.at)
  {
    Job(id, Clock.FireTime(e.begin, utcOffset, reminderMinutes), e.name, e.description)
  }

  /** The jobs an update run appends, numbered from `firstId`. */
  function NewJobs(w: Clock.Window, events: seq<Event>, lo: int, hi: int, utcOffset: int, reminderMinutes: int,
                   firstId: nat): seq<Job>
  {
    if events == [] then []
    else if Clock.Selects(w, lo, hi, events[0].begin) then
      [MakeJob(firstId, events[0], utcOffset, reminderMinutes)]
        + NewJobs(w, events[1..], lo, hi, utcOffset, reminderMinutes, firstId + 1)
    else
      NewJobs(w, events[1..], lo, hi, utcOffset, reminderMinutes, firstId)
  }

  /**
   * One job per selected event, in the same order: the k-th new job fires
   * at that event's fire time, on the channel named after the event, with
   * the event's description as its text, and has identity firstId + k.
   */
  lemma {:induction false} NewJobsMatchSelected(w: Clock.Window, events: seq<Event>, lo: int, hi: int,
                                                utcOffset: int, reminderMinutes: int, firstId: nat)
    ensures var jobs := NewJobs(w, events, lo, hi, utcOffset, reminderMinutes, firstId);
      var sel := Selected(w, events, lo, hi);
      |jobs| == |sel| &&
      forall k :: 0 <= k < |sel| ==>
        jobs[k].id == firstId + k && jobs[k].channel == sel[k].name && jobs[k].payload == sel[k].description &&
        jobs[k].at == Clock.FireTime(sel[k].begin, utcOffset, reminderMinutes)
  {
    if events != [] {
      var selected := Clock.Selects(w, lo, hi, events[0].begin);
      var next := if selected then firstId + 1 else firstId;
      NewJobsMatchSelected(w, events[1..], lo, hi, utcOffset, reminderMinutes, next);
      var jobs := NewJobs(w, events, lo, hi, utcOffset, reminderMinutes, firstId);
      var sel := Selected(w, events, lo, hi);
      var restJobs := NewJobs(w, events[1..], lo, hi, utcOffset, reminderMinutes, next);
      var restSel := Selected(w, events[1..], lo, hi);
      if selected {
        assert jobs == [MakeJob(firstId, events[0], utcOffset, reminderMinutes)] + restJobs;
        assert sel == [events[0]] + restSel;
        forall k | 0 <= k < |sel|
          ensures jobs[k].id == firstId + k && jobs[k].channel == sel[k].name && jobs[k].payload == sel[k].description
          ensures jobs[k].at == Clock.FireTime(sel[k].begin, utcOffset, reminderMinutes)
        {
          if k > 0 {
            assert jobs[k] == restJobs[k - 1] && sel[k] == restSel[k - 1];
          }
        }
      } else {
        assert jobs == restJobs && sel == restSel;
      }
    }
  }

  /**
   * Every job an update run creates has an identity from firstId on, so a
   * job removed earlier (whose identity is below the counter) is never
   * created again.
   */
  lemma NewJobsFresh(w: Clock.Window, events: seq<Event>, lo: int, hi: int, utcOffset: int, reminderMinutes: int,
                     firstId: nat)
    ensures forall j :: j in NewJobs(w, events, lo, hi, utcOffset, reminderMinutes, firstId) ==>
      firstId <= j.id < firstId + |Selected(w, events, lo, hi)|
  {
    NewJobsMatchSelected(w, events, lo, hi, utcOffset, reminderMinutes, firstId);
  }

  /** Selecting from two parts of a feed is selecting from each part in turn. */
  lemma {:induction false} SelectedAppend(w: Clock.Window, a: seq<Event>, b: seq<Event>, lo: int, hi: int)
    ensures Selected(w, a + b, lo, hi) == Selected(w, a, lo, hi) + Selected(w, b, lo, hi)
  {
    if a == [] {
      assert a + b == b;
    } else {
      assert (a + b)[0] == a[0] && (a + b)[1..] == a[1..] + b;
      SelectedAppend(w, a[1..], b, lo, hi);
    }
  }

  /**
   * The jobs for two parts of a feed are the first part's jobs followed by
   * the second part's, numbered on from the first.
   */
  lemma {:induction false} NewJobsAppend(w: Clock.Window, a: seq<Event>, b: seq<Event>, lo: int, hi: int,
                                         utcOffset: int, reminderMinutes: int, firstId: nat)
    ensures NewJobs(w, a + b, lo, hi, utcOffset, reminderMinutes, firstId) ==
      NewJobs(w, a, lo, hi, utcOffset, reminderMinutes, firstId)
        + NewJobs(w, b, lo, hi, utcOffset, reminderMinutes, firstId + |Selected(w, a, lo, hi)|)
  {
    if a == [] {
      assert a + b == b;
    } else {
      assert (a + b)[0] == a[0] && (a + b)[1..] == a[1..] + b;
      var next := if Clock.Selects(w, lo, hi, a[0].begin) then firstId + 1 else firstId;
      NewJobsAppend(w, a[1..], b, lo, hi, utcOffset, reminderMinutes, next);
    }
  }

  /** An event the window rejects adds no job; one it accepts adds exactly one. */
  lemma NewJobsSnoc(w: Clock.Window, events: seq<Event>, e: Event, lo: int, hi: int, utcOffset: int,
                    reminderMinutes: int, firstId: nat)
    ensures var before := NewJobs(w, events, lo, hi, utcOffset, reminderMinutes, firstId);
      var id := firstId + |Selected(w, events, lo, hi)|;
      NewJobs(w, events + [e], lo, hi, utcOffset, reminderMinutes, firstId) ==
        if Clock.Selects(w, lo, hi, e.begin) then before + [MakeJob(id, e, utcOffset, reminderMinutes)] else before
    ensures |Selected(w, events + [e], lo, hi)| ==
      |Selected(w, events, lo, hi)| + if Clock.Selects(w, lo, hi, e.begin) then 1 else 0
  {
    SelectedAppend(w, events, [e], lo, hi);
    NewJobsAppend(w, events, [e], lo, hi, utcOffset, reminderMinutes, firstId);
    assert [e][1..] == [];
  }

  /**
   * One step of an update run's loop over the feed: if the jobs so far are
   * those of the first i events, then after event i they are those of the
   * first i + 1, with event i's job appended exactly when the window
   * accepts it.
   */
  lemma UpdateStep(w: Clock.Window, events: seq<Event>, i: int, lo: int, hi: int, utcOffset: int,
                   reminderMinutes: int, firstId: nat, pending: seq<Job>, jobs: seq<Job>, nextId: nat)
    requires 0 <= i < |events|
    requires jobs == pending + NewJobs(w, events[..i], lo, hi, utcOffset, reminderMinutes, firstId)
    requires nextId == firstId + |Selected(w, events[..i], lo, hi)|
    ensures Clock.Selects(w, lo, hi, events[i].begin) ==>
      && jobs + [MakeJob(nextId, events[i], utcOffset, reminderMinutes)] ==
           pending + NewJobs(w, events[..i + 1], lo, hi, utcOffset, reminderMinutes, firstId)
      && nextId + 1 == firstId + |Selected(w, events[..i + 1], lo, hi)|
    ensures !Clock.Selects(w, lo, hi, events[i].begin) ==>
      && jobs == pending + NewJobs(w, events[..i + 1], lo, hi, utcOffset, reminderMinutes, firstId)
      && nextId == firstId + |Selected(w, events[..i + 1], lo, hi)|
  {
    assert events[..i + 1] == events[..i] + [events[i]];
    NewJobsSnoc(w, events[..i], events[i], lo, hi, utcOffset, reminderMinutes, firstId);
  }

  /**
   * What two update runs in consecutive clock hours both select from the
   * same feed: with the corrected window no event at all; as written,
   * exactly the events beginning in [floor_hour(lo1) + 2h, hi1 + 2h).
   */
  lemma ConsecutiveRunsShare(w: Clock.Window, events: seq<Event>, lo1: int, hi1: int, lo2: int, hi2: int, e: Event)
    requires Clock.FloorHour(lo2) == Clock.FloorHour(lo1) + Clock.HOUR && lo2 <= hi2 && hi1 <= hi2
    ensures e in Selected(w, events, lo1, hi1) && e in Selected(w, events, lo2, hi2) <==>
      e in events && w == Clock.AsWritten &&
      Clock.FloorHour(lo1) + 2 * Clock.HOUR <= e.begin < hi1 + 2 * Clock.HOUR
  {
    SelectedCount(w, events, lo1, hi1, e);
    SelectedCount(w, events, lo2, hi2, e);
    Clock.ConsecutiveRunsOverlap(w, lo1, hi1, lo2, hi2, e.begin);
  }

  /**
   * The invariant of the job list: identities are distinct and below the
   * counter that numbers new jobs, and every fire time is a valid "HH:mm".
   */
  ghost predicate ValidJobs(jobs: seq<Job>, nextId: nat)
  {
    && (forall k :: 0 <= k < |jobs| ==> jobs[k].id < nextId && Clock.IsHHmm(jobs[k].at))
    && (forall k, l :: 0 <= k < l < |jobs| ==> jobs[k].id != jobs[l].id)
  }

  /** Appending a job numbered with the counter, and advancing the counter, keeps the invariant. */
  lemma ValidJobsAppend(jobs: seq<Job>, nextId: nat, job: Job)
    requires ValidJobs(jobs, nextId) && job.id == nextId && Clock.IsHHmm(job.at)
    ensures ValidJobs(jobs + [job], nextId + 1)
  {
  }

  /** The scheduler's job list. */
  class JobList {
    var jobs: seq<Job>
    /** The identity the next created job gets. */
    var nextId: nat

    ghost predicate Valid()
      reads this
    {
      ValidJobs(jobs, nextId)
    }

    /** The scheduler starts with no jobs. */
    constructor ()
      ensures Valid() && jobs == [] && nextId == 0
    {
      jobs := [];
      nextId := 0;
    }

    /**
     * `update_events` on the feed snapshot `events`, with the clock read at
     * `lo` before the fetch and at `hi` by the test: one job per selected
     * event is appended, nothing is deduplicated, and the jobs already
     * pending are left as they are.
     */
    method UpdateEvents(w: Clock.Window, events: seq<Event>, lo: int, hi: int, utcOffset: int, reminderMinutes: int)
      requires Valid()
      modifies this
      ensures Valid()
      ensures jobs == old(jobs) + NewJobs(w, events, lo, hi, utcOffset, reminderMinutes, old(nextId))
      ensures nextId == old(nextId) + |Selected(w, events, lo, hi)|
    {
      ghost var pending, firstId := jobs, nextId;
      var i := 0;
      while i < |events|
        invariant 0 <= i <= |events|
        invariant Valid()
        invariant jobs == pending + NewJobs(w, events[..i], lo, hi, utcOffset, reminderMinutes, firstId)
        invariant nextId == firstId + |Selected(w, events[..i], lo, hi)|
      {
        var e := events[i];
        UpdateStep(w, events, i, lo, hi, utcOffset, reminderMinutes, firstId, pending, jobs, nextId);
        if Clock.Selects(w, lo, hi, e.begin) {
          var job := MakeJob(nextId, e, utcOffset, reminderMinutes);
          ValidJobsAppend(jobs, nextId, job);
          jobs := jobs + [job];
          nextId := nextId + 1;
        }
        i := i + 1;
      }
      assert events[..i] == events;
    }

    /**
     * The scheduler running the due job at position i: `send_reminder`
     * sends if the job's channel is registered and returns CancelJob, so
     * the job is removed and no job with its identity is left to run again.
     */
    method RunJob(i: nat, registry: Registry.ChannelRegistry) returns (sent: Option<Registry.Sent>)
      requires Valid() && i < |jobs|
      modifies this
      ensures Valid()
      ensures jobs == old(jobs[..i] + jobs[i + 1..]) && nextId == old(nextId)
      ensures forall k :: 0 <= k < |jobs| ==> jobs[k].id != old(jobs[i].id)
      ensures sent.Some? <==> old(jobs[i].channel) in registry.entries
      ensures sent.Some? ==>
        sent.value == Registry.Sent(registry.entries[old(jobs[i].channel)].channelId, old(jobs[i].payload))
    {
      var job := jobs[i];
      var outcome;
      sent, outcome := registry.SendReminder(job.channel, job.payload);
      if outcome == Registry.CancelJob {
        jobs := jobs[..i] + jobs[i + 1..];
      }
      assert forall k :: 0 <= k < |jobs| ==> jobs[k] == old(jobs)[if k < i then k else k + 1];
    }
  }

  /**
   * A lecture at 02:00 UTC and two hourly update runs, at 00:00 and 01:00,
   * whose tests read the clock five seconds after their start (after the
   * fetch). As written, the two runs leave two jobs for the lecture; with
   * the corrected window they leave one.
   */
  method HourlyRunsOnLecture() returns (asWritten: nat, corrected: nat)
    ensures asWritten == 2 && corrected == 1
  {
    var lecture := Event("Math101", "Lecture in room 1", 2 * Clock.HOUR);
    var feed := [lecture];
    assert feed[1..] == [];
    var program := new JobList();
    program.UpdateEvents(Clock.AsWritten, feed, 0, 5, 0, 10);
    program.UpdateEvents(Clock.AsWritten, feed, Clock.HOUR, Clock.HOUR + 5, 0, 10);
    asWritten := |program.jobs|;
    var fixed := new JobList();
    fixed.UpdateEvents(Clock.Corrected, feed, 0, 5, 0, 10);
    fixed.UpdateEvents(Clock.Corrected, feed, Clock.HOUR, Clock.HOUR + 5, 0, 10);
    corrected := |fixed.jobs|;
  }
}
