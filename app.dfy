/**
 * The top-level page (src/App.jsx): five view flags, the `hasReachedTarget` flag handed to the
 * countdown, the once-a-second "is it the day" check, and the celebration sequence.
 *
 * Browser timers are modelled explicitly: `pending` holds the one-shot timeouts that are still
 * due, ordered by due time (ties keep their registration order), and `FireNext` is the event
 * loop running the earliest one. `clock` is the simulated time in milliseconds.
 */
module App {

  /** The presentation cues `triggerChristmasCelebration` schedules (confetti bursts). */
  datatype Cue = BigBang | SideCannons | MultipleBursts | ThemedBurst | GentleSnowfall | GrandFinale

  /** What a pending one-shot timeout does when it fires. */
  datatype Action = FireCue(cue: Cue) | FinishSequence

  datatype Timer = Timer(due: int, action: Action)

  /** Offset of the transition from the overlay to the Christmas content. */
  const FinishOffsetMs: nat := 8000

  /** The choreography as data: `(offset in ms, cue)`, in the order the source registers them. */
  const CueSchedule: seq<(nat, Cue)> :=
    [(100, BigBang), (500, SideCannons), (1000, MultipleBursts),
     (2000, ThemedBurst), (3000, GentleSnowfall), (4000, GrandFinale)]

  /**
   * How long a cue keeps re-firing sub-bursts after it starts: the animation-frame loop of
   * the multiple bursts runs until `Date.now() + 3000`, the snowfall interval for 5000 ms.
   */
  function RepeatWindowMs(c: Cue): nat
  {
    match c
    case MultipleBursts => 3000
    case GentleSnowfall => 5000
    case _ => 0
  }

  /** The offsets are strictly increasing and every cue, repeating window included, ends by the transition. */
  lemma CueScheduleWellTimed()
    ensures forall i, j :: 0 <= i < j < |CueSchedule| ==> CueSchedule[i].0 < CueSchedule[j].0
    ensures forall i :: 0 <= i < |CueSchedule| ==>
      CueSchedule[i].0 < FinishOffsetMs && CueSchedule[i].0 + RepeatWindowMs(CueSchedule[i].1) <= FinishOffsetMs
  {
  }

  /** Ordered by due time: each timer is due no later than the next one. */
  ghost predicate Sorted(ts: seq<Timer>)
  {
    forall i :: 0 <= i < |ts| - 1 ==> ts[i].due <= ts[i + 1].due
  }

  /** The cue timeouts of `schedule`, started at `start`. */
  function CueTimers(start: int, schedule: seq<(nat, Cue)>): (ts: seq<Timer>)
    ensures |ts| == |schedule|
    ensures forall i :: 0 <= i < |ts| ==> ts[i] == Timer(start + schedule[i].0, FireCue(schedule[i].1))
  {
    if schedule == [] then [] else [Timer(start + schedule[0].0, FireCue(schedule[0].1))] + CueTimers(start, schedule[1..])
  }

  /**
   * Everything one call of `startChristmasSequence` at time `start` registers: the six cues,
   * then the transition at `start + 8000`, which comes last and after every cue.
   */
  function SequenceTimers(start: int): (ts: seq<Timer>)
    ensures |ts| == |CueSchedule| + 1 && Sorted(ts) && start < ts[0].due
    ensures ts[|ts| - 1] == Timer(start + FinishOffsetMs, FinishSequence)
  {
    CueScheduleWellTimed();
    CueTimers(start, CueSchedule) + [Timer(start + FinishOffsetMs, FinishSequence)]
  }

  /** Timer `i` of the sequence is cue `i` of the schedule, due strictly between the start and the transition. */
  lemma SequenceTimersAt(start: int, i: nat)
    requires i < |CueSchedule|
    ensures SequenceTimers(start)[i] == Timer(start + CueSchedule[i].0, FireCue(CueSchedule[i].1))
    ensures start < SequenceTimers(start)[i].due < start + FinishOffsetMs
  {
    CueScheduleWellTimed();
  }

  /** Stable merge of two timer queues: on equal due times the already-pending timer fires first. */
  function Merge(a: seq<Timer>, b: seq<Timer>): seq<Timer>
    decreases |a| + |b|
  {
    if a == [] then b
    else if b == [] then a
    else if a[0].due <= b[0].due then [a[0]] + Merge(a[1..], b)
    else [b[0]] + Merge(a, b[1..])
  }

  /** The first timer of a merge is the earlier of the two heads. */
  lemma MergeHead(a: seq<Timer>, b: seq<Timer>)
    requires a != [] || b != []
    ensures Merge(a, b) != []
    ensures Merge(a, b)[0] == if a == [] then b[0] else if b == [] then a[0]
                              else if a[0].due <= b[0].due then a[0] else b[0]
  {
  }

  /** Merging keeps every timer exactly once. */
  lemma {:induction false} MergePermutes(a: seq<Timer>, b: seq<Timer>)
    ensures multiset(Merge(a, b)) == multiset(a) + multiset(b)
    decreases |a| + |b|
  {
    if a == [] || b == [] {
    } else if a[0].due <= b[0].due {
      var rest := Merge(a[1..], b);
      MergePermutes(a[1..], b);
      assert Merge(a, b) == [a[0]] + rest;
      assert a == [a[0]] + a[1..];
    } else {
      var rest := Merge(a, b[1..]);
      MergePermutes(a, b[1..]);
      assert Merge(a, b) == [b[0]] + rest;
      assert b == [b[0]] + b[1..];
    }
  }

  /** Merging two queues ordered by due time gives a queue ordered by due time. */
  lemma {:induction false} MergeSorted(a: seq<Timer>, b: seq<Timer>)
    requires Sorted(a) && Sorted(b)
    ensures Sorted(Merge(a, b))
    decreases |a| + |b|
  {
    if a == [] || b == [] {
    } else if a[0].due <= b[0].due {
      var rest := Merge(a[1..], b);
      MergeSorted(a[1..], b);
      MergeHead(a[1..], b);
      assert Merge(a, b) == [a[0]] + rest;
    } else {
      var rest := Merge(a, b[1..]);
      MergeSorted(a, b[1..]);
      MergeHead(a, b[1..]);
      assert Merge(a, b) == [b[0]] + rest;
    }
  }

  /** Merging a queue due from `clock` on with another one keeps a queue due from `clock` on. */
  lemma MergeQueues(a: seq<Timer>, b: seq<Timer>, clock: int)
    requires Sorted(a) && (a != [] ==> clock <= a[0].due)
    requires Sorted(b) && (b != [] ==> clock <= b[0].due)
    ensures Sorted(Merge(a, b)) && (Merge(a, b) != [] ==> clock <= Merge(a, b)[0].due)
    ensures multiset(Merge(a, b)) == multiset(a) + multiset(b)
  {
    MergeSorted(a, b);
    MergePermutes(a, b);
    if a != [] || b != [] {
      MergeHead(a, b);
    }
  }

  /** The cues a queue of timeouts fires when it runs to the end, in firing order. */
  function CuesIn(ts: seq<Timer>): (cs: seq<Cue>)
    ensures |cs| <= |ts|
  {
    if ts == [] then [] else CueOf(ts[0]) + CuesIn(ts[1..])
  }

  /** The cue one timeout fires, if it fires one. */
  function CueOf(t: Timer): seq<Cue>
  {
    if t.action.FireCue? then [t.action.cue] else []
  }

  /** Whether a queue of timeouts holds the transition to the content. */
  function Finishes(ts: seq<Timer>): bool
  {
    ts != [] && (ts[0].action.FinishSequence? || Finishes(ts[1..]))
  }

  /** Running two queues one after the other fires the cues of both, and finishes iff one of them does. */
  lemma {:induction false} CuesInAppend(a: seq<Timer>, b: seq<Timer>)
    ensures CuesIn(a + b) == CuesIn(a) + CuesIn(b)
    ensures Finishes(a + b) == (Finishes(a) || Finishes(b))
  {
    if a == [] {
      assert a + b == b;
    } else {
      var head := CueOf(a[0]);
      assert (a + b)[0] == a[0] && (a + b)[1..] == a[1..] + b;
      CuesInAppend(a[1..], b);
      assert head + (CuesIn(a[1..]) + CuesIn(b)) == (head + CuesIn(a[1..])) + CuesIn(b);
    }
  }

  /** The cue timeouts of a schedule fire its cues in schedule order and never the transition. */
  lemma {:induction false} CueTimersRun(start: int, schedule: seq<(nat, Cue)>)
    ensures CuesIn(CueTimers(start, schedule)) == Cues(schedule)
    ensures !Finishes(CueTimers(start, schedule))
  {
    if schedule != [] {
      CueTimersRun(start, schedule[1..]);
      assert CueTimers(start, schedule)[1..] == CueTimers(start, schedule[1..]);
    }
  }

  /** One registration of the sequence, run to the end, fires the six cues in order and then finishes. */
  lemma SequenceTimersRun(start: int)
    ensures CuesIn(SequenceTimers(start)) == Cues(CueSchedule)
    ensures Finishes(SequenceTimers(start))
  {
    var finish := [Timer(start + FinishOffsetMs, FinishSequence)];
    CueTimersRun(start, CueSchedule);
    CuesInAppend(CueTimers(start, CueSchedule), finish);
    assert finish[1..] == [];
  }

  /**
   * The "is it Christmas Day" test of the periodic check, as written: the month of `now`
   * (0-based) is compared with the configured YEAR, and the day of month with the configured day.
   */
  function ChristmasDayCheck(nowMonth: int, nowDate: int, configYear: int, configDay: int): bool
  {
    nowMonth == configYear && nowDate == configDay
  }

  /** With any real year configured (beyond the month indices 0..11) the check never holds. */
  lemma ChristmasDayCheckNeverHolds(nowMonth: int, nowDate: int, configYear: int, configDay: int)
    requires 0 <= nowMonth < 12 && configYear >= 12
    ensures !ChristmasDayCheck(nowMonth, nowDate, configYear, configDay)
  {
  }

  class App {
    var isChristmasDay: bool
    var celebrationTriggered: bool
    var isTestMode: bool
    var showCelebrationOverlay: bool
    var showChristmasContent: bool
    /** Owned here, written only by the countdown. */
    var hasReachedTarget: bool
    /** Whether the once-a-second `checkChristmasDay` interval is installed. */
    var checking: bool
    var clock: int
    var pending: seq<Timer>
    /** The cues fired so far, in firing order. */
    var fired: seq<Cue>
    const configYear: int
    const configDay: int

    ghost predicate Valid()
      reads this
    {
      && Sorted(pending)
      && (pending != [] ==> clock <= pending[0].due)
      && isTestMode == celebrationTriggered
      && (checking ==> !isTestMode)
    }

    /** Countdown screen: shown iff it is not "Christmas Day" and the content is not shown. */
    predicate CountdownViewShown()
      reads this
    {
      !isChristmasDay && !showChristmasContent
    }

    /** Santa and the tree: shown iff it is not "Christmas Day" and the overlay is not shown. */
    predicate DecorationsShown()
      reads this
    {
      !isChristmasDay && !showCelebrationOverlay
    }

    /** The skip and exit buttons inside the celebration overlay. */
    predicate OverlayTestControlsShown()
      reads this
    {
      showCelebrationOverlay && isTestMode
    }

    /** The "Back to Countdown" button over the Christmas content. */
    predicate BackToCountdownShown()
      reads this
    {
      showChristmasContent && isTestMode
    }

    /** Mounting: every flag false and the periodic check installed (test mode is off). */
    constructor (configYear: int, configDay: int, now: int)
      ensures Valid()
      ensures !isChristmasDay && !celebrationTriggered && !isTestMode
      ensures !showCelebrationOverlay && !showChristmasContent && !hasReachedTarget
      ensures checking && clock == now && pending == [] && fired == []
      ensures this.configYear == configYear && this.configDay == configDay
    {
      isChristmasDay, celebrationTriggered, isTestMode := false, false, false;
      showCelebrationOverlay, showChristmasContent, hasReachedTarget := false, false, false;
      checking, clock, pending, fired := true, now, [], [];
      this.configYear, this.configDay := configYear, configDay;
    }

    /**
     * One run of `checkChristmasDay` (only while its interval is installed). It writes
     * `isChristmasDay` and nothing else: the trigger of the celebration is commented out.
     */
    method CheckChristmasDay(nowMonth: int, nowDate: int)
      requires Valid()
      modifies this`isChristmasDay
      ensures Valid()
      ensures isChristmasDay == if checking then ChristmasDayCheck(nowMonth, nowDate, configYear, configDay)
                                else old(isChristmasDay)
    {
      if checking {
        isChristmasDay := ChristmasDayCheck(nowMonth, nowDate, configYear, configDay);
      }
    }

    /**
     * `startChristmasSequence`: shows the overlay at once, stops the periodic check and
     * registers the cue timeouts and the 8000 ms transition. Earlier registrations stay.
     */
    method StartChristmasSequence()
      requires Valid()
      modifies this`showCelebrationOverlay, this`checking, this`pending
      ensures Valid()
      ensures showCelebrationOverlay && !checking
      ensures pending == Merge(old(pending), SequenceTimers(clock))
      ensures !DecorationsShown()
    {
      var added := SequenceTimers(clock);
      MergeQueues(pending, added, clock);
      showCelebrationOverlay := true;
      checking := false;
      pending := Merge(pending, added);
    }

    /** The event loop runs the earliest pending timeout, advancing the clock to its due time. */
    method FireNext()
      requires Valid() && pending != []
      modifies this`clock, this`pending, this`fired, this`showCelebrationOverlay, this`showChristmasContent
      ensures Valid()
      ensures pending == old(pending)[1..] && clock == old(pending)[0].due && old(clock) <= clock
      ensures fired == old(fired) + CueOf(old(pending)[0])
      ensures showChristmasContent == (old(showChristmasContent) || old(pending)[0].action.FinishSequence?)
      ensures showCelebrationOverlay == (old(showCelebrationOverlay) && !old(pending)[0].action.FinishSequence?)
    {
      var t := pending[0];
      pending := pending[1..];
      clock := t.due;
      match t.action
      case FireCue(c) =>
        fired := fired + [c];
      case FinishSequence =>
        showCelebrationOverlay := false;
        showChristmasContent := true;
    }

    /** Time passes up to, but not past, the earliest pending timeout; nothing fires. */
    method Advance(t: int)
      requires Valid() && clock <= t && (pending != [] ==> t <= pending[0].due)
      modifies this`clock
      ensures Valid() && clock == t
    {
      clock := t;
    }

    /**
     * The event loop left to itself: every pending timeout runs, earliest first. The cues
     * fire in queue order, the content shows iff it did or a transition was pending, and the
     * overlay stays iff it showed and no transition was pending.
     */
    method RunPending()
      requires Valid()
      modifies this`clock, this`pending, this`fired, this`showCelebrationOverlay, this`showChristmasContent
      ensures Valid() && pending == []
      ensures fired == old(fired) + CuesIn(old(pending))
      ensures showChristmasContent == (old(showChristmasContent) || Finishes(old(pending)))
      ensures showCelebrationOverlay == (old(showCelebrationOverlay) && !Finishes(old(pending)))
      ensures old(pending) == [] ==> clock == old(clock)
      ensures old(pending) != [] ==> clock == old(pending)[|old(pending)| - 1].due
    {
      ghost var todo := pending;
      ghost var finished := false;
      ghost var k := 0;
      while pending != []
        invariant Valid() && 0 <= k <= |todo| && pending == todo[k..]
        invariant fired + CuesIn(pending) == old(fired) + CuesIn(todo)
        invariant Finishes(todo) == (finished || Finishes(pending))
        invariant showChristmasContent == (old(showChristmasContent) || finished)
        invariant showCelebrationOverlay == (old(showCelebrationOverlay) && !finished)
        invariant k == 0 ==> clock == old(clock)
        invariant k > 0 ==> clock == todo[k - 1].due
        decreases |pending|
      {
        ghost var t, rest := pending[0], pending[1..];
        assert rest == todo[k + 1..];
        assert fired + CuesIn(pending) == (fired + CueOf(t)) + CuesIn(rest);
        finished := finished || t.action.FinishSequence?;
        FireNext();
        k := k + 1;
      }
    }

    /** `testCelebration`: enters test mode, pretends it is the day, and starts the sequence. */
    method TestCelebration()
      requires Valid()
      modifies this`checking, this`isTestMode, this`isChristmasDay, this`celebrationTriggered,
               this`showCelebrationOverlay, this`pending
      ensures Valid()
      ensures isTestMode && isChristmasDay && celebrationTriggered && showCelebrationOverlay && !checking
      ensures OverlayTestControlsShown()
      ensures showChristmasContent == old(showChristmasContent) && hasReachedTarget == old(hasReachedTarget)
      ensures clock == old(clock) && fired == old(fired)
      ensures pending == Merge(old(pending), SequenceTimers(clock))
    {
      checking := false;
      isTestMode := true;
      isChristmasDay := true;
      celebrationTriggered := true;
      StartChristmasSequence();
    }

    /**
     * `exitTestMode` as written: the five flags go false and, when test mode was on, the
     * periodic check is installed again. `hasReachedTarget` and the pending timeouts are untouched.
     */
    method ExitTestMode()
      requires Valid()
      modifies this`isTestMode, this`isChristmasDay, this`celebrationTriggered,
               this`showCelebrationOverlay, this`showChristmasContent, this`checking
      ensures Valid()
      ensures !isTestMode && !isChristmasDay && !celebrationTriggered
      ensures !showCelebrationOverlay && !showChristmasContent
      ensures checking == (old(checking) || old(isTestMode))
      ensures hasReachedTarget == old(hasReachedTarget) && pending == old(pending)
      ensures CountdownViewShown() && DecorationsShown()
      ensures !OverlayTestControlsShown() && !BackToCountdownShown()
    {
      if isTestMode {
        checking := true;
      }
      isTestMode := false;
      isChristmasDay := false;
      celebrationTriggered := false;
      showCelebrationOverlay := false;
      showChristmasContent := false;
    }

    /** `exitTestMode` as evidently intended: also cancels every pending timeout of the sequence. */
    method ExitTestModeCancelling()
      requires Valid()
      modifies this`isTestMode, this`isChristmasDay, this`celebrationTriggered,
               this`showCelebrationOverlay, this`showChristmasContent, this`checking, this`pending
      ensures Valid()
      ensures !isTestMode && !isChristmasDay && !celebrationTriggered
      ensures !showCelebrationOverlay && !showChristmasContent
      ensures checking == (old(checking) || old(isTestMode))
      ensures hasReachedTarget == old(hasReachedTarget) && pending == []
      ensures CountdownViewShown() && DecorationsShown()
      ensures !OverlayTestControlsShown() && !BackToCountdownShown()
    {
      ExitTestMode();
      pending := [];
    }

    /** `skipToChristmasContent`: the overlay goes, the content comes; nothing else changes. */
    method SkipToChristmasContent()
      requires Valid()
      modifies this`showCelebrationOverlay, this`showChristmasContent
      ensures Valid()
      ensures !showCelebrationOverlay && showChristmasContent
      ensures !CountdownViewShown() && !OverlayTestControlsShown() && BackToCountdownShown() == isTestMode
    {
      showCelebrationOverlay := false;
      showChristmasContent := true;
    }
  }

  /**
   * Exiting test mode while the overlay still shows, as written: once the timeouts run out,
   * the stale 8000 ms transition brings the Christmas content back over the countdown, and
   * with test mode off there is no button leading back.
   */
  method ExitDuringOverlayShowsContentLater(start: int) returns (contentShown: bool, countdownShown: bool, backShown: bool)
    ensures contentShown && !countdownShown && !backShown
  {
    var app := new App(2025, 19, start);
    app.TestCelebration();
    app.ExitTestMode();
    assert app.pending == SequenceTimers(start);
    SequenceTimersRun(start);
    app.RunPending();
    contentShown, countdownShown, backShown := app.showChristmasContent, app.CountdownViewShown(), app.BackToCountdownShown();
  }

  /** With the cancelling exit the countdown stays on screen after every timeout has run. */
  method ExitDuringOverlayCancelledStaysOnCountdown(start: int) returns (contentShown: bool, countdownShown: bool)
    ensures !contentShown && countdownShown
  {
    var app := new App(2025, 19, start);
    app.TestCelebration();
    assert app.pending == SequenceTimers(start);
    app.ExitTestModeCancelling();
    app.RunPending();
    contentShown, countdownShown := app.showChristmasContent, app.CountdownViewShown();
  }

  /** The cues of a schedule, in schedule order. */
  function Cues(schedule: seq<(nat, Cue)>): (cs: seq<Cue>)
    ensures |cs| == |schedule| && forall i :: 0 <= i < |cs| ==> cs[i] == schedule[i].1
  {
    if schedule == [] then [] else [schedule[0].1] + Cues(schedule[1..])
  }

  /**
   * The whole sequence, started from the countdown at time `start` with no other timeout
   * pending: every cue fires once in schedule order, and the content replaces the overlay at
   * exactly `start + 8000`.
   */
  method RunSequence(start: int) returns (fired: seq<Cue>, finishedAt: int, overlayShown: bool, contentShown: bool)
    ensures fired == Cues(CueSchedule)
    ensures finishedAt == start + FinishOffsetMs
    ensures !overlayShown && contentShown
  {
    var app := new App(2025, 19, start);
    app.StartChristmasSequence();
    assert app.pending == SequenceTimers(start);
    SequenceTimersRun(start);
    app.RunPending();
    assert app.fired == CuesIn(SequenceTimers(start));
    fired, finishedAt, overlayShown, contentShown := app.fired, app.clock, app.showCelebrationOverlay, app.showChristmasContent;
  }
}
