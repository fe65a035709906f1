/** The application shell: which screen is visible, the record of the last
    check-in, and the hidden admin-entry click counter. The shell's handlers
    are modelled twice over: as a pure transition function `Step` on
    `ShellState` values (used by the lemmas about event sequences) and as
    the class `App`, whose fields the handlers update in place and whose
    methods are proved to perform exactly `Step`. */
module Shell {
  import opened Types

  datatype ShellState = ShellState(
    view: ViewMode,
    lastRegistered: Option<StudentRecord>,
    clickCount: nat)

  /** The events the shell reacts to. `InactivityReset` is the deferred
      reset that fires when the counter has not changed for three seconds. */
  datatype Event =
    | LogoClick
    | InactivityReset
    | CheckInComplete(record: StudentRecord)
    | GoHome

  const Initial: ShellState := ShellState(CHECK_IN, None, 0)

  /** One handler run. Only a logo click can open the admin view; a click or a
      reset leaves the last record alone, and navigation leaves the counter
      alone. */
  function Step(s: ShellState, e: Event): (r: ShellState)
    ensures r.view == ADMIN && s.view != ADMIN ==> e.LogoClick?
    ensures e.LogoClick? || e.InactivityReset? ==> r.lastRegistered == s.lastRegistered
    ensures e.CheckInComplete? || e.GoHome? ==> r.clickCount == s.clickCount
  {
    match e
    case LogoClick =>
      var next := s.clickCount + 1;
      if next >= AdminEntryClicks then s.(view := ADMIN, clickCount := 0)
      else s.(clickCount := next)
    case InactivityReset => s.(clickCount := 0)
    case CheckInComplete(r) => s.(lastRegistered := Some(r), view := SUCCESS)
    case GoHome => s.(view := CHECK_IN, lastRegistered := None)
  }

  /** The state after a sequence of events, applied in order. The admin
      view is never reached without a logo click, and the record is never
      set without a completed check-in. */
  function Run(s: ShellState, es: seq<Event>): (r: ShellState)
    ensures r.view == ADMIN && s.view != ADMIN ==> LogoClick in es
    ensures r.lastRegistered.Some? && s.lastRegistered.None? ==>
      exists i :: 0 <= i < |es| && es[i].CheckInComplete?
    decreases |es|
  {
    if es == [] then s else Run(Step(s, es[0]), es[1..])
  }

  /** The counter stays below the threshold, and the success screen always
      has a record to show. */
  predicate Inv(s: ShellState) {
    && s.clickCount < AdminEntryClicks
    && (s.view == SUCCESS ==> s.lastRegistered.Some?)
  }

  /** The "clicks to Admin" hint, shown only while the counter is positive. */
  function Hint(s: ShellState): (h: Option<int>)
    requires Inv(s)
    ensures h.Some? <==> s.clickCount > 0
    ensures h.Some? ==> 1 <= h.value < AdminEntryClicks
    ensures h.Some? ==> h.value == AdminEntryClicks - s.clickCount
  {
    if s.clickCount > 0 then Some(AdminEntryClicks - s.clickCount) else None
  }

  lemma InitialSatisfiesInv()
    ensures Inv(Initial)
  {
  }

  lemma StepPreservesInv(s: ShellState, e: Event)
    requires Inv(s)
    ensures Inv(Step(s, e))
  {
  }

  lemma {:induction false} RunPreservesInv(s: ShellState, es: seq<Event>)
    requires Inv(s)
    ensures Inv(Run(s, es))
    decreases |es|
  {
    if es != [] {
      StepPreservesInv(s, es[0]);
      RunPreservesInv(Step(s, es[0]), es[1..]);
    }
  }

  /** Every state reachable from the initial one satisfies the invariant, so
      the hint value is always at least one. */
  lemma ReachableHintPositive(es: seq<Event>)
    ensures Inv(Run(Initial, es))
    ensures Hint(Run(Initial, es)).Some? ==> Hint(Run(Initial, es)).value >= 1
  {
    RunPreservesInv(Initial, es);
  }

  function Clicks(n: nat): seq<Event> {
    seq(n, _ => LogoClick)
  }

  lemma {:induction false} RunAppend(s: ShellState, es: seq<Event>, e: Event)
    ensures Run(s, es + [e]) == Step(Run(s, es), e)
    decreases |es|
  {
    if es != [] {
      assert (es + [e])[1..] == es[1..] + [e];
      RunAppend(Step(s, es[0]), es[1..], e);
    }
  }

  /** Below the threshold, `n` clicks from a zero counter only count: the view
      does not change. */
  lemma {:induction false} FewerClicksOnlyCount(s: ShellState, n: nat)
    requires s.clickCount == 0 && n < AdminEntryClicks
    ensures Run(s, Clicks(n)) == s.(clickCount := n)
  {
    if n > 0 {
      assert Clicks(n) == Clicks(n - 1) + [LogoClick];
      RunAppend(s, Clicks(n - 1), LogoClick);
      FewerClicksOnlyCount(s, n - 1);
    }
  }

  /** Exactly `AdminEntryClicks` clicks from a zero counter, with no reset in
      between, open the admin view and clear the counter. */
  lemma ThresholdClicksOpenAdmin(s: ShellState)
    requires s.clickCount == 0
    ensures Run(s, Clicks(AdminEntryClicks)) == s.(view := ADMIN, clickCount := 0)
  {
    var n := AdminEntryClicks - 1;
    assert Clicks(n + 1) == Clicks(n) + [LogoClick];
    RunAppend(s, Clicks(n), LogoClick);
    FewerClicksOnlyCount(s, n);
  }

  /** A click after admin entry counts from one again. */
  lemma ClickAfterAdminCountsFromOne(s: ShellState)
    requires s.clickCount == 0
    ensures Run(s, Clicks(AdminEntryClicks) + [LogoClick]).clickCount == 1
  {
    ThresholdClicksOpenAdmin(s);
    RunAppend(s, Clicks(AdminEntryClicks), LogoClick);
  }

  /** A pause after some clicks restarts the count: the next click counts as
      one, whatever came before. */
  lemma ResetRestartsCount(s: ShellState, k: nat)
    requires s.clickCount == 0 && k < AdminEntryClicks
    ensures Run(s, Clicks(k) + [InactivityReset, LogoClick]).clickCount == 1
    ensures Run(s, Clicks(k) + [InactivityReset, LogoClick]).view == s.view
  {
    FewerClicksOnlyCount(s, k);
    RunAppend(s, Clicks(k), InactivityReset);
    assert Clicks(k) + [InactivityReset, LogoClick] == (Clicks(k) + [InactivityReset]) + [LogoClick];
    RunAppend(s, Clicks(k) + [InactivityReset], LogoClick);
  }

  /** The shell component, whose handlers update its three state fields. */
  class App {
    var view: ViewMode
    var lastRegistered: Option<StudentRecord>
    var clickCount: nat

    function State(): ShellState
      reads this
    {
      ShellState(view, lastRegistered, clickCount)
    }

    ghost predicate Valid()
      reads this
    {
      Inv(State())
    }

    constructor()
      ensures Valid() && State() == Initial
    {
      view := CHECK_IN;
      lastRegistered := None;
      clickCount := 0;
    }

    method HandleLogoClick()
      requires Valid()
      modifies this
      ensures Valid() && State() == Step(old(State()), LogoClick)
      ensures old(clickCount) + 1 < AdminEntryClicks ==>
        clickCount == old(clickCount) + 1 && view == old(view)
      ensures old(clickCount) + 1 >= AdminEntryClicks ==> view == ADMIN && clickCount == 0
      ensures lastRegistered == old(lastRegistered)
    {
      var next := clickCount + 1;
      if next >= AdminEntryClicks {
        view := ADMIN;
        clickCount := 0;
      } else {
        clickCount := next;
      }
    }

    method ResetClicks()
      requires Valid()
      modifies this
      ensures Valid() && State() == Step(old(State()), InactivityReset)
      ensures clickCount == 0 && view == old(view) && lastRegistered == old(lastRegistered)
    {
      clickCount := 0;
    }

    method OnCheckInComplete(record: StudentRecord)
      requires Valid()
      modifies this
      ensures Valid() && State() == Step(old(State()), CheckInComplete(record))
      ensures lastRegistered == Some(record) && view == SUCCESS && clickCount == old(clickCount)
    {
      lastRegistered := Some(record);
      view := SUCCESS;
    }

    method GoToHome()
      requires Valid()
      modifies this
      ensures Valid() && State() == Step(old(State()), GoHome)
      ensures view == CHECK_IN && lastRegistered == None && clickCount == old(clickCount)
    {
      view := CHECK_IN;
      lastRegistered := None;
    }

    /** The record the success screen is given; it exists whenever that
        screen is selected. */
    function SuccessRecord(): (r: StudentRecord)
      reads this
      requires Valid() && view == SUCCESS
      ensures lastRegistered == Some(r)
    {
      lastRegistered.value
    }
  }
}
