/** The frame loop of main() in src/main.cpp: game logic at a fixed 600 updates
    per second and drawing at a fixed 60 frames per second, both driven by one
    steady clock. Timepoints and durations are integer nanoseconds of that
    clock; every clock reading is a method parameter. */
module Scheduler {
  import opened Cells
  import opened Field
  import Arith

  datatype Option<T> = None | Some(value: T)

  const NanoInSec: int := 1000000000
  const TargetUpdatePerSecond: int := 600
  const TargetDrawPerSecond: int := 60
  /** The update period: one second divided by the update rate, in whole nanoseconds. */
  const TargetUpdateTick: int := NanoInSec / TargetUpdatePerSecond
  /** The draw period: one second divided by the draw rate, in whole nanoseconds. */
  const TargetDrawTick: int := NanoInSec / TargetDrawPerSecond
  /** The value main() gives timerDelayFrames: cells change every 150 updates. */
  const DefaultTimerDelayFrames: int := 150

  /** Both periods are positive whole nanoseconds, the truncated quotients of one
      second by the target rates; truncation makes a draw period 6 ns longer than
      ten update periods, so the two cadences do not stay aligned. */
  lemma TickConstants()
    ensures TargetUpdateTick == 1666666 && TargetDrawTick == 16666666
    ensures 0 < TargetUpdateTick && 0 < TargetDrawTick
    ensures TargetUpdateTick * TargetUpdatePerSecond <= NanoInSec < (TargetUpdateTick + 1) * TargetUpdatePerSecond
    ensures TargetDrawTick * TargetDrawPerSecond <= NanoInSec < (TargetDrawTick + 1) * TargetDrawPerSecond
    ensures TargetDrawTick == 10 * TargetUpdateTick + 6
  {
  }

  // ---------------------------------------------------------------------
  // Specification of the update catch-up loop

  /** How many passes the catch-up loop makes, adding one period per pass
      while the deadline is not after `now`: the least k with
      next + k * period > now. */
  function CatchUpCount(next: int, now: int, period: int): (k: nat)
    requires 0 < period
    ensures next + k * period > now
    ensures k == 0 <==> next > now
    ensures 0 < k ==> next + (k - 1) * period <= now
  {
    Arith.StepsToPass(now - next, period)
  }

  /** No smaller number of periods takes the deadline past `now`: the catch-up
      stops at the first deadline after `now`, never later. */
  lemma CatchUpIsLeast(next: int, now: int, period: int, j: nat)
    requires 0 < period
    requires next + j * period > now
    ensures CatchUpCount(next, now, period) <= j
  {
  }

  // ---------------------------------------------------------------------
  // Specification of the cell-timer countdown

  /** How many passes the countdown loop makes when it starts with timer == t:
      it runs while the timer is not positive, adds the delay back on each pass,
      and leaves after its first pass when the delay is 0. */
  function TogglesDue(t: int, delay: int): (n: nat)
    requires 0 <= delay
    ensures n == 0 <==> 0 < t
    ensures delay == 0 && t <= 0 ==> n == 1
    ensures 0 < delay ==> 0 < t + n * delay
    ensures 0 < delay && 0 < n ==> t + (n - 1) * delay <= 0
  {
    if delay == 0 then (if 0 < t then 0 else 1) else Arith.StepsToPass(-t, delay)
  }

  /** The timer when that loop ends. */
  function TimerAfter(t: int, delay: int): (r: int)
    requires 0 <= delay
    ensures 0 < delay ==> 0 < r
    ensures 0 < delay && t <= 0 ==> r <= delay
    ensures delay == 0 ==> r == t
  {
    t + TogglesDue(t, delay) * delay
  }

  /** Under its invariant the cell timer stays in [1, delay] (or, with delay 0,
      at most 0), and one update changes at most one cell: exactly one when the
      timer was 1, or always when the delay is 0. */
  lemma TimerStaysInRange(timer: int, delay: int)
    requires 0 <= delay
    requires 0 < delay ==> 1 <= timer <= delay
    requires delay == 0 ==> timer <= 0
    ensures 0 < delay ==> 1 <= TimerAfter(timer - 1, delay) <= delay
    ensures delay == 0 ==> TimerAfter(timer - 1, delay) == timer - 1 <= 0
    ensures TogglesDue(timer - 1, delay) <= 1
    ensures TogglesDue(timer - 1, delay) == 1 <==> timer == 1 || delay == 0
  {
  }

  // ---------------------------------------------------------------------
  // The random cell mutation, with the generator's outputs as inputs

  /** Two consecutive outputs of the 64-bit random engine: the first, modulo
      10, picks the cell; the second, modulo 16, its new colour. */
  datatype Pick = Pick(cellRoll: nat, colorRoll: nat)

  /** The cell an engine output picks: always an index into the row. */
  function CellIndex(roll: nat): (i: nat)
    ensures i < RowLength
  {
    roll % RowLength
  }

  /** A toggled cell: the weight is logically negated (an empty cell becomes
      filled with weight 1, a filled one empty) and the colour is the engine
      output modulo 16, cast to the enumeration. */
  function Toggled(c: Cell, colorRoll: nat): (t: Cell)
    ensures IsEmpty(t) <==> IsFilled(c)
    ensures t.weight == 0 || t.weight == 1
    ensures Ordinal(t.color) == colorRoll % ColorCount
  {
    Cell(if c.weight == 0 then 1 else 0, FromOrdinal(colorRoll % ColorCount))
  }

  /** One pass of the countdown loop's body on the row: the picked cell is
      toggled and no other cell changes. */
  function ApplyPick(r: Row, p: Pick): (r': Row)
    ensures r'.content[CellIndex(p.cellRoll)] == Toggled(r.content[CellIndex(p.cellRoll)], p.colorRoll)
    ensures forall i :: 0 <= i < RowLength && i != CellIndex(p.cellRoll) ==> r'.content[i] == r.content[i]
  {
    var i := CellIndex(p.cellRoll);
    SetCell(r, i, Toggled(r.content[i], p.colorRoll))
  }

  /** The row after the loop body has run once per pick, in order. */
  function ApplyPicks(r: Row, ps: seq<Pick>): (r': Row)
    ensures forall i :: 0 <= i < RowLength && (forall k :: 0 <= k < |ps| ==> CellIndex(ps[k].cellRoll) != i)
              ==> r'.content[i] == r.content[i]
  {
    if |ps| == 0 then r else ApplyPick(ApplyPicks(r, ps[..|ps| - 1]), ps[|ps| - 1])
  }

  /** row1 as main() initialises it: ten cells, the fourth of them empty, so
      the row starts out not full. */
  function InitialRow(): (r: Row)
    ensures IsEmpty(r.content[3])
    ensures !Full(r)
  {
    RowOf(NewCell(1, Gray), NewCell(1, Red), NewCell(1, Green), NewCell(0, Green), NewCell(1, Cyan),
          NewCell(1, Purple), NewCell(1, Gray), NewCell(1, Blue), NewCell(1, Orange), NewCell(1, Yellow))
  }

  /** The fourth cell is the only empty one of the initial row. */
  lemma InitialRowOnlyFourthEmpty(i: nat)
    requires i < RowLength
    ensures IsEmpty(InitialRow().content[i]) <==> i == 3
  {
    var r := InitialRow();
    if i < 3 {
      assert r.content[i].weight == 1 by {
        assert i == 0 || i == 1 || i == 2;
      }
    } else if 3 < i {
      assert r.content[i].weight == 1 by {
        assert i == 4 || i == 5 || i == 6 || i == 7 || i == 8 || i == 9;
      }
    }
  }

  /** A toggle that picks the fourth cell of the initial row fills the row. */
  lemma InitialRowFilledByOnePick(p: Pick)
    requires CellIndex(p.cellRoll) == 3
    ensures Full(ApplyPick(InitialRow(), p))
  {
    var r := InitialRow();
    var r' := ApplyPick(r, p);
    forall i | 0 <= i < RowLength
      ensures IsFilled(r'.content[i])
    {
      InitialRowOnlyFourthEmpty(i);
      if i != 3 {
        assert r'.content[i] == r.content[i];
      }
    }
  }

  // ---------------------------------------------------------------------
  // Specification of the wait

  /** The wait of the wait phase: from `now` to the earlier of the two
      deadlines; on a tie the update deadline is used. */
  function WaitTime(nextUpdate: int, nextDraw: int, now: int): (w: int)
    ensures now + w <= nextUpdate && now + w <= nextDraw
    ensures now + w == nextUpdate || now + w == nextDraw
  {
    if nextUpdate < nextDraw then nextUpdate - now
    else if nextUpdate > nextDraw then nextDraw - now
    else nextUpdate - now
  }

  /** The duration handed to the blocking wait: the wait when it is positive,
      otherwise none ("rectified" to 0). */
  function SleepTime(w: int): (s: nat)
    ensures 0 < s <==> 0 < w
    ensures 0 < s ==> s == w
  {
    if 0 < w then w else 0
  }

  /** The loop sleeps exactly when both deadlines are still ahead, and never
      longer than until the earlier one. */
  lemma SleepIffBothAhead(nextUpdate: int, nextDraw: int, now: int)
    ensures 0 < SleepTime(WaitTime(nextUpdate, nextDraw, now)) <==> now < nextUpdate && now < nextDraw
    ensures now + SleepTime(WaitTime(nextUpdate, nextDraw, now)) <= if nextUpdate < now then now else nextUpdate
  {
  }

  // ---------------------------------------------------------------------
  // The loop's state

  /** The clock readings one pass of the frame loop takes, and the engine
      outputs its update may draw; `closeRequested` is what ShouldClose()
      reports before the pass. */
  datatype Frame = Frame(closeRequested: bool, updateSample: int, picks: seq<Pick>,
                         drawSample: int, waitSample: int, wakeSample: int)

  /** The readings of a steady clock never decrease, from `start` on. */
  ghost predicate ClockOrdered(start: int, frames: seq<Frame>) {
    && (forall k :: 0 <= k < |frames| ==>
          frames[k].updateSample <= frames[k].drawSample <= frames[k].waitSample <= frames[k].wakeSample)
    && (0 < |frames| ==> start <= frames[0].updateSample)
    && (forall k :: 0 < k < |frames| ==> frames[k - 1].wakeSample <= frames[k].updateSample)
  }

  /** The local variables of main() that the frame loop updates. */
  class Ticker {
    var currentTime: int
    var lastUpdate: int
    var currentUpdate: int
    var nextUpdate: int
    var lastDraw: int
    var currentDraw: int
    var nextDraw: int
    const timerDelayFrames: int
    var timer: int
    var row1: Row
    /** The row-full status the draw shows; None until an update has set it. */
    var text: Option<bool>

    /** The first clock reading. */
    ghost var origin: int
    /** The latest clock reading. */
    ghost var clock: int
    /** Update periods added to nextUpdate since the first reading. */
    ghost var updateTicks: nat

    ghost predicate Valid()
      reads this
    {
      && 0 <= timerDelayFrames
      && (0 < timerDelayFrames ==> 1 <= timer <= timerDelayFrames)
      && (timerDelayFrames == 0 ==> timer <= 0)
      && origin <= currentTime <= clock
      && origin <= currentUpdate <= clock && lastUpdate == currentUpdate
      && origin <= currentDraw <= clock && lastDraw == currentDraw
      // the update deadline moves on the grid of whole periods from the start ...
      && nextUpdate == origin + updateTicks * TargetUpdateTick
      // ... and is never more than one period ahead of the loop's time
      && nextUpdate <= currentTime + TargetUpdateTick
      && (nextDraw == currentDraw || nextDraw == currentDraw + TargetDrawTick)
    }

    /** The status shown by a draw is that of the current row, and it is unset
        only while an update is due (so before the first pass). */
    ghost predicate TextCurrent()
      reads this
    {
      && (text.None? ==> nextUpdate <= currentTime)
      && (text.Some? ==> text.value == Full(row1))
    }

    /** The update gate: an update is due once its deadline is not ahead. */
    predicate UpdateDue()
      reads this
    {
      currentTime >= nextUpdate
    }

    /** The draw gate: a draw is due once its deadline is not ahead. */
    predicate DrawDue()
      reads this
    {
      currentTime >= nextDraw
    }

    /** Initialisation: one clock reading assigned to every timepoint, so update
        and draw start in phase and both are due on the first pass. */
    constructor (now: int, delay: int)
      requires 0 <= delay
      ensures Valid() && TextCurrent()
      ensures currentTime == now && lastUpdate == now && currentUpdate == now && nextUpdate == now
      ensures lastDraw == now && currentDraw == now && nextDraw == now
      ensures UpdateDue() && DrawDue()
      ensures timerDelayFrames == delay && timer == delay && row1 == InitialRow() && text == None
      ensures origin == now && clock == now && updateTicks == 0
    {
      timerDelayFrames := delay;
      timer := delay;
      row1 := InitialRow();
      text := None;
      currentTime, lastUpdate, lastDraw, currentDraw := now, now, now, now;
      currentUpdate, nextUpdate, nextDraw := now, now, now;
      origin, clock, updateTicks := now, now, 0;
    }

    /** The cell-timer countdown of the update branch: one decrement, then a
        toggle of a random cell each time the timer is added back up, stopping
        after one toggle when the delay is 0. */
    method CountDown(picks: seq<Pick>) returns (toggles: nat)
      requires 0 <= timerDelayFrames
      requires |picks| >= TogglesDue(timer - 1, timerDelayFrames)
      modifies this`timer, this`row1
      ensures toggles == TogglesDue(old(timer) - 1, timerDelayFrames)
      ensures timer == TimerAfter(old(timer) - 1, timerDelayFrames)
      ensures row1 == ApplyPicks(old(row1), picks[..toggles])
    {
      timer := timer - 1;
      ghost var t0 := timer;
      toggles := 0;
      while timer <= 0
        invariant timer == t0 + toggles * timerDelayFrames
        invariant timerDelayFrames == 0 ==> toggles == 0
        invariant 0 < timerDelayFrames ==> toggles + TogglesDue(timer, timerDelayFrames) == TogglesDue(t0, timerDelayFrames)
        invariant row1 == ApplyPicks(old(row1), picks[..toggles])
        decreases -timer
      {
        if 0 < timerDelayFrames {
          Arith.StepsToPassStep(-timer, timerDelayFrames);
        }
        timer := timer + timerDelayFrames;
        var p := picks[toggles];
        var randomCell := CellIndex(p.cellRoll);
        row1 := SetCell(row1, randomCell, Toggled(row1.content[randomCell], p.colorRoll));
        assert picks[..toggles + 1][..toggles] == picks[..toggles];
        toggles := toggles + 1;
        if timerDelayFrames == 0 {
          break;
        }
      }
    }

    /** The catch-up of the update deadline: whole periods are added until it
        lies after currentTime; every pass after the first emits the skip
        diagnostic, counted in `skipped`. */
    method CatchUp() returns (skipped: nat)
      modifies this`nextUpdate, this`updateTicks
      ensures skipped == if old(nextUpdate) > currentTime then 0
                         else CatchUpCount(old(nextUpdate), currentTime, TargetUpdateTick) - 1
      ensures nextUpdate == old(nextUpdate) + CatchUpCount(old(nextUpdate), currentTime, TargetUpdateTick) * TargetUpdateTick
      ensures updateTicks == old(updateTicks) + CatchUpCount(old(nextUpdate), currentTime, TargetUpdateTick)
    {
      var updateDirty := false;
      skipped := 0;
      ghost var passes: nat := 0;
      while nextUpdate <= currentTime
        invariant nextUpdate == old(nextUpdate) + passes * TargetUpdateTick
        invariant updateTicks == old(updateTicks) + passes
        invariant passes + CatchUpCount(nextUpdate, currentTime, TargetUpdateTick)
                  == CatchUpCount(old(nextUpdate), currentTime, TargetUpdateTick)
        invariant updateDirty <==> 0 < passes
        invariant skipped == if passes == 0 then 0 else passes - 1
        decreases currentTime - nextUpdate
      {
        Arith.StepsToPassStep(currentTime - nextUpdate, TargetUpdateTick);
        nextUpdate := nextUpdate + TargetUpdateTick;
        updateTicks := updateTicks + 1;
        if updateDirty {
          // the skip diagnostic is printed here
          skipped := skipped + 1;
        }
        updateDirty := true;
        passes := passes + 1;
      }
    }

    /** The update branch: the cell-timer countdown, the row-full test, a clock
        reading, and the catch-up of nextUpdate. One logic step runs however
        many periods have passed; the skip diagnostic is counted in `skipped`,
        once per period beyond the first. */
    method RunUpdate(sample: int, picks: seq<Pick>) returns (toggles: nat, full: bool, skipped: nat)
      requires Valid() && UpdateDue() && clock <= sample
      requires |picks| >= TogglesDue(timer - 1, timerDelayFrames)
      modifies this
      ensures Valid()
      ensures toggles == TogglesDue(old(timer) - 1, timerDelayFrames) <= 1
      ensures timer == TimerAfter(old(timer) - 1, timerDelayFrames)
      ensures row1 == ApplyPicks(old(row1), picks[..toggles])
      ensures full == Full(row1)
      ensures skipped + 1 == CatchUpCount(old(nextUpdate), currentTime, TargetUpdateTick)
      ensures nextUpdate == old(nextUpdate) + (skipped + 1) * TargetUpdateTick
      ensures currentTime < nextUpdate <= currentTime + TargetUpdateTick
      ensures updateTicks == old(updateTicks) + skipped + 1
      ensures currentUpdate == sample && lastUpdate == sample && clock == sample
      ensures currentTime == old(currentTime) && origin == old(origin) && text == old(text)
      ensures nextDraw == old(nextDraw) && currentDraw == old(currentDraw) && lastDraw == old(lastDraw)
    {
      TimerStaysInRange(timer, timerDelayFrames);
      // PollInputEvents() is backend input and is left out.
      toggles := CountDown(picks);
      full := Full(row1);
      currentUpdate := sample;
      clock := sample;
      skipped := CatchUp();
      lastUpdate := currentUpdate;
    }

    /** The draw branch: rendering (left out), a clock reading, and a single-step
        reschedule from that reading, with no catch-up. */
    method RunDraw(sample: int)
      requires Valid() && DrawDue() && clock <= sample
      modifies this
      ensures Valid()
      ensures currentDraw == sample && lastDraw == sample && clock == sample
      ensures nextDraw == sample + TargetDrawTick
      ensures old(nextDraw) <= currentTime < nextDraw
      ensures currentTime == old(currentTime) && origin == old(origin) && text == old(text)
      ensures timer == old(timer) && row1 == old(row1)
      ensures nextUpdate == old(nextUpdate) && currentUpdate == old(currentUpdate)
      ensures lastUpdate == old(lastUpdate) && updateTicks == old(updateTicks)
    {
      // BeginDrawing() ... SwapScreenBuffer() are backend calls and are left out.
      currentDraw := sample;
      clock := sample;
      nextDraw := currentDraw + TargetDrawTick;
      lastDraw := currentDraw;
    }

    /** The wait phase: a clock reading, the wait until the earlier deadline,
        the blocking wait only for a positive wait (the wait itself is left
        out), and the reading taken on waking. */
    method Wait(now: int, woke: int) returns (waitTime: int, sleep: nat)
      requires Valid() && clock <= now <= woke
      modifies this
      ensures Valid()
      ensures waitTime == WaitTime(nextUpdate, nextDraw, now)
      ensures sleep == SleepTime(waitTime)
      ensures sleep <= TargetUpdateTick && sleep <= TargetDrawTick
      ensures currentTime == woke && clock == woke
      ensures origin == old(origin) && text == old(text) && timer == old(timer) && row1 == old(row1)
      ensures nextUpdate == old(nextUpdate) && currentUpdate == old(currentUpdate)
      ensures lastUpdate == old(lastUpdate) && updateTicks == old(updateTicks)
      ensures nextDraw == old(nextDraw) && currentDraw == old(currentDraw) && lastDraw == old(lastDraw)
    {
      var compareUpdateDraw := if nextUpdate < nextDraw then -1 else if nextUpdate > nextDraw then 1 else 0;
      currentTime := now;
      clock := now;
      if compareUpdateDraw < 0 {
        waitTime := nextUpdate - currentTime;
      } else if compareUpdateDraw > 0 {
        waitTime := nextDraw - currentTime;
      } else {
        waitTime := nextUpdate - currentTime;
      }
      if waitTime > 0 {
        sleep := waitTime;
      } else {
        sleep := 0;
      }
      currentTime := woke;
      clock := woke;
    }

    /** One pass of the frame loop, with the row-full status kept across
        passes: update if due, then draw if due, then wait. A draw always shows
        the status of the row as it is. */
    method Iteration(updateSample: int, picks: seq<Pick>, drawSample: int, waitSample: int, wakeSample: int)
      returns (updated: bool, skipped: nat, drew: bool, shown: Option<bool>, sleep: nat)
      requires Valid() && TextCurrent()
      requires clock <= updateSample <= drawSample <= waitSample <= wakeSample
      requires UpdateDue() ==> |picks| >= TogglesDue(timer - 1, timerDelayFrames)
      modifies this
      ensures Valid() && TextCurrent() && text.Some?
      ensures updated <==> old(currentTime) >= old(nextUpdate)
      ensures drew <==> old(currentTime) >= old(nextDraw)
      ensures updated ==> skipped + 1 == CatchUpCount(old(nextUpdate), old(currentTime), TargetUpdateTick)
      ensures updated ==> nextUpdate == old(nextUpdate) + (skipped + 1) * TargetUpdateTick
      ensures updated ==> timer == TimerAfter(old(timer) - 1, timerDelayFrames)
      ensures updated ==> row1 == ApplyPicks(old(row1), picks[..TogglesDue(old(timer) - 1, timerDelayFrames)])
      ensures !updated ==> skipped == 0 && nextUpdate == old(nextUpdate)
      ensures !updated ==> timer == old(timer) && row1 == old(row1)
      ensures drew ==> nextDraw == drawSample + TargetDrawTick && shown == Some(Full(row1))
      ensures !drew ==> nextDraw == old(nextDraw)
      ensures old(nextUpdate) <= nextUpdate && old(nextDraw) <= nextDraw
      ensures sleep == SleepTime(WaitTime(nextUpdate, nextDraw, waitSample))
      ensures currentTime == wakeSample && clock == wakeSample
      ensures origin == old(origin) && old(updateTicks) <= updateTicks
    {
      updated, skipped, drew, shown := false, 0, false, None;
      if UpdateDue() {
        var toggles, full;
        toggles, full, skipped := RunUpdate(updateSample, picks);
        text := Some(full);
        updated := true;
      }
      if DrawDue() {
        shown := text;
        RunDraw(drawSample);
        drew := true;
      }
      var waitTime;
      waitTime, sleep := Wait(waitSample, wakeSample);
    }

    /** One pass of the frame loop as src/main.cpp writes it: the row-full text
        is a variable of the loop body that only the update branch assigns, so a
        draw in a pass without an update reads it unassigned (None). */
    method IterationAsWritten(updateSample: int, picks: seq<Pick>, drawSample: int, waitSample: int, wakeSample: int)
      returns (updated: bool, skipped: nat, drew: bool, shown: Option<bool>, sleep: nat)
      requires Valid()
      requires clock <= updateSample <= drawSample <= waitSample <= wakeSample
      requires UpdateDue() ==> |picks| >= TogglesDue(timer - 1, timerDelayFrames)
      modifies this
      ensures Valid()
      ensures updated <==> old(currentTime) >= old(nextUpdate)
      ensures drew <==> old(currentTime) >= old(nextDraw)
      ensures updated ==> skipped + 1 == CatchUpCount(old(nextUpdate), old(currentTime), TargetUpdateTick)
      ensures updated ==> nextUpdate == old(nextUpdate) + (skipped + 1) * TargetUpdateTick
      ensures !updated ==> nextUpdate == old(nextUpdate)
      ensures drew ==> nextDraw == drawSample + TargetDrawTick
      ensures !drew ==> nextDraw == old(nextDraw)
      ensures drew && updated ==> shown == Some(Full(row1))
      ensures drew && !updated ==> shown == None
      ensures updated ==> timer == TimerAfter(old(timer) - 1, timerDelayFrames)
      ensures updated ==> row1 == ApplyPicks(old(row1), picks[..TogglesDue(old(timer) - 1, timerDelayFrames)])
      ensures !updated ==> skipped == 0 && timer == old(timer) && row1 == old(row1)
      ensures currentTime == wakeSample && clock == wakeSample
    {
      var frameText: Option<bool> := None;
      updated, skipped, drew, shown := false, 0, false, None;
      if UpdateDue() {
        var toggles, full;
        toggles, full, skipped := RunUpdate(updateSample, picks);
        frameText := Some(full);
        updated := true;
      }
      if DrawDue() {
        shown := frameText;
        RunDraw(drawSample);
        drew := true;
      }
      var waitTime;
      waitTime, sleep := Wait(waitSample, wakeSample);
    }

    /** The main loop: passes of the frame loop until a close is
        requested or the supplied readings run out. The deadlines never move
        backward, and the update deadline only moves by whole periods. */
    method Run(frames: seq<Frame>) returns (passes: nat)
      requires Valid() && TextCurrent()
      requires ClockOrdered(clock, frames)
      requires forall k :: 0 <= k < |frames| ==> 1 <= |frames[k].picks|
      modifies this
      ensures Valid() && TextCurrent()
      ensures passes <= |frames|
      ensures forall k :: 0 <= k < passes ==> !frames[k].closeRequested
      ensures passes < |frames| ==> frames[passes].closeRequested
      ensures old(nextUpdate) <= nextUpdate && old(nextDraw) <= nextDraw
      ensures nextUpdate - old(nextUpdate) == (updateTicks - old(updateTicks)) * TargetUpdateTick
    {
      passes := 0;
      while passes < |frames| && !frames[passes].closeRequested
        invariant passes <= |frames|
        invariant Valid() && TextCurrent()
        invariant forall k :: 0 <= k < passes ==> !frames[k].closeRequested
        invariant passes < |frames| ==> clock <= frames[passes].updateSample
        invariant old(nextUpdate) <= nextUpdate && old(nextDraw) <= nextDraw
        invariant old(updateTicks) <= updateTicks && origin == old(origin)
      {
        var f := frames[passes];
        TimerStaysInRange(timer, timerDelayFrames);
        var updated, skipped, drew, shown, sleep :=
          Iteration(f.updateSample, f.picks, f.drawSample, f.waitSample, f.wakeSample);
        passes := passes + 1;
      }
      Arith.MulSub(updateTicks, old(updateTicks), TargetUpdateTick);
    }
  }

  /** A concrete run of the as-written pass in which a draw reads the row-full
      status although no update assigned it: start at 0; the second pass wakes
      50 ns after ten update periods and catches the update deadline up to
      eleven periods; the third wakes on the draw deadline (one draw period
      after the first draw's reading of 100) while the update deadline is still
      ahead. */
  method UnassignedTextWitness() returns (drew: bool, shown: Option<bool>)
    ensures drew && shown == None
  {
    TickConstants();
    var t := new Ticker(0, DefaultTimerDelayFrames);
    var updated, skipped, sleep;
    updated, skipped, drew, shown, sleep := t.IterationAsWritten(0, [], 100, 100, 16666710);
    assert t.nextUpdate == 1666666 && t.nextDraw == 16666766 && t.timer == 149;
    updated, skipped, drew, shown, sleep := t.IterationAsWritten(16666710, [], 16666710, 16666710, 16666766);
    assert t.nextUpdate == 18333326 && t.nextDraw == 16666766;
    updated, skipped, drew, shown, sleep := t.IterationAsWritten(16666766, [], 16666766, 16666766, 16666766);
  }
}
