/** The monitor loop, `monitor_available_section` in monitor.py: poll every
    `check_interval` seconds, at most `max_runs` counted times, comparing each
    day's section with the stored baseline and triggering the booking service
    on every significant change. The cycle itself is in module Cycle; here are
    the run bound, the loop state as an object, and the outer loop. */
module Monitor {
  import opened Wrappers
  import Extract
  import Diff
  import Cycle
  import Week
  import Numbers

  /** Python's `//`: the quotient rounded toward negative infinity. */
  function FloorDiv(a: int, b: int): (q: int)
    requires b != 0
    ensures b > 0 ==> q * b <= a < q * b + b
    ensures b < 0 ==> q * b + b < a <= q * b
  {
    if b > 0 then a / b else (-a) / (-b)
  }

  /** `(max_duration_mins * 60) // check_interval`; None where Python raises
      ZeroDivisionError. */
  function MaxRuns(checkInterval: int, maxDurationMins: int): (r: Option<int>)
    ensures r.None? <==> checkInterval == 0
    ensures checkInterval > 0 && r.Some? ==>
              r.value * checkInterval <= maxDurationMins * 60 < (r.value + 1) * checkInterval
    ensures checkInterval < 0 && r.Some? ==>
              (r.value + 1) * checkInterval < maxDurationMins * 60 <= r.value * checkInterval
    ensures checkInterval == 3 && maxDurationMins == 10 ==> r == Some(200)
  {
    if checkInterval == 0 then None else Some(FloorDiv(maxDurationMins * 60, checkInterval))
  }

  /** The comparison the monitor applies to a day's two snapshots. */
  function Compare(parse: string -> Extract.Document): Cycle.Comparer {
    (oldHtml, newHtml) => Diff.CompareHtml(parse, oldHtml, newHtml)
  }

  /** A day triggers only if its extracted lines differ from those of its
      baseline; in particular the same page never triggers against itself. */
  lemma QualifiesOnlyOnChange(parse: string -> Extract.Document, previous: map<Week.Label, string>, e: Cycle.Entry)
    requires Cycle.Qualifies(Compare(parse), previous, e)
    ensures Diff.ExtractedLines(parse(Cycle.Baseline(previous, e.day))) != Diff.ExtractedLines(parse(e.html.value))
  {
  }

  predicate AllWellFormed(obs: seq<Cycle.Observation>) {
    forall i :: 0 <= i < |obs| ==> Cycle.WellFormed(obs[i])
  }

  /** The `while run_count < max_runs` loop over a finite sequence of cycle
      inputs, stopping early when the inputs run out or an exception ends it. */
  function RunSpec(compare: Cycle.Comparer, maxRuns: int, st: Cycle.State, obs: seq<Cycle.Observation>): (r: Cycle.State)
    requires AllWellFormed(obs)
    ensures st.runCount <= r.runCount
    ensures r.runCount <= maxRuns || r.runCount == st.runCount
    ensures |st.effects| <= |r.effects| && r.effects[..|st.effects|] == st.effects
    decreases |obs|
  {
    if st.crashed || st.runCount >= maxRuns || obs == [] then st
    else RunSpec(compare, maxRuns, Cycle.CycleStep(compare, st, obs[0]), obs[1..])
  }

  /** Number of cycle inputs whose retrieval succeeded. */
  function Retrieved(obs: seq<Cycle.Observation>): nat {
    if obs == [] then 0 else (if obs[0].sections.Some? then 1 else 0) + Retrieved(obs[1..])
  }

  predicate AllReachable(obs: seq<Cycle.Observation>) {
    forall i :: 0 <= i < |obs| ==> Cycle.AllAnswered(obs[i])
  }

  /** When every POST is answered, the run counter counts exactly the
      retrieved cycles, up to `max_runs`. */
  lemma {:induction false} RunCounts(compare: Cycle.Comparer, maxRuns: int, st: Cycle.State, obs: seq<Cycle.Observation>)
    requires AllWellFormed(obs) && AllReachable(obs) && !st.crashed
    ensures var r := RunSpec(compare, maxRuns, st, obs);
            && !r.crashed
            && r.runCount == if st.runCount >= maxRuns then st.runCount
                             else Numbers.Min(maxRuns, st.runCount + Retrieved(obs))
    decreases |obs|
  {
    if st.runCount < maxRuns && obs != [] {
      var o := obs[0];
      var s := Cycle.CycleStep(compare, st, o);
      if o.sections.Some? {
        Cycle.EntriesDistinct(o);
        Cycle.EntriesAnswered(o);
        Cycle.CycleReachable(compare, st, Cycle.Entries(o));
      }
      RunCounts(compare, maxRuns, s, obs[1..]);
    }
  }

  /** The loop's state: its fields are the locals of `monitor_available_section`
      plus the record of what it wrote and sent. */
  class MonitorLoop {
    const compare: Cycle.Comparer
    const maxRuns: int
    var runCount: nat
    var previous: map<Week.Label, string>
    var effects: seq<Cycle.Effect>
    var crashed: bool

    function Current(): Cycle.State
      reads this
    {
      Cycle.State(runCount, previous, effects, crashed)
    }

    constructor (parse: string -> Extract.Document, maxRuns: int)
      ensures this.compare == Compare(parse) && this.maxRuns == maxRuns
      ensures Current() == Cycle.Initial
    {
      this.compare := Compare(parse);
      this.maxRuns := maxRuns;
      runCount := 0;
      previous := map[];
      effects := [];
      crashed := false;
    }

    /** One iteration of the `while` loop. */
    method Poll(o: Cycle.Observation)
      requires Cycle.WellFormed(o)
      modifies this
      ensures Current() == Cycle.CycleStep(compare, old(Current()), o)
    {
      if crashed || o.sections.None? {
        return;
      }
      // current_html.items(): the week's labels paired with their sections
      var es := Cycle.Entries(o);
      VisitDays(es);
      if !crashed {
        runCount := runCount + 1;
      }
    }

    /** The `for day, html in current_html.items()` loop; each entry also says
        whether its day's trigger POST, if one is sent, is answered. */
    method VisitDays(es: seq<Cycle.Entry>)
      modifies this
      ensures Current() == Cycle.StepDays(compare, old(Current()), es)
    {
      var i := 0;
      while i < |es| && !crashed
        invariant 0 <= i <= |es|
        invariant Current() == Cycle.StepDays(compare, old(Current()), es[..i])
      {
        ghost var before := Current();
        var day, html, answered := es[i].day, es[i].html, es[i].answered;
        if html.Some? && html.value != "" && (day !in previous || previous[day] != html.value) {
          var baseline := if day in previous then previous[day] else "";
          var changes := compare(baseline, html.value);
          if changes != [] {
            // log_changes, the new baseline, the signal file, then the POST
            previous := previous[day := html.value];
            effects := effects + [Cycle.ChangeLog(day, changes), Cycle.SignalWrite(Cycle.SignalToken), Cycle.TriggerPost];
            if !answered {
              crashed := true;
            }
          }
        }
        assert Current() == Cycle.StepDay(compare, before, es[i]);
        Cycle.StepDaysNext(compare, old(Current()), es, i);
        i := i + 1;
      }
      if i < |es| {
        Cycle.StepDaysAfterCrash(compare, old(Current()), es, i);
      } else {
        assert es[..i] == es;
      }
    }

    /** The `while run_count < max_runs` loop, fed one cycle input per iteration. */
    method Run(obs: seq<Cycle.Observation>)
      requires AllWellFormed(obs)
      modifies this
      ensures Current() == RunSpec(compare, maxRuns, old(Current()), obs)
    {
      var i := 0;
      while i < |obs| && runCount < maxRuns && !crashed
        invariant 0 <= i <= |obs|
        invariant RunSpec(compare, maxRuns, Current(), obs[i..]) == RunSpec(compare, maxRuns, old(Current()), obs)
        decreases |obs| - i
      {
        assert obs[i..][1..] == obs[i + 1..];
        Poll(obs[i]);
        i := i + 1;
      }
    }
  }

  /** How `monitor_available_section` ends. */
  datatype Ending =
    | ZeroInterval        // ZeroDivisionError computing max_runs
    | LoginFailed         // returns before polling
    | NegativeSleep       // time.sleep raises ValueError on the first iteration
    | MaxRunsReached      // the loop condition fails
    | TriggerUnreachable  // requests.post raised
    | OutOfObservations   // the modelled inputs ran out first

  /** `monitor_available_section(driver, username, password, check_interval,
      max_duration_mins)`, with the login outcome and the cycle inputs given. */
  method MonitorAvailableSection(parse: string -> Extract.Document, loginOk: bool,
                                 checkInterval: int, maxDurationMins: int,
                                 obs: seq<Cycle.Observation>)
    returns (ending: Ending, final: Cycle.State)
    requires AllWellFormed(obs)
    ensures checkInterval == 0 ==> ending == ZeroInterval && final == Cycle.Initial
    ensures checkInterval != 0 && !loginOk ==> ending == LoginFailed && final == Cycle.Initial
    ensures ending == NegativeSleep <==>
              checkInterval < 0 && loginOk && MaxRuns(checkInterval, maxDurationMins).value > 0
    ensures ending == NegativeSleep ==> final == Cycle.Initial
    ensures ending == ZeroInterval ==> checkInterval == 0
    ensures ending == LoginFailed ==> checkInterval != 0 && !loginOk
    ensures checkInterval != 0 && loginOk && ending != NegativeSleep ==>
              ending in {MaxRunsReached, TriggerUnreachable, OutOfObservations}
    ensures ending in {MaxRunsReached, TriggerUnreachable, OutOfObservations} ==>
              var maxRuns := MaxRuns(checkInterval, maxDurationMins).value;
              && final == RunSpec(Compare(parse), maxRuns, Cycle.Initial, obs)
              && (ending == TriggerUnreachable <==> final.crashed)
              && (ending == MaxRunsReached <==> !final.crashed && final.runCount >= maxRuns)
  {
    var maxRuns := MaxRuns(checkInterval, maxDurationMins);
    if maxRuns.None? {
      return ZeroInterval, Cycle.Initial;
    }
    if !loginOk {
      return LoginFailed, Cycle.Initial;
    }
    if checkInterval < 0 && maxRuns.value > 0 {
      return NegativeSleep, Cycle.Initial;
    }
    var loop := new MonitorLoop(parse, maxRuns.value);
    loop.Run(obs);
    final := loop.Current();
    if final.crashed {
      ending := TriggerUnreachable;
    } else if final.runCount >= maxRuns.value {
      ending := MaxRunsReached;
    } else {
      ending := OutOfObservations;
    }
  }
}
