/** One polling cycle of `monitor_available_section` (monitor.py), as a function
    of the monitor's state and what the browser returned for that cycle.

    The browser, the files and the booking service are outside the model: a
    cycle's input is an `Observation` (the date, the seven day sections or the
    failed retrieval, and whether each day's trigger POST would be answered),
    and everything the monitor writes or sends is recorded as an `Effect`. */
module Cycle {
  import opened Wrappers
  import Week

  /** How two snapshots of a day are compared: `compare_html`, which is
      `Diff.CompareHtml` with the monitor's HTML parser. */
  type Comparer = (string, string) -> seq<string>

  /** What is written to the signal file on every detected change. */
  const SignalToken := "trigger"

  datatype Effect =
    | ChangeLog(day: Week.Label, changes: seq<string>)  // `log_changes` writes `html_changes_<timestamp>.log`
    | SignalWrite(content: string)                     // the signal file is overwritten
    | TriggerPost                                      // POST to the booking service's /trigger

  /** One cycle's input. `sections` is None when retrieving the sections raised,
      otherwise one entry per label of the current week, None for a day whose
      section was not found. `answered[i]` is false when the trigger POST sent
      for the i-th day, if one is sent, raises. */
  datatype Observation = Observation(today: int, sections: Option<seq<Option<string>>>, answered: seq<bool>)

  /** The retrieval yields one entry, and one POST outcome, for each of the
      seven labels. */
  predicate WellFormed(o: Observation) {
    o.sections.Some? ==> |o.sections.value| == 7 && |o.answered| == 7
  }

  /** Every POST of the cycle is answered. */
  predicate AllAnswered(o: Observation) {
    forall i :: 0 <= i < |o.answered| ==> o.answered[i]
  }

  /** One day of a retrieved cycle, in the order the monitor visits them, with
      whether its trigger POST would be answered. */
  datatype Entry = Entry(day: Week.Label, html: Option<string>, answered: bool)

  function Entries(o: Observation): (es: seq<Entry>)
    requires WellFormed(o) && o.sections.Some?
    ensures |es| == 7
    ensures forall i :: 0 <= i < 7 ==> es[i] == Entry(Week.GetDaysOfWeek(o.today)[i], o.sections.value[i], o.answered[i])
  {
    var days := Week.GetDaysOfWeek(o.today);
    seq(7, i requires 0 <= i < 7 => Entry(days[i], o.sections.value[i], o.answered[i]))
  }

  /** The loop's state: the run counter, the stored baseline per day, everything
      written or sent so far, and whether an uncaught exception ended the loop. */
  datatype State = State(runCount: nat, previous: map<Week.Label, string>, effects: seq<Effect>, crashed: bool)

  const Initial := State(0, map[], [], false)

  /** `previous_html.get(day, '')` */
  function Baseline(previous: map<Week.Label, string>, day: Week.Label): string {
    if day in previous then previous[day] else ""
  }

  /** The section is present, non-empty and differs from the stored baseline. */
  predicate Fresh(previous: map<Week.Label, string>, e: Entry) {
    e.html.Some? && e.html.value != "" && (e.day !in previous || previous[e.day] != e.html.value)
  }

  function Changes(compare: Comparer, previous: map<Week.Label, string>, e: Entry): seq<string>
    requires e.html.Some?
  {
    compare(Baseline(previous, e.day), e.html.value)
  }

  /** A day that triggers: fresh, and its diff against the baseline is non-empty. */
  predicate Qualifies(compare: Comparer, previous: map<Week.Label, string>, e: Entry) {
    Fresh(previous, e) && Changes(compare, previous, e) != []
  }

  /** What a triggering day writes and sends, in order. */
  function Announcement(compare: Comparer, previous: map<Week.Label, string>, e: Entry): seq<Effect>
    requires e.html.Some?
  {
    [ChangeLog(e.day, Changes(compare, previous, e)), SignalWrite(SignalToken), TriggerPost]
  }

  /** The body of the per-day loop. A POST that is not answered raises after
      the log, the baseline and the signal file have been written. */
  function StepDay(compare: Comparer, st: State, e: Entry): (r: State)
    ensures r.runCount == st.runCount
    ensures r == st <==> st.crashed || !Qualifies(compare, st.previous, e)
    ensures r.crashed <==> st.crashed || (Qualifies(compare, st.previous, e) && !e.answered)
    ensures forall d :: d != e.day ==> Baseline(r.previous, d) == Baseline(st.previous, d)
    ensures r != st ==> !Fresh(r.previous, e) && r.effects == st.effects + Announcement(compare, st.previous, e)
  {
    if st.crashed || !Qualifies(compare, st.previous, e) then st
    else st.(previous := st.previous[e.day := e.html.value],
             effects := st.effects + Announcement(compare, st.previous, e),
             crashed := !e.answered)
  }

  /** The per-day loop over `es`. */
  function StepDays(compare: Comparer, st: State, es: seq<Entry>): (r: State)
    ensures r.runCount == st.runCount
    ensures st.crashed ==> r == st
    ensures st.previous.Keys <= r.previous.Keys
    ensures |st.effects| <= |r.effects| && r.effects[..|st.effects|] == st.effects
  {
    if es == [] then st
    else StepDay(compare, StepDays(compare, st, es[..|es| - 1]), es[|es| - 1])
  }

  /** One iteration of the `while` loop: a failed retrieval is skipped without
      counting; otherwise every day is visited and the cycle counts, unless the
      POST raised. */
  function CycleStep(compare: Comparer, st: State, o: Observation): (r: State)
    requires WellFormed(o)
    ensures st.crashed || o.sections.None? ==> r == st
    ensures !st.crashed && o.sections.Some? && !r.crashed ==> r.runCount == st.runCount + 1
    ensures r.crashed ==> r.runCount == st.runCount
    ensures |st.effects| <= |r.effects| && r.effects[..|st.effects|] == st.effects
  {
    if st.crashed || o.sections.None? then st
    else
      var s := StepDays(compare, st, Entries(o));
      if s.crashed then s else s.(runCount := s.runCount + 1)
  }

  lemma StepDaysNext(compare: Comparer, st: State, es: seq<Entry>, i: nat)
    requires i < |es|
    ensures StepDays(compare, st, es[..i + 1]) == StepDay(compare, StepDays(compare, st, es[..i]), es[i])
  {
    assert es[..i + 1][..i] == es[..i];
  }

  /** Once the loop has crashed, the remaining days change nothing. */
  lemma {:induction false} StepDaysAfterCrash(compare: Comparer, st: State, es: seq<Entry>, i: nat)
    requires i <= |es| && StepDays(compare, st, es[..i]).crashed
    ensures StepDays(compare, st, es) == StepDays(compare, st, es[..i])
    decreases |es|
  {
    if i < |es| {
      assert es[..|es| - 1][..i] == es[..i];
      StepDaysAfterCrash(compare, st, es[..|es| - 1], i);
    } else {
      assert es[..i] == es;
    }
  }

  // An independent description of a cycle, in terms of the baseline at the
  // start of the cycle rather than the running one.

  /** The days of `es` that qualify against the baseline `previous`, in order. */
  function Qualifying(compare: Comparer, previous: map<Week.Label, string>, es: seq<Entry>): (q: seq<Entry>)
    ensures |q| <= |es|
    ensures forall x :: x in q <==> x in es && Qualifies(compare, previous, x)
    ensures forall i :: 0 <= i < |q| ==> Qualifies(compare, previous, q[i])
  {
    if es == [] then []
    else
      var last := es[|es| - 1];
      assert es == es[..|es| - 1] + [last];
      Qualifying(compare, previous, es[..|es| - 1]) + (if Qualifies(compare, previous, last) then [last] else [])
  }

  function Announce(compare: Comparer, previous: map<Week.Label, string>, q: seq<Entry>): (r: seq<Effect>)
    requires forall x :: x in q ==> x.html.Some?
    ensures |r| == 3 * |q|
  {
    if q == [] then []
    else Announce(compare, previous, q[..|q| - 1]) + Announcement(compare, previous, q[|q| - 1])
  }

  /** The baseline after storing the section of every day in `q`. */
  function Rebase(previous: map<Week.Label, string>, q: seq<Entry>): (r: map<Week.Label, string>)
    requires forall x :: x in q ==> x.html.Some?
  {
    if q == [] then previous
    else Rebase(previous, q[..|q| - 1])[q[|q| - 1].day := q[|q| - 1].html.value]
  }

  /** The state after storing and announcing every day of `q`. */
  function Stored(compare: Comparer, st: State, q: seq<Entry>): State
    requires forall x :: x in q ==> x.html.Some?
  {
    st.(previous := Rebase(st.previous, q), effects := st.effects + Announce(compare, st.previous, q))
  }

  /** Number of trigger POSTs among the effects. */
  function Posts(effects: seq<Effect>): nat {
    if effects == [] then 0
    else Posts(effects[..|effects| - 1]) + (if effects[|effects| - 1].TriggerPost? then 1 else 0)
  }

  predicate DistinctDays(es: seq<Entry>) {
    forall i, j :: 0 <= i < j < |es| ==> es[i].day != es[j].day
  }

  lemma EntriesDistinct(o: Observation)
    requires WellFormed(o) && o.sections.Some?
    ensures DistinctDays(Entries(o))
  {
    Week.DaysOfWeekDistinct(o.today);
  }

  lemma {:induction false} PostsAppend(a: seq<Effect>, b: seq<Effect>)
    ensures Posts(a + b) == Posts(a) + Posts(b)
  {
    if b != [] {
      assert (a + b)[..|a + b| - 1] == a + b[..|b| - 1];
      PostsAppend(a, b[..|b| - 1]);
    } else {
      assert a + b == a;
    }
  }

  /** Every triggering day sends exactly one POST. */
  lemma {:induction false} PostsOfAnnounce(compare: Comparer, previous: map<Week.Label, string>, q: seq<Entry>)
    requires forall x :: x in q ==> x.html.Some?
    ensures Posts(Announce(compare, previous, q)) == |q|
  {
    if q != [] {
      var init, last := q[..|q| - 1], q[|q| - 1];
      PostsOfAnnounce(compare, previous, init);
      var ann := Announcement(compare, previous, last);
      PostsAppend(Announce(compare, previous, init), ann);
      PostsOfAnnouncement(last.day, Changes(compare, previous, last));
    }
  }

  lemma PostsOfAnnouncement(day: Week.Label, changes: seq<string>)
    ensures Posts([ChangeLog(day, changes), SignalWrite(SignalToken), TriggerPost]) == 1
  {
    var ann := [ChangeLog(day, changes), SignalWrite(SignalToken), TriggerPost];
    var a1, a2 := ann[..1], ann[..2];
    assert a1[..0] == [];
    assert Posts(a1) == 0;
    assert a2[..1] == a1;
    assert Posts(a2) == 0;
  }

  /** Storing sections of other days leaves a day's baseline alone. */
  lemma {:induction false} RebaseOutside(previous: map<Week.Label, string>, q: seq<Entry>, d: Week.Label)
    requires forall x :: x in q ==> x.html.Some?
    requires forall x :: x in q ==> x.day != d
    ensures (d in Rebase(previous, q)) == (d in previous)
    ensures d in previous ==> Rebase(previous, q)[d] == previous[d]
  {
    if q != [] {
      assert q[|q| - 1] in q;
      RebaseOutside(previous, q[..|q| - 1], d);
    }
  }

  /** A stored day's baseline is its section. */
  lemma {:induction false} RebaseInside(previous: map<Week.Label, string>, q: seq<Entry>, i: nat)
    requires forall x :: x in q ==> x.html.Some?
    requires DistinctDays(q) && i < |q|
    ensures q[i].day in Rebase(previous, q) && Rebase(previous, q)[q[i].day] == q[i].html.value
  {
    if i < |q| - 1 {
      RebaseInside(previous, q[..|q| - 1], i);
    }
  }

  lemma {:induction false} QualifyingDistinct(compare: Comparer, previous: map<Week.Label, string>, es: seq<Entry>)
    requires DistinctDays(es)
    ensures DistinctDays(Qualifying(compare, previous, es))
  {
    if es != [] {
      var init, last := es[..|es| - 1], es[|es| - 1];
      QualifyingDistinct(compare, previous, init);
      var q0 := Qualifying(compare, previous, init);
      forall x | x in q0 ensures x.day != last.day {
        assert x in init;
      }
    }
  }

  /** Whether a day qualifies, and what it announces, depends only on its own
      baseline. */
  lemma SameBaselineSameOutcome(compare: Comparer, p1: map<Week.Label, string>, p2: map<Week.Label, string>, e: Entry)
    requires (e.day in p1) == (e.day in p2) && (e.day in p1 ==> p1[e.day] == p2[e.day])
    ensures Qualifies(compare, p1, e) == Qualifies(compare, p2, e)
    ensures e.html.Some? ==> Announcement(compare, p1, e) == Announcement(compare, p2, e)
  {
    assert Baseline(p1, e.day) == Baseline(p2, e.day);
  }

  lemma Snoc(compare: Comparer, previous: map<Week.Label, string>, q0: seq<Entry>, last: Entry)
    requires forall x :: x in q0 ==> x.html.Some?
    requires last.html.Some?
    ensures Announce(compare, previous, q0 + [last]) == Announce(compare, previous, q0) + Announcement(compare, previous, last)
    ensures Rebase(previous, q0 + [last]) == Rebase(previous, q0)[last.day := last.html.value]
  {
    var q := q0 + [last];
    assert q[..|q| - 1] == q0;
  }

  /** How many qualifying days at the front of `q` have their POST answered:
      the position of the first refused POST, or |q| when there is none. */
  function FirstRefused(q: seq<Entry>): (k: nat)
    ensures k <= |q|
    ensures forall i :: 0 <= i < k ==> q[i].answered
    ensures k < |q| ==> !q[k].answered
  {
    if q == [] then 0
    else
      var k0 := FirstRefused(q[..|q| - 1]);
      if k0 < |q| - 1 then k0 else if q[|q| - 1].answered then |q| else |q| - 1
  }

  /** One more day, whose label no earlier qualifying day has, extends the
      description by that day exactly when it qualifies; its POST decides
      whether the loop goes on. */
  lemma StepAfterStored(compare: Comparer, st: State, q0: seq<Entry>, last: Entry)
    requires !st.crashed
    requires forall x :: x in q0 ==> x.html.Some? && x.day != last.day
    ensures StepDay(compare, Stored(compare, st, q0), last) ==
            if Qualifies(compare, st.previous, last) then Stored(compare, st, q0 + [last]).(crashed := !last.answered)
            else Stored(compare, st, q0)
  {
    var s := Stored(compare, st, q0);
    RebaseOutside(st.previous, q0, last.day);
    SameBaselineSameOutcome(compare, s.previous, st.previous, last);
    if Qualifies(compare, st.previous, last) {
      Snoc(compare, st.previous, q0, last);
      var a0, a1 := Announce(compare, st.previous, q0), Announcement(compare, st.previous, last);
      assert st.effects + a0 + a1 == st.effects + (a0 + a1);
    }
  }

  /** The state after the qualifying days `q` of a cycle: each is logged,
      stored, signalled and posted, until the first whose POST is refused,
      which ends the loop right after its POST. */
  function Outcome(compare: Comparer, st: State, q: seq<Entry>): State
    requires forall x :: x in q ==> x.html.Some?
  {
    var k := FirstRefused(q);
    if k < |q| then Stored(compare, st, q[..k + 1]).(crashed := true) else Stored(compare, st, q)
  }

  /** A cycle over days with distinct labels leaves the outcome of the days
      that qualify against the baseline at the start of the cycle, in order. */
  lemma {:induction false} CycleOutcome(compare: Comparer, st: State, es: seq<Entry>)
    requires !st.crashed && DistinctDays(es)
    ensures StepDays(compare, st, es) == Outcome(compare, st, Qualifying(compare, st.previous, es))
  {
    if es != [] {
      var init, last := es[..|es| - 1], es[|es| - 1];
      CycleOutcome(compare, st, init);
      var q0 := Qualifying(compare, st.previous, init);
      forall x | x in q0 ensures x.html.Some? && x.day != last.day {
        assert x in init;
      }
      OutcomeStep(compare, st, q0, last);
    }
  }

  /** One more day, whose label no earlier qualifying day has, extends the
      outcome by that day exactly when it qualifies. */
  lemma OutcomeStep(compare: Comparer, st: State, q0: seq<Entry>, last: Entry)
    requires !st.crashed
    requires forall x :: x in q0 ==> x.html.Some? && x.day != last.day
    ensures StepDay(compare, Outcome(compare, st, q0), last) ==
            Outcome(compare, st, q0 + (if Qualifies(compare, st.previous, last) then [last] else []))
  {
    var k0 := FirstRefused(q0);
    if !Qualifies(compare, st.previous, last) {
      assert q0 + [] == q0;
      if k0 == |q0| {
        StepAfterStored(compare, st, q0, last);
      }
    } else {
      FirstRefusedSnoc(q0, last);
      if k0 < |q0| {
        TakeSnoc(q0, last, k0 + 1);
      } else {
        StepAfterStored(compare, st, q0, last);
        assert (q0 + [last])[..|q0| + 1] == q0 + [last];
      }
    }
  }

  lemma FirstRefusedSnoc(q0: seq<Entry>, last: Entry)
    ensures var k0 := FirstRefused(q0);
            FirstRefused(q0 + [last]) == if k0 < |q0| then k0 else if last.answered then |q0| + 1 else |q0|
  {
    assert (q0 + [last])[..|q0|] == q0;
  }

  lemma TakeSnoc<T>(q0: seq<T>, x: T, n: nat)
    requires n <= |q0|
    ensures (q0 + [x])[..n] == q0[..n]
  {
  }

  /** When every qualifying day's POST is answered, a cycle stores the section
      of exactly the days that qualify against the baseline at its start, and
      announces each of them, in order. */
  lemma CycleReachable(compare: Comparer, st: State, es: seq<Entry>)
    requires !st.crashed && DistinctDays(es)
    requires forall x :: x in Qualifying(compare, st.previous, es) ==> x.answered
    ensures StepDays(compare, st, es) == Stored(compare, st, Qualifying(compare, st.previous, es))
  {
    CycleOutcome(compare, st, es);
  }

  /** The entries of a cycle whose POSTs are all answered are all answered. */
  lemma EntriesAnswered(o: Observation)
    requires WellFormed(o) && o.sections.Some? && AllAnswered(o)
    ensures forall x :: x in Entries(o) ==> x.answered
  {
    var es := Entries(o);
    forall x | x in es ensures x.answered {
      var i :| 0 <= i < |es| && es[i] == x;
    }
  }

  /** Per cycle, one POST per qualifying day up to and including the first
      refused one; the loop ends iff some qualifying day's POST is refused; the
      baseline moves for exactly the days posted. */
  lemma CyclePosts(compare: Comparer, st: State, o: Observation)
    requires WellFormed(o) && o.sections.Some? && !st.crashed
    ensures var q := Qualifying(compare, st.previous, Entries(o));
            var k := FirstRefused(q);
            var sent := if k < |q| then k + 1 else |q|;
            var r := CycleStep(compare, st, o);
            && Posts(r.effects) == Posts(st.effects) + sent
            && (r.crashed <==> exists i :: 0 <= i < |q| && !q[i].answered)
            && r.previous == Rebase(st.previous, q[..sent])
  {
    var es := Entries(o);
    EntriesDistinct(o);
    CycleOutcome(compare, st, es);
    var q := Qualifying(compare, st.previous, es);
    var k := FirstRefused(q);
    var sent := if k < |q| then k + 1 else |q|;
    if k == |q| {
      assert q[..sent] == q;
    }
    forall x | x in q[..sent] ensures x.html.Some? {
      assert x in q;
    }
    PostsAppend(st.effects, Announce(compare, st.previous, q[..sent]));
    PostsOfAnnounce(compare, st.previous, q[..sent]);
  }

  /** After a cycle, no day of the same retrieval qualifies again. */
  lemma NothingQualifiesTwice(compare: Comparer, previous: map<Week.Label, string>, es: seq<Entry>, x: Entry)
    requires DistinctDays(es) && x in es
    ensures !Qualifies(compare, Rebase(previous, Qualifying(compare, previous, es)), x)
  {
    var q := Qualifying(compare, previous, es);
    QualifyingDistinct(compare, previous, es);
    if x in q {
      var i :| 0 <= i < |q| && q[i] == x;
      RebaseInside(previous, q, i);
    } else {
      forall y | y in q ensures y.day != x.day {
        assert y in es;
      }
      RebaseOutside(previous, q, x.day);
    }
  }

  /** The same retrieval seen twice in a row triggers nothing the second time:
      the second cycle only counts. */
  lemma RepeatedSnapshotIsQuiet(compare: Comparer, st: State, o: Observation)
    requires WellFormed(o) && o.sections.Some? && AllAnswered(o) && !st.crashed
    ensures var s := CycleStep(compare, st, o);
            CycleStep(compare, s, o) == s.(runCount := s.runCount + 1)
  {
    var es := Entries(o);
    EntriesDistinct(o);
    EntriesAnswered(o);
    CycleReachable(compare, st, es);
    var s := CycleStep(compare, st, o);
    var q := Qualifying(compare, st.previous, es);
    assert s.previous == Rebase(st.previous, q);
    var q2 := Qualifying(compare, s.previous, es);
    if q2 != [] {
      assert q2[0] in q2;
      NothingQualifiesTwice(compare, st.previous, es, q2[0]);
      assert false;
    }
    CycleReachable(compare, s, es);
    assert s.effects + [] == s.effects;
  }
}
