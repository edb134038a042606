/** The booking worker of shift_booking.py: on a POST to /trigger it logs in,
    finds today's column and books every available AIN or CSE shift in it.

    The browser is outside the model. What it shows is given as values (the
    login outcome, today's column, the shifts of its Available section and how
    each shift's popup behaves) and what the worker does to it is recorded as a
    sequence of `Action`s. */
module Booking {
  import opened Wrappers
  import Roles

  /** How far the booking popup of a shift gets before an error, which
      `handle_popup` or `confirm_job` catches: the right panel, its name field or
      its Accept button is missing; typing the name raises; clicking Accept
      raises; the Confirm button is missing or clicking it raises; or nothing
      fails. */
  datatype Panel = PanelMissing | TypingFails | AcceptFails | ConfirmMissing | Completes

  /** One `cal-event` of the Available section: the inner text of its `role`
      element (None when it has none) and how its popup behaves. */
  datatype Shift = Shift(role: Option<string>, panel: Panel)

  datatype Action =
    | ClickShift(index: nat)       // click on the index-th available shift
    | EnterName(index: nat)        // a generated first name typed into the popup
    | AcceptShift(index: nat)      // the popup's Accept Shift button clicked
    | ConfirmShift(index: nat)     // the Confirm button clicked
    | DebugCapture(prefix: string) // `save_debug_info(driver, prefix)`

  const NoShiftsFound := "no_shifts_found"
  const NoTrackedShiftsFound := "no_ain_cse_shifts_found"

  /** `confirm_job`: an error is caught and reported, nothing else happens. */
  function ConfirmJob(index: nat, panel: Panel): (acts: seq<Action>)
    ensures acts == [] || acts == [ConfirmShift(index)]
    ensures acts == [ConfirmShift(index)] <==> panel == Completes
  {
    if panel == Completes then [ConfirmShift(index)] else []
  }

  /** `handle_popup`: the name is typed, Accept clicked and the job confirmed,
      each only if everything before it succeeded; the error that stops it is
      caught, so it never fails its caller. */
  function HandlePopup(index: nat, panel: Panel): (acts: seq<Action>)
    ensures acts <= [EnterName(index), AcceptShift(index), ConfirmShift(index)]
    ensures EnterName(index) in acts <==> panel != PanelMissing && panel != TypingFails
    ensures AcceptShift(index) in acts <==> panel == ConfirmMissing || panel == Completes
    ensures ConfirmShift(index) in acts <==> panel == Completes
  {
    if panel == PanelMissing || panel == TypingFails then []
    else if panel == AcceptFails then [EnterName(index)]
    else [EnterName(index), AcceptShift(index)] + ConfirmJob(index, panel)
  }

  /** The shift carries exactly the text AIN or CSE in its role element. */
  predicate Matches(s: Shift) {
    s.role.Some? && Roles.IsTrackedRole(s.role.value)
  }

  /** Positions of the matching shifts, in the order of the page. */
  function MatchingIndices(shifts: seq<Shift>): (r: seq<nat>)
    ensures forall k :: 0 <= k < |r| ==> r[k] < |shifts| && Matches(shifts[r[k]])
    ensures forall i :: 0 <= i < |shifts| && Matches(shifts[i]) ==> i in r
    ensures forall a, b :: 0 <= a < b < |r| ==> r[a] < r[b]
  {
    if shifts == [] then []
    else
      var n := |shifts| - 1;
      assert forall i :: 0 <= i < n ==> shifts[..n][i] == shifts[i];
      MatchingIndices(shifts[..n]) + (if Matches(shifts[n]) then [n] else [])
  }

  /** Each selected shift clicked in turn, each followed by its popup. */
  function ClickAll(shifts: seq<Shift>, idx: seq<nat>): seq<Action>
    requires forall k :: 0 <= k < |idx| ==> idx[k] < |shifts|
  {
    if idx == [] then []
    else
      var last := idx[|idx| - 1];
      ClickAll(shifts, idx[..|idx| - 1]) + ClickOne(shifts, last)
  }

  /** One iteration of the clicking loop: the click, then `handle_popup`. */
  function ClickOne(shifts: seq<Shift>, index: nat): seq<Action>
    requires index < |shifts|
  {
    [ClickShift(index)] + HandlePopup(index, shifts[index].panel)
  }

  /** `check_and_click_shifts(driver, today_column)`: whether it returns True,
      and what it does. `section` is None when the Available section is not
      found. A shift without a role element raises before anything is clicked. */
  function ClickSpec(section: Option<seq<Shift>>): (bool, seq<Action>) {
    if section.None? || section.value == [] then (false, [DebugCapture(NoShiftsFound)])
    else if exists i :: 0 <= i < |section.value| && section.value[i].role.None? then (false, [DebugCapture(NoShiftsFound)])
    else
      var idx := MatchingIndices(section.value);
      if idx == [] then (false, [DebugCapture(NoTrackedShiftsFound)])
      else (true, ClickAll(section.value, idx))
  }

  /** The indices of the shifts clicked, in order. */
  function Clicked(actions: seq<Action>): seq<nat> {
    if actions == [] then []
    else
      var last := actions[|actions| - 1];
      Clicked(actions[..|actions| - 1]) + (if last.ClickShift? then [last.index] else [])
  }

  method CheckAndClickShifts(section: Option<seq<Shift>>) returns (booked: bool, actions: seq<Action>)
    ensures (booked, actions) == ClickSpec(section)
  {
    if section.None? {
      return false, [DebugCapture(NoShiftsFound)];
    }
    var shifts := section.value;
    if shifts == [] {
      return false, [DebugCapture(NoShiftsFound)];
    }
    var filtered := FilterShifts(shifts);
    if filtered.None? {
      return false, [DebugCapture(NoShiftsFound)];
    }
    if filtered.value == [] {
      return false, [DebugCapture(NoTrackedShiftsFound)];
    }
    actions := ClickEach(shifts, filtered.value);
    booked := true;
  }

  /** The filtering loop of check_and_click_shifts: None when a shift has no
      role element (find_element raises), otherwise the matching positions. */
  method FilterShifts(shifts: seq<Shift>) returns (filtered: Option<seq<nat>>)
    ensures filtered.None? <==> exists i :: 0 <= i < |shifts| && shifts[i].role.None?
    ensures filtered.Some? ==> filtered.value == MatchingIndices(shifts)
  {
    var found: seq<nat> := [];
    for k := 0 to |shifts|
      invariant forall i :: 0 <= i < k ==> shifts[i].role.Some?
      invariant found == MatchingIndices(shifts[..k])
    {
      if shifts[k].role.None? {
        return None;
      }
      assert shifts[..k + 1][..k] == shifts[..k];
      if Roles.IsTrackedRole(shifts[k].role.value) {
        found := found + [k];
      }
    }
    assert shifts[..|shifts|] == shifts;
    return Some(found);
  }

  /** The clicking loop of check_and_click_shifts. */
  method ClickEach(shifts: seq<Shift>, filtered: seq<nat>) returns (actions: seq<Action>)
    requires forall k :: 0 <= k < |filtered| ==> filtered[k] < |shifts|
    ensures actions == ClickAll(shifts, filtered)
  {
    actions := [];
    for j := 0 to |filtered|
      invariant actions == ClickAll(shifts, filtered[..j])
    {
      assert filtered[..j + 1][..j] == filtered[..j];
      var index := filtered[j];
      actions := actions + [ClickShift(index)];
      actions := actions + HandlePopup(index, shifts[index].panel);
    }
    assert filtered[..|filtered|] == filtered;
  }

  /** `check_and_book_shifts()`: `column` is None when find_today_column finds
      no column, and otherwise holds what that column's Available section
      yields. The result of check_and_click_shifts is ignored. */
  method CheckAndBookShifts(loginOk: bool, column: Option<Option<seq<Shift>>>) returns (actions: seq<Action>)
    ensures actions == BookSpec(loginOk, column)
  {
    actions := [];
    if loginOk {
      if column.Some? {
        var _, acts := CheckAndClickShifts(column.value);
        actions := acts;
      }
    }
  }

  function BookSpec(loginOk: bool, column: Option<Option<seq<Shift>>>): seq<Action> {
    if loginOk && column.Some? then ClickSpec(column.value).1 else []
  }

  const TriggerPath := "/trigger"
  const TriggerReply := "Shift booking triggered"

  /** `RequestHandler.do_POST`: the booking runs, and is answered with 200,
      only for /trigger; any other path gets 404 and no booking. */
  method DoPost(path: string, loginOk: bool, column: Option<Option<seq<Shift>>>)
    returns (status: int, body: string, actions: seq<Action>)
    ensures path == TriggerPath ==> status == 200 && body == TriggerReply && actions == BookSpec(loginOk, column)
    ensures path != TriggerPath ==> status == 404 && body == "" && actions == []
  {
    if path == TriggerPath {
      actions := CheckAndBookShifts(loginOk, column);
      status, body := 200, TriggerReply;
    } else {
      status, body, actions := 404, "", [];
    }
  }

  // Properties of the booking decision.

  lemma {:induction false} ClickedAppend(a: seq<Action>, b: seq<Action>)
    ensures Clicked(a + b) == Clicked(a) + Clicked(b)
  {
    if b != [] {
      assert (a + b)[..|a + b| - 1] == a + b[..|b| - 1];
      ClickedAppend(a, b[..|b| - 1]);
    } else {
      assert a + b == a;
    }
  }

  /** A popup clicks no shift. */
  lemma PopupClicksNothing(index: nat, panel: Panel)
    ensures Clicked(HandlePopup(index, panel)) == []
  {
    NoClicks(HandlePopup(index, panel));
  }

  lemma ClickOneClicks(shifts: seq<Shift>, index: nat)
    requires index < |shifts|
    ensures Clicked(ClickOne(shifts, index)) == [index]
  {
    var popup := HandlePopup(index, shifts[index].panel);
    PopupClicksNothing(index, shifts[index].panel);
    ClickedAppend([ClickShift(index)], popup);
    assert Clicked([ClickShift(index)]) == [index];
  }

  lemma {:induction false} NoClicks(actions: seq<Action>)
    requires forall k :: 0 <= k < |actions| ==> !actions[k].ClickShift?
    ensures Clicked(actions) == []
  {
    if actions != [] {
      NoClicks(actions[..|actions| - 1]);
    }
  }

  /** The shifts clicked are exactly the selected ones, each once, in order. */
  lemma {:induction false} ClickAllClicks(shifts: seq<Shift>, idx: seq<nat>)
    requires forall k :: 0 <= k < |idx| ==> idx[k] < |shifts|
    ensures Clicked(ClickAll(shifts, idx)) == idx
  {
    if idx != [] {
      var init, last := idx[..|idx| - 1], idx[|idx| - 1];
      var before, step := ClickAll(shifts, init), ClickOne(shifts, last);
      assert Clicked(ClickAll(shifts, idx)) == Clicked(before) + Clicked(step) by {
        assert ClickAll(shifts, idx) == before + step;
        ClickedAppend(before, step);
      }
      ClickAllClicks(shifts, init);
      ClickOneClicks(shifts, last);
      LastSplit(idx);
    }
  }

  lemma LastSplit<T>(s: seq<T>)
    requires s != []
    ensures s == s[..|s| - 1] + [s[|s| - 1]]
  {
  }

  /** The section has shifts, each with a role element, and one of them is
      AIN or CSE. */
  predicate Bookable(section: Option<seq<Shift>>) {
    && section.Some? && section.value != []
    && (forall i :: 0 <= i < |section.value| ==> section.value[i].role.Some?)
    && (exists i :: 0 <= i < |section.value| && Matches(section.value[i]))
  }

  /** check_and_click_shifts returns True exactly for a bookable section. */
  lemma BookedIffBookable(section: Option<seq<Shift>>)
    ensures ClickSpec(section).0 <==> Bookable(section)
  {
    if ClickSpec(section).0 {
      var k := MatchingIndices(section.value)[0];
      assert Matches(section.value[k]);
    } else if section.Some? && section.value != []
              && (forall i :: 0 <= i < |section.value| ==> section.value[i].role.Some?) {
      assert MatchingIndices(section.value) == [];
    }
  }

  /** When it returns True it has clicked exactly the matching shifts, each
      once, in page order. */
  lemma BookedClicksMatching(section: Option<seq<Shift>>)
    requires ClickSpec(section).0
    ensures Clicked(ClickSpec(section).1) == MatchingIndices(section.value)
  {
    ClickAllClicks(section.value, MatchingIndices(section.value));
  }

  /** When it returns False it has clicked nothing and left one debug capture,
      named after the reason: `no_ain_cse_shifts_found` exactly when there are
      shifts, all with a role element, and none is AIN or CSE, and
      `no_shifts_found` otherwise. */
  lemma UnbookedClicksNothing(section: Option<seq<Shift>>)
    requires !ClickSpec(section).0
    ensures var actions := ClickSpec(section).1;
            && (actions == [DebugCapture(NoShiftsFound)] || actions == [DebugCapture(NoTrackedShiftsFound)])
            && Clicked(actions) == []
    ensures ClickSpec(section).1 == [DebugCapture(NoTrackedShiftsFound)] <==>
              && section.Some? && section.value != []
              && forall i :: 0 <= i < |section.value| ==> section.value[i].role.Some?
  {
    assert NoShiftsFound != NoTrackedShiftsFound;
    NoClicks(ClickSpec(section).1);
  }

  /** How the popups behave never changes which shifts are clicked or whether
      the worker reports a booking. */
  lemma PopupsDoNotMatter(a: seq<Shift>, b: seq<Shift>)
    requires |a| == |b| && forall i :: 0 <= i < |a| ==> a[i].role == b[i].role
    ensures ClickSpec(Some(a)).0 == ClickSpec(Some(b)).0
    ensures Clicked(ClickSpec(Some(a)).1) == Clicked(ClickSpec(Some(b)).1)
  {
    MatchingIndicesByRole(a, b);
    if ClickSpec(Some(a)).0 {
      BookedClicksMatching(Some(a));
      BookedClicksMatching(Some(b));
    } else {
      UnbookedClicksNothing(Some(a));
      UnbookedClicksNothing(Some(b));
    }
  }

  lemma {:induction false} MatchingIndicesByRole(a: seq<Shift>, b: seq<Shift>)
    requires |a| == |b| && forall i :: 0 <= i < |a| ==> a[i].role == b[i].role
    ensures MatchingIndices(a) == MatchingIndices(b)
  {
    if a != [] {
      var n := |a| - 1;
      MatchingIndicesByRole(a[..n], b[..n]);
    }
  }

  /** The worker clicks a shift only after a successful login and a found
      column. */
  lemma BookingGated(loginOk: bool, column: Option<Option<seq<Shift>>>)
    ensures Clicked(BookSpec(loginOk, column)) != [] ==> loginOk && column.Some?
    ensures !loginOk || column.None? ==> BookSpec(loginOk, column) == []
  {
  }
}
