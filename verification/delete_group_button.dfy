/**
 * The confirmation dialog of the "Delete group" button
 * (components/DeleteGroupButton.tsx) as a state machine.  React state
 * updates become a pure step function over the five state fields; the
 * network request and the navigation are reported as effects, and the
 * server's answer is fed back in as an event.
 */
module DeleteGroupButton {
  import opened Common
  import Strings

  datatype State = State(
    showConfirm: bool,
    isDeleting: bool,
    error: Option<string>,
    deletePeople: bool,
    confirmDeletion: bool)

  /** The state of a freshly rendered button: every flag off, no error. */
  const Initial: State := State(false, false, None, false, false)

  const FailedMessage: string := "Failed to delete group. Please try again."
  const OfflineMessage: string := "Unable to connect to server. Please check your connection and try again."

  /** What the user does, and what the server answers to the DELETE request. */
  datatype Event =
    | OpenDialog
    | CloseDialog
    | SetDeletePeople(checked: bool)
    | SetConfirmDeletion(checked: bool)
    | ConfirmDelete
    | ResponseOk
    | ResponseError(serverError: Option<string>)
    | NetworkFailure

  /** What a step asks of the outside world. */
  datatype Effect = NoEffect | SendDelete(url: string) | Navigate(path: string)

  /** isDeleteDisabled. */
  predicate IsDeleteDisabled(s: State) {
    s.deletePeople && !s.confirmDeletion
  }

  /** The confirmation check-box is shown only while "delete people" is ticked, so it is never ticked alone. */
  predicate Inv(s: State) {
    s.confirmDeletion ==> s.deletePeople
  }

  /** `new URL('/api/groups/' + groupId, origin)`, with `deletePeople=true` appended when asked. */
  function DeleteUrl(origin: string, groupId: string, deletePeople: bool): string {
    var base := origin + "/api/groups/" + groupId;
    if deletePeople then base + "?deletePeople=true" else base
  }

  const FlagSuffix: string := "?deletePeople=true"

  predicate EndsWith(s: string, suffix: string) {
    |suffix| <= |s| && s[|s| - |suffix|..] == suffix
  }

  /**
   * The request asks for the people to be deleted exactly when the
   * check-box was ticked, and the path always names the group.  Group ids
   * are generated and contain no `?`; a `?` would start the query, and the
   * flag would then follow `&`.
   */
  lemma DeleteUrlCarriesFlag(origin: string, groupId: string, deletePeople: bool)
    requires '?' !in origin && '?' !in groupId
    ensures Strings.StartsWith(DeleteUrl(origin, groupId, deletePeople), origin + "/api/groups/" + groupId)
    ensures EndsWith(DeleteUrl(origin, groupId, deletePeople), FlagSuffix) <==> deletePeople
  {
    var base := origin + "/api/groups/" + groupId;
    var url := DeleteUrl(origin, groupId, deletePeople);
    if deletePeople {
      assert url[..|base|] == base;
      assert url[|url| - |FlagSuffix|..] == FlagSuffix;
    } else {
      assert url[..|base|] == base;
      assert '?' !in "/api/groups/";
      if |FlagSuffix| <= |url| {
        var at := |url| - |FlagSuffix|;
        assert url[at] in base;
        assert url[at..][0] != FlagSuffix[0];
      }
    }
  }

  /** One event handled against the current state. */
  function Step(s: State, e: Event, origin: string, groupId: string): (r: (State, Effect))
    ensures Inv(s) ==> Inv(r.0)
    ensures r.1.SendDelete? ==> s.showConfirm && !IsDeleteDisabled(s) && r.0.isDeleting && r.0.error.None?
    ensures r.1.SendDelete? ==> r.1.url == DeleteUrl(origin, groupId, s.deletePeople)
  {
    match e
    case OpenDialog => (s.(showConfirm := true), NoEffect)
    case CloseDialog =>
      (s.(showConfirm := false, deletePeople := false, confirmDeletion := false, error := None), NoEffect)
    case SetDeletePeople(checked) =>
      if checked then (s.(deletePeople := true), NoEffect)
      else (s.(deletePeople := false, confirmDeletion := false), NoEffect)
    case SetConfirmDeletion(checked) =>
      if s.deletePeople then (s.(confirmDeletion := checked), NoEffect) else (s, NoEffect)
    case ConfirmDelete =>
      if s.showConfirm && !IsDeleteDisabled(s) then
        (s.(isDeleting := true, error := None), SendDelete(DeleteUrl(origin, groupId, s.deletePeople)))
      else (s, NoEffect)
    case ResponseOk => (s, Navigate("/groups"))
    case ResponseError(serverError) =>
      (s.(error := Some(if Truthy(serverError) then serverError.value else FailedMessage), isDeleting := false), NoEffect)
    case NetworkFailure => (s.(error := Some(OfflineMessage), isDeleting := false), NoEffect)
  }

  /** The states and effects of a sequence of events. */
  function Run(s: State, events: seq<Event>, origin: string, groupId: string): (r: (State, seq<Effect>))
    ensures |r.1| == |events|
    decreases |events|
  {
    if |events| == 0 then (s, [])
    else
      var first := Step(s, events[0], origin, groupId);
      var rest := Run(first.0, events[1..], origin, groupId);
      (rest.0, [first.1] + rest.1)
  }

  /** Every reachable state keeps the invariant: the confirmation is never ticked without "delete people". */
  lemma {:induction false} RunKeepsInv(s: State, events: seq<Event>, origin: string, groupId: string)
    requires Inv(s)
    ensures Inv(Run(s, events, origin, groupId).0)
    decreases |events|
  {
    if |events| > 0 {
      RunKeepsInv(Step(s, events[0], origin, groupId).0, events[1..], origin, groupId);
    }
  }

  /** Closing the dialog resets the dialog flags and the error, whatever happened before. */
  lemma CloseResets(s: State, origin: string, groupId: string)
    ensures var r := Step(s, CloseDialog, origin, groupId).0;
      !r.showConfirm && !r.deletePeople && !r.confirmDeletion && r.error.None? && r.isDeleting == s.isDeleting
  {
  }

  /**
   * Unticking "delete people" also unticks the confirmation, from any state,
   * and changes nothing else; ticking it leaves the confirmation as it was.
   */
  lemma UntickClearsConfirmation(s: State, origin: string, groupId: string)
    ensures var r := Step(s, SetDeletePeople(false), origin, groupId);
      && !r.0.deletePeople && !r.0.confirmDeletion
      && r.0.showConfirm == s.showConfirm && r.0.isDeleting == s.isDeleting && r.0.error == s.error
      && r.1 == NoEffect
    ensures var r := Step(s, SetDeletePeople(true), origin, groupId);
      r.0 == s.(deletePeople := true) && r.1 == NoEffect
  {
  }

  /** The confirm button is disabled exactly while "delete people" is ticked without the confirmation. */
  lemma DisabledOnlyWhenUnconfirmed(s: State, origin: string, groupId: string)
    requires s.showConfirm
    ensures Step(s, ConfirmDelete, origin, groupId).1.SendDelete? <==> !(s.deletePeople && !s.confirmDeletion)
  {
  }

  /**
   * A failed answer shows the server's message, or the fixed fallback when
   * it has none, and ends the deleting state; a network failure shows the
   * connection message.
   */
  lemma FailureMessages(s: State, serverError: Option<string>, origin: string, groupId: string)
    ensures var r := Step(s, ResponseError(serverError), origin, groupId).0;
      && !r.isDeleting
      && (Truthy(serverError) ==> r.error == serverError)
      && (!Truthy(serverError) ==> r.error == Some(FailedMessage))
    ensures var r := Step(s, NetworkFailure, origin, groupId).0;
      !r.isDeleting && r.error == Some(OfflineMessage)
  {
  }

  /** The closed-then-reopened dialog has "delete people" unticked. */
  lemma ScenarioCloseResets(origin: string, groupId: string)
    ensures !Run(Initial, [OpenDialog, SetDeletePeople(true), CloseDialog, OpenDialog], origin, groupId).0.deletePeople
  {
  }

  /** Ticking "delete people" disables the confirm button, and ticking the confirmation enables it again. */
  lemma ScenarioDisableEnable(origin: string, groupId: string)
    ensures !IsDeleteDisabled(Run(Initial, [OpenDialog], origin, groupId).0)
    ensures IsDeleteDisabled(Run(Initial, [OpenDialog, SetDeletePeople(true)], origin, groupId).0)
    ensures !IsDeleteDisabled(Run(Initial, [OpenDialog, SetDeletePeople(true), SetConfirmDeletion(true)], origin, groupId).0)
  {
  }

  /** Unticking and re-ticking "delete people" leaves the confirmation unticked. */
  lemma ScenarioResetConfirmation(origin: string, groupId: string)
    ensures !Run(Initial, [OpenDialog, SetDeletePeople(true), SetConfirmDeletion(true),
                           SetDeletePeople(false), SetDeletePeople(true)], origin, groupId).0.confirmDeletion
  {
  }

  /** The three request scenarios: no flag by default, the flag with both boxes ticked, no request with one. */
  lemma ScenarioRequests(origin: string, groupId: string)
    ensures Run(Initial, [OpenDialog, ConfirmDelete], origin, groupId).1[1] == SendDelete(DeleteUrl(origin, groupId, false))
    ensures Run(Initial, [OpenDialog, SetDeletePeople(true), SetConfirmDeletion(true), ConfirmDelete], origin, groupId).1[3]
         == SendDelete(DeleteUrl(origin, groupId, true))
    ensures Run(Initial, [OpenDialog, SetDeletePeople(true), ConfirmDelete], origin, groupId).1 == [NoEffect, NoEffect, NoEffect]
  {
  }

  /** A failing delete shows the server's error text. */
  lemma ScenarioServerError(origin: string, groupId: string)
    ensures Run(Initial, [OpenDialog, ConfirmDelete, ResponseError(Some("Something went wrong"))], origin, groupId).0.error
         == Some("Something went wrong")
  {
  }
}
