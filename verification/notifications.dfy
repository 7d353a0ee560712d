/**
 * `NotificationService`: the list of toast notifications the front end shows. Each
 * `show*` call appends one notification whose id is "notification-" followed by a
 * counter incremented first; `dismiss` filters one id out and `dismissAll` empties the
 * list. Auto-dismiss timers are not part of this model.
 */
module Notifications {
  import opened Wrappers
  import Text
  import ApiErrors

  datatype Kind = Success | Error | Warning | Info

  datatype Notification = Notification(
    id: string,
    kind: Kind,
    title: string,
    message: string,
    duration: int,
    dismissible: bool)

  /** The service's state: the notifications shown, oldest first, and the id counter. */
  datatype NotificationState = NotificationState(items: seq<Notification>, counter: nat)

  const Initial := NotificationState([], 0)

  const IdPrefix := "notification-"

  const SuccessDuration := 5000
  const ErrorDuration := 8000
  const WarningDuration := 6000
  const InfoDuration := 5000

  const DefaultHttpErrorMessage := "An error occurred. Please try again."

  /** The id of the `n`-th notification. */
  function IdFor(n: nat): string {
    IdPrefix + Text.NatToString(n)
  }

  /** The counter value an id carries, or None for a string that is not such an id. */
  function IdNumber(id: string): Option<nat> {
    if |id| > |IdPrefix| && id[..|IdPrefix|] == IdPrefix && Text.AllDigits(id[|IdPrefix|..])
    then Some(Text.DigitsValue(id[|IdPrefix|..]))
    else None
  }

  /** Reading an id back gives the counter value it was made from. */
  lemma IdNumberOfIdFor(n: nat)
    ensures IdNumber(IdFor(n)) == Some(n)
  {
    var id := IdFor(n);
    assert id[..|IdPrefix|] == IdPrefix;
    assert id[|IdPrefix|..] == Text.NatToString(n);
    Text.DigitsValueOfNatToString(n);
  }

  /** Different counter values give different ids. */
  lemma IdForInjective(a: nat, b: nat)
    requires IdFor(a) == IdFor(b)
    ensures a == b
  {
    IdNumberOfIdFor(a);
    IdNumberOfIdFor(b);
  }

  /** The counter value of an id, 0 for strings that are not ids. */
  function Num(id: string): nat {
    match IdNumber(id)
    case Some(k) => k
    case None => 0
  }

  /**
   * The service's invariant: every shown notification carries an id issued so far, and
   * the ids grow along the list (so they are pairwise distinct).
   */
  predicate Valid(s: NotificationState) {
    && (forall i :: 0 <= i < |s.items| ==> 1 <= Num(s.items[i].id) <= s.counter)
    && Increasing(s.items)
  }

  lemma InitialIsValid()
    ensures Valid(Initial) && Initial.items == []
  {
  }

  /** In a valid state no two notifications share an id. */
  lemma ValidIdsDistinct(s: NotificationState, i: int, j: int)
    requires Valid(s)
    requires 0 <= i < |s.items| && 0 <= j < |s.items| && i != j
    ensures s.items[i].id != s.items[j].id
  {
  }

  /** `addNotification`: the counter is incremented, then the notification is appended under the new id. */
  function AddNotification(s: NotificationState, kind: Kind, title: string, message: string, duration: int, dismissible: bool): (r: NotificationState)
    ensures r.counter == s.counter + 1
    ensures r.items == s.items + [Notification(IdFor(s.counter + 1), kind, title, message, duration, dismissible)]
    ensures Valid(s) ==> Valid(r)
    ensures Valid(s) ==> forall x :: x in s.items ==> x.id != IdFor(r.counter)
  {
    var n := s.counter + 1;
    var r := NotificationState(s.items + [Notification(IdFor(n), kind, title, message, duration, dismissible)], n);
    IdNumberOfIdFor(n);
    assert Num(IdFor(n)) == n;
    r
  }

  /** `showSuccess(title, message, duration = 5000)`. */
  function ShowSuccess(s: NotificationState, title: string, message: string, duration: int := SuccessDuration): (r: NotificationState)
    ensures r.counter == s.counter + 1
    ensures r.items == s.items + [Notification(IdFor(r.counter), Kind.Success, title, message, duration, true)]
    ensures Valid(s) ==> Valid(r)
  {
    AddNotification(s, Kind.Success, title, message, duration, true)
  }

  /** `showError(title, message, duration = 8000)`. */
  function ShowError(s: NotificationState, title: string, message: string, duration: int := ErrorDuration): (r: NotificationState)
    ensures r.counter == s.counter + 1
    ensures r.items == s.items + [Notification(IdFor(r.counter), Error, title, message, duration, true)]
    ensures Valid(s) ==> Valid(r)
  {
    AddNotification(s, Error, title, message, duration, true)
  }

  /** `showWarning(title, message, duration = 6000)`. */
  function ShowWarning(s: NotificationState, title: string, message: string, duration: int := WarningDuration): (r: NotificationState)
    ensures r.counter == s.counter + 1
    ensures r.items == s.items + [Notification(IdFor(r.counter), Warning, title, message, duration, true)]
    ensures Valid(s) ==> Valid(r)
  {
    AddNotification(s, Warning, title, message, duration, true)
  }

  /** `showInfo(title, message, duration = 5000)`. */
  function ShowInfo(s: NotificationState, title: string, message: string, duration: int := InfoDuration): (r: NotificationState)
    ensures r.counter == s.counter + 1
    ensures r.items == s.items + [Notification(IdFor(r.counter), Info, title, message, duration, true)]
    ensures Valid(s) ==> Valid(r)
  {
    AddNotification(s, Info, title, message, duration, true)
  }

  /** Each `show*` call with its default duration appends one dismissible notification of its kind. */
  lemma ShowDefaults(s: NotificationState, title: string, message: string)
    ensures var r := ShowSuccess(s, title, message);
            r.items[|r.items| - 1] == Notification(IdFor(s.counter + 1), Kind.Success, title, message, 5000, true)
    ensures var r := ShowError(s, title, message);
            r.items[|r.items| - 1] == Notification(IdFor(s.counter + 1), Error, title, message, 8000, true)
    ensures var r := ShowWarning(s, title, message);
            r.items[|r.items| - 1] == Notification(IdFor(s.counter + 1), Warning, title, message, 6000, true)
    ensures var r := ShowInfo(s, title, message);
            r.items[|r.items| - 1] == Notification(IdFor(s.counter + 1), Info, title, message, 5000, true)
  {
  }

  /** The notifications whose id differs from `id`, in their order. */
  function Without(items: seq<Notification>, id: string): (r: seq<Notification>)
    ensures |r| <= |items|
    ensures forall x :: x in r <==> x in items && x.id != id
    ensures (forall x :: x in items ==> x.id != id) ==> r == items
    decreases |items|
  {
    if |items| == 0 then []
    else if items[0].id == id then Without(items[1..], id)
    else [items[0]] + Without(items[1..], id)
  }

  /** Ids grow along the list. */
  predicate Increasing(items: seq<Notification>) {
    forall i, j :: 0 <= i < j < |items| ==> Num(items[i].id) < Num(items[j].id)
  }

  lemma IncreasingCons(first: Notification, rest: seq<Notification>)
    requires Increasing(rest)
    requires forall x :: x in rest ==> Num(first.id) < Num(x.id)
    ensures Increasing([first] + rest)
  {
  }

  lemma IncreasingTail(items: seq<Notification>)
    requires Increasing(items) && |items| > 0
    ensures Increasing(items[1..])
    ensures forall x :: x in items[1..] ==> Num(items[0].id) < Num(x.id)
  {
  }

  /** Filtering keeps the relative order, so growing ids stay growing. */
  lemma {:induction false} WithoutKeepsOrder(items: seq<Notification>, id: string)
    requires Increasing(items)
    ensures Increasing(Without(items, id))
    decreases |items|
  {
    if |items| > 0 {
      IncreasingTail(items);
      WithoutKeepsOrder(items[1..], id);
      if items[0].id != id {
        IncreasingCons(items[0], Without(items[1..], id));
      }
    }
  }

  /** Concatenation regroups freely; stated on its own so the filter proofs need not rediscover it. */
  lemma ConcatAssoc(a: seq<Notification>, b: seq<Notification>, c: seq<Notification>)
    ensures a + (b + c) == (a + b) + c
  {
  }

  /** One step of the filter: the first notification is kept exactly when its id differs. */
  lemma WithoutCons(x: Notification, rest: seq<Notification>, id: string)
    ensures Without([x] + rest, id) == (if x.id == id then [] else [x]) + Without(rest, id)
  {
    assert ([x] + rest)[1..] == rest;
  }

  /**
   * Filtering distributes over concatenation: whatever survives from an earlier part of
   * the list stays before whatever survives from a later part, for any list.
   */
  lemma {:induction false} WithoutConcat(a: seq<Notification>, b: seq<Notification>, id: string)
    ensures Without(a + b, id) == Without(a, id) + Without(b, id)
    decreases |a|
  {
    if |a| == 0 {
      assert a + b == b;
    } else {
      var x, tail := a[0], a[1..];
      var head := if x.id == id then [] else [x];
      assert a == [x] + tail;
      assert a + b == [x] + (tail + b);
      WithoutCons(x, tail + b, id);
      WithoutCons(x, tail, id);
      WithoutConcat(tail, b, id);
      ConcatAssoc(head, Without(tail, id), Without(b, id));
    }
  }

  /** `dismiss(id)`: removes exactly the notifications with that id, keeping the order of the rest. */
  function Dismiss(s: NotificationState, id: string): (r: NotificationState)
    ensures r.counter == s.counter
    ensures forall x :: x in r.items <==> x in s.items && x.id != id
    ensures (forall x :: x in s.items ==> x.id != id) ==> r == s
    ensures Valid(s) ==> Valid(r)
  {
    var r := NotificationState(Without(s.items, id), s.counter);
    assert Valid(s) ==> Valid(r) by {
      if Valid(s) {
        WithoutKeepsOrder(s.items, id);
        forall i | 0 <= i < |r.items|
          ensures 1 <= Num(r.items[i].id) <= r.counter
        {
          assert r.items[i] in s.items;
        }
      }
    }
    r
  }

  /** `dismissAll`: no notifications are left; the counter keeps counting. */
  function DismissAll(s: NotificationState): (r: NotificationState)
    ensures r.items == [] && r.counter == s.counter
    ensures Valid(r)
  {
    NotificationState([], s.counter)
  }

  /** A dismissed notification is gone, and dismissing the newest one undoes its addition. */
  lemma DismissUndoesAdd(s: NotificationState, kind: Kind, title: string, message: string, duration: int, dismissible: bool)
    requires Valid(s)
    ensures var added := AddNotification(s, kind, title, message, duration, dismissible);
            Dismiss(added, IdFor(added.counter)).items == s.items
  {
    var added := AddNotification(s, kind, title, message, duration, dismissible);
    var id := IdFor(added.counter);
    var items := added.items;
    assert items[..|s.items|] == s.items;
    WithoutSnoc(s.items, items[|items| - 1], id);
    assert items == s.items + [items[|items| - 1]];
  }

  lemma {:induction false} WithoutSnoc(items: seq<Notification>, last: Notification, id: string)
    requires last.id == id
    requires forall x :: x in items ==> x.id != id
    ensures Without(items + [last], id) == items
    decreases |items|
  {
    if |items| == 0 {
      assert Without([last], id) == Without([], id);
    } else {
      assert (items + [last])[1..] == items[1..] + [last];
      WithoutSnoc(items[1..], last, id);
      assert [items[0]] + items[1..] == items;
    }
  }

  /** The body of a failed HTTP response, as `showHttpError` inspects it. */
  datatype ErrorBody =
    | NoBody
      /** A JSON object, such as the backend's error body; `message` and `error` may be absent. */
    | ObjectBody(message: Option<string>, error: Option<string>)
      /** Any non-object body (a string, a number): only its truthiness matters, and it is ignored. */
    | OtherBody

  /** The parts of an `HttpErrorResponse` the service reads. */
  datatype HttpErrorResponse = HttpErrorResponse(body: ErrorBody, message: string)

  /** JavaScript truthiness of an optional string: present and non-empty. */
  predicate Truthy(s: Option<string>) {
    s.Some? && s.value != ""
  }

  /**
   * The message `showHttpError` shows: for an object body, its `message`, else its
   * `error`, else the fallback; for any other body, the response's own message, else
   * the fallback.
   */
  function HttpErrorMessage(error: HttpErrorResponse, fallback: string): (m: string)
    ensures error.body.ObjectBody? && Truthy(error.body.message) ==> m == error.body.message.value
    ensures error.body.ObjectBody? && !Truthy(error.body.message) && Truthy(error.body.error) ==> m == error.body.error.value
    ensures error.body.ObjectBody? && !Truthy(error.body.message) && !Truthy(error.body.error) ==> m == fallback
    ensures !error.body.ObjectBody? && error.message != "" ==> m == error.message
    ensures !error.body.ObjectBody? && error.message == "" ==> m == fallback
  {
    match error.body
    case ObjectBody(message, err) =>
      if Truthy(message) then message.value else if Truthy(err) then err.value else fallback
    case _ =>
      if error.message != "" then error.message else fallback
  }

  /** `showHttpError(title, error, fallback)`: an error notification carrying the chosen message. */
  function ShowHttpError(s: NotificationState, title: string, error: HttpErrorResponse, fallback: string := DefaultHttpErrorMessage): (r: NotificationState)
    ensures r.counter == s.counter + 1
    ensures r.items == s.items + [Notification(IdFor(r.counter), Error, title, HttpErrorMessage(error, fallback), ErrorDuration, true)]
    ensures Valid(s) ==> Valid(r)
  {
    ShowError(s, title, HttpErrorMessage(error, fallback))
  }

  /** The shown message is never empty as long as the fallback is not, so the default fallback always gives a readable toast. */
  lemma HttpErrorMessageNonEmpty(error: HttpErrorResponse, fallback: string)
    requires fallback != ""
    ensures HttpErrorMessage(error, fallback) != ""
  {
  }

  /**
   * A failure the backend reports with its error body shows the backend's message: a
   * 404 names the missing id and a rejected request lists the validator's messages.
   */
  lemma ApiErrorBodyShowsItsMessage(s: NotificationState, title: string, apiError: ApiErrors.ApiError, transportMessage: string)
    requires apiError.message != ""
    ensures var r := ShowHttpError(s, title, HttpErrorResponse(ObjectBody(Some(apiError.message), Some(apiError.error)), transportMessage));
            && r.items[|r.items| - 1].message == apiError.message
            && r.items[|r.items| - 1].kind == Error
            && r.items[|r.items| - 1].duration == ErrorDuration
  {
  }
}
