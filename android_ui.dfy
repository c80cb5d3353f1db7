/**
 * The decisions of the toolbox's `AndroidUI` object: how `chainDialogs` wires the dismiss
 * listeners of a list of dialogs, and how `getErrorDialog` / `showErrorDialog` configure and show
 * an error dialog. Dialogs are abstracted to their index in the list, their dismiss listener and
 * whether they are showing.
 */
module AndroidUI {
  import opened Wrappers
  import opened KotlinStd

  // ===========================================================================
  // chainDialogs
  // ===========================================================================

  /** What a dialog does once it is dismissed. */
  datatype Listener =
    | NoListener
      /** `nextDialog.show()` */
    | ShowNext(next: nat)
      /** `endJob?.invoke()`, where `endJob` was captured as present or null */
    | InvokeEndJob(endJobPresent: bool)

  /** The dialogs of a list: their listeners, which are showing, and how often `endJob` has run. */
  datatype Screen = Screen(listeners: seq<Listener>, showing: seq<bool>, endJobRuns: nat)

  /** One listener and one shown flag per dialog, and every `ShowNext` names a dialog of the list. */
  predicate WellFormed(s: Screen)
  {
    |s.listeners| == |s.showing|
    && forall i :: 0 <= i < |s.listeners| && s.listeners[i].ShowNext? ==> s.listeners[i].next < |s.listeners|
  }

  /** `n` freshly created dialogs: none showing, none with a dismiss listener. */
  function Idle(n: nat): (s: Screen)
    ensures WellFormed(s) && |s.listeners| == n
  {
    Screen(seq(n, _ => NoListener), seq(n, _ => false), 0)
  }

  /**
   * The listener table `chainDialogs` leaves behind: with more than one dialog, dialog `i` shows
   * dialog `i + 1` and the last one invokes `endJob`; with one dialog or none, nothing changes.
   */
  function ChainedListeners(listeners: seq<Listener>, hasEndJob: bool): (r: seq<Listener>)
    ensures |r| == |listeners|
  {
    var n := |listeners|;
    if n > 1 then seq(n, i requires 0 <= i < n => if i < n - 1 then ShowNext(i + 1) else InvokeEndJob(hasEndJob))
    else listeners
  }

  /** The state right after `chainDialogs`: the listeners wired and dialog 0, if any, shown. */
  function Chained(s: Screen, hasEndJob: bool): (t: Screen)
    requires WellFormed(s)
  {
    var n := |s.listeners|;
    Screen(ChainedListeners(s.listeners, hasEndJob), if n > 0 then s.showing[0 := true] else s.showing,
           s.endJobRuns)
  }

  /**
   * The user dismisses dialog `i`. A dialog that is not showing ignores the dismissal; one that is
   * showing is hidden and then runs its dismiss listener.
   */
  function Dismissed(s: Screen, i: nat): (t: Screen)
    requires WellFormed(s) && i < |s.showing|
    ensures WellFormed(t) && t.listeners == s.listeners
  {
    if !s.showing[i] then s
    else
      var hidden := s.showing[i := false];
      match s.listeners[i]
      case NoListener => s.(showing := hidden)
      case ShowNext(j) => s.(showing := hidden[j := true])
      case InvokeEndJob(present) =>
        s.(showing := hidden, endJobRuns := s.endJobRuns + (if present then 1 else 0))
  }

  /** Dismiss dialogs 0, 1, ..., k - 1, in that order. */
  function DismissInOrder(s: Screen, k: nat): (t: Screen)
    requires WellFormed(s) && k <= |s.showing|
    ensures WellFormed(t) && t.listeners == s.listeners
  {
    if k == 0 then s else Dismissed(DismissInOrder(s, k - 1), k - 1)
  }

  /** A list of dialogs whose dismiss listeners and visibility change in place. */
  class DialogList {
    var listeners: seq<Listener>
    var showing: seq<bool>
    var endJobRuns: nat

    function State(): (s: Screen)
      reads this
    {
      Screen(listeners, showing, endJobRuns)
    }

    predicate Valid()
      reads this
    {
      WellFormed(State())
    }

    constructor (n: nat)
      ensures Valid() && State() == Idle(n)
    {
      listeners := seq(n, _ => NoListener);
      showing := seq(n, _ => false);
      endJobRuns := 0;
    }

    /** `dialogList[i].setOnDismissListener { ... }` */
    method SetOnDismissListener(i: nat, l: Listener)
      requires i < |listeners|
      modifies this
      ensures listeners == old(listeners)[i := l]
      ensures showing == old(showing) && endJobRuns == old(endJobRuns)
    {
      listeners := listeners[i := l];
    }

    /** `dialogList[i].show()` */
    method Show(i: nat)
      requires i < |showing|
      modifies this
      ensures showing == old(showing)[i := true]
      ensures listeners == old(listeners) && endJobRuns == old(endJobRuns)
    {
      showing := showing[i := true];
    }

    /** The user dismisses dialog `i`. */
    method Dismiss(i: nat)
      requires Valid() && i < |showing|
      modifies this
      ensures Valid() && State() == Dismissed(old(State()), i)
    {
      var t := Dismissed(State(), i);
      listeners, showing, endJobRuns := t.listeners, t.showing, t.endJobRuns;
    }

    /** `chainDialogs(dialogList, endJob)`, where `hasEndJob` says whether `endJob` is non-null. */
    method ChainDialogs(hasEndJob: bool)
      requires Valid()
      modifies this
      ensures Valid() && State() == Chained(old(State()), hasEndJob)
    {
      var n := |listeners|;
      if n > 1 {
        for i := 0 to n - 1
          invariant |listeners| == n && showing == old(showing) && endJobRuns == old(endJobRuns)
          invariant forall j :: 0 <= j < i ==> listeners[j] == ShowNext(j + 1)
          invariant forall j :: i <= j < n ==> listeners[j] == old(listeners)[j]
        {
          SetOnDismissListener(i, ShowNext(i + 1));
        }
        SetOnDismissListener(n - 1, InvokeEndJob(hasEndJob));
        assert listeners == ChainedListeners(old(listeners), hasEndJob);
      }
      if n > 0 {
        Show(0);
      }
    }
  }

  /** With more than one dialog, dismissing a showing dialog other than the last shows the next one and nothing else. */
  lemma ChainedDismissShowsNext(before: seq<Listener>, hasEndJob: bool, s: Screen, i: nat)
    requires |before| > 1 && s.listeners == ChainedListeners(before, hasEndJob)
    requires WellFormed(s) && i < |s.listeners| - 1 && s.showing[i]
    ensures var t := Dismissed(s, i);
      t.showing == s.showing[i := false][i + 1 := true] && t.endJobRuns == s.endJobRuns
  {
  }

  /** With more than one dialog, dismissing the showing last one shows nothing and invokes `endJob` if it is non-null. */
  lemma ChainedDismissLast(before: seq<Listener>, hasEndJob: bool, s: Screen)
    requires |before| > 1 && s.listeners == ChainedListeners(before, hasEndJob)
    requires WellFormed(s) && s.showing[|s.showing| - 1]
    ensures var t := Dismissed(s, |s.showing| - 1);
      t.showing == s.showing[|s.showing| - 1 := false]
      && t.endJobRuns == s.endJobRuns + (if hasEndJob then 1 else 0)
  {
  }

  /** On the call itself: dialog 0 is shown if there is one, and nothing else changes visibility. */
  lemma ChainedShowsFirst(s: Screen, hasEndJob: bool)
    requires WellFormed(s)
    ensures var t := Chained(s, hasEndJob);
      WellFormed(t) && t.endJobRuns == s.endJobRuns
      && (|s.showing| > 0 ==> t.showing == s.showing[0 := true])
      && (|s.showing| <= 1 ==> t.listeners == s.listeners)
      && (|s.showing| == 0 ==> t == s)
  {
  }

  /**
   * Dismissing the first `k` dialogs of a fresh chain one after another leaves exactly dialog `k`
   * showing, and `endJob` has not run.
   */
  lemma {:induction false} ChainWalk(n: nat, hasEndJob: bool, k: nat)
    requires n > 1 && k < n
    ensures var t := DismissInOrder(Chained(Idle(n), hasEndJob), k);
      (forall j :: 0 <= j < n ==> t.showing[j] == (j == k)) && t.endJobRuns == 0
  {
    var s := Chained(Idle(n), hasEndJob);
    if k > 0 {
      ChainWalk(n, hasEndJob, k - 1);
      var u := DismissInOrder(s, k - 1);
      assert u.listeners[k - 1] == ShowNext(k);
    }
  }

  /** Dismissing every dialog of a chain in turn ends with none showing and `endJob` run once if it is non-null. */
  lemma ChainFinish(n: nat, hasEndJob: bool)
    requires n > 1
    ensures var t := DismissInOrder(Chained(Idle(n), hasEndJob), n);
      (forall j :: 0 <= j < n ==> !t.showing[j]) && t.endJobRuns == (if hasEndJob then 1 else 0)
  {
    ChainWalk(n, hasEndJob, n - 1);
    var u := DismissInOrder(Chained(Idle(n), hasEndJob), n - 1);
    assert u.listeners[n - 1] == InvokeEndJob(hasEndJob);
  }

  /** A single dialog gets no dismiss listener, so dismissing it never invokes `endJob`. */
  lemma ChainSingle(hasEndJob: bool)
    ensures var t := DismissInOrder(Chained(Idle(1), hasEndJob), 1);
      !t.showing[0] && t.endJobRuns == 0
  {
    var s := Chained(Idle(1), hasEndJob);
    assert s.listeners[0] == NoListener && s.showing[0];
  }

  /**
   * The listener table the documentation of `chainDialogs` describes ("`endJob` runs after the
   * last dialog is dismissed"): the last dialog invokes `endJob` for every non-empty list,
   * a list of one included.
   */
  function DocumentedListeners(listeners: seq<Listener>, hasEndJob: bool): (r: seq<Listener>)
    ensures |r| == |listeners|
  {
    var n := |listeners|;
    if n > 0 then seq(n, i requires 0 <= i < n => if i < n - 1 then ShowNext(i + 1) else InvokeEndJob(hasEndJob))
    else listeners
  }

  /** The state right after a `chainDialogs` that follows its documentation. */
  function DocumentedChained(s: Screen, hasEndJob: bool): (t: Screen)
    requires WellFormed(s)
    ensures WellFormed(t)
  {
    var n := |s.listeners|;
    Screen(DocumentedListeners(s.listeners, hasEndJob), if n > 0 then s.showing[0 := true] else s.showing,
           s.endJobRuns)
  }

  /**
   * The documented table and the one the code builds agree except for a list of one dialog, where
   * the code keeps the dialog's listener and the documentation has it invoke `endJob`.
   */
  lemma DocumentedDiffersOnlyForOne(s: Screen, hasEndJob: bool)
    requires WellFormed(s)
    ensures |s.listeners| != 1 ==> DocumentedChained(s, hasEndJob) == Chained(s, hasEndJob)
    ensures |s.listeners| == 1 ==>
      DocumentedChained(s, hasEndJob).listeners == [InvokeEndJob(hasEndJob)]
      && Chained(s, hasEndJob).listeners == s.listeners
  {
  }

  /**
   * With the documented wiring, dismissing every dialog of any non-empty chain in turn ends with
   * none showing and `endJob` run once if it is non-null.
   */
  lemma DocumentedChainFinish(n: nat, hasEndJob: bool)
    requires n >= 1
    ensures var t := DismissInOrder(DocumentedChained(Idle(n), hasEndJob), n);
      (forall j :: 0 <= j < n ==> !t.showing[j]) && t.endJobRuns == (if hasEndJob then 1 else 0)
  {
    if n > 1 {
      DocumentedDiffersOnlyForOne(Idle(n), hasEndJob);
      ChainFinish(n, hasEndJob);
    } else {
      var s := DocumentedChained(Idle(1), hasEndJob);
      assert s.listeners[0] == InvokeEndJob(hasEndJob) && s.showing[0];
    }
  }

  // ===========================================================================
  // getErrorDialog / showErrorDialog
  // ===========================================================================

  /** The dialog icon: `android.R.drawable.stat_sys_warning` or a resource id of the caller. */
  datatype Icon = StatSysWarning | IconResource(id: Int32)

  /** What the builder is given: icon, texts, whether a close callback is attached, cancellability. */
  datatype ErrorDialog = ErrorDialog(
    icon: Icon, message: string, title: string, negativeButtonText: string,
    hasCloseCallback: bool, cancellable: bool)

  /**
   * `getErrorDialog`: the dialog the builder creates, or `None` when the framework throws while
   * building it (then the source falls back to a toast). `hasOnCloseClick` says whether
   * `onCloseClick` is non-null, and `builderFails` whether the framework throws.
   */
  function GetErrorDialog(message: string, title: string, iconResource: Int32,
                          negativeButtonText: string, hasOnCloseClick: bool, builderFails: bool)
    : (r: Option<ErrorDialog>)
    ensures r.None? <==> builderFails
    ensures r.Some? ==> (r.value.cancellable <==> !hasOnCloseClick)
    ensures r.Some? ==> (r.value.icon == StatSysWarning <==> iconResource == 0)
    ensures r.Some? && iconResource != 0 ==> r.value.icon == IconResource(iconResource)
    ensures r.Some? ==>
      (r.value.title == title && r.value.message == message
       && r.value.negativeButtonText == negativeButtonText && r.value.hasCloseCallback == hasOnCloseClick)
  {
    if builderFails then None
    else Some(ErrorDialog(if iconResource == 0 then StatSysWarning else IconResource(iconResource),
                          message, title, negativeButtonText, hasOnCloseClick, !hasOnCloseClick))
  }

  /** What the user can do to an error dialog that is showing. */
  datatype UserAction = PressNegativeButton | PressBack | TouchOutside

  /** What an action does: whether the dialog closes, and whether `onCloseClick` runs. */
  datatype Reaction = Reaction(closes: bool, callbackRuns: bool)

  /**
   * An `AlertDialog`'s reaction: the negative button always closes it and runs its click
   * handler, which invokes `onCloseClick` if present; back and a touch outside close it only when
   * it is cancellable.
   */
  function React(d: ErrorDialog, a: UserAction): (r: Reaction)
    ensures r.callbackRuns ==> r.closes
  {
    match a
    case PressNegativeButton => Reaction(true, d.hasCloseCallback)
    case PressBack => Reaction(d.cancellable, false)
    case TouchOutside => Reaction(d.cancellable, false)
  }

  /**
   * With `onCloseClick`, the only way to close the error dialog is the close button, which runs
   * it; without it, every action closes the dialog.
   */
  lemma ErrorDialogClosing(message: string, title: string, iconResource: Int32,
                           negativeButtonText: string, hasOnCloseClick: bool, a: UserAction)
    ensures var r := GetErrorDialog(message, title, iconResource, negativeButtonText, hasOnCloseClick, false);
      r.Some?
      && (hasOnCloseClick ==> (React(r.value, a).closes <==> a == PressNegativeButton)
                              && (React(r.value, a).closes ==> React(r.value, a).callbackRuns))
      && (!hasOnCloseClick ==> React(r.value, a).closes && !React(r.value, a).callbackRuns)
  {
  }

  /** The error dialogs that have been shown, oldest first. */
  class ErrorDialogDisplay {
    var shown: seq<ErrorDialog>

    constructor ()
      ensures shown == []
    {
      shown := [];
    }

    /** `showErrorDialog`: builds the dialog with `getErrorDialog`, shows it if there is one, and returns it. */
    method ShowErrorDialog(message: string, title: string, iconResource: Int32,
                           negativeButtonText: string, hasOnCloseClick: bool, builderFails: bool)
      returns (ad: Option<ErrorDialog>)
      modifies this
      ensures ad == GetErrorDialog(message, title, iconResource, negativeButtonText, hasOnCloseClick, builderFails)
      ensures shown == old(shown) + (if ad.Some? then [ad.value] else [])
    {
      ad := GetErrorDialog(message, title, iconResource, negativeButtonText, hasOnCloseClick, builderFails);
      if ad.Some? {
        shown := shown + [ad.value];
      }
    }
  }
}
