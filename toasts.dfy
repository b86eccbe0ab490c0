/** The global toast notification queue of the Angular front end: a list
    of toasts that `show` appends to and `dismiss` filters, with ids drawn
    from a counter that only grows. */
module Toasts {
  import opened Seqs

  datatype ToastType = Success | Error | Warning | Info

  datatype Toast = Toast(id: int, message: string, kind: ToastType, duration: int)

  /** Default display times, in milliseconds, of the four helpers. */
  const SuccessDuration := 4000
  const ErrorDuration := 6000
  const WarningDuration := 5000
  const InfoDuration := 4000

  /** The queue invariant the counter gives: ids are issued in increasing
      order below the next one to be issued, so no two toasts share one. */
  predicate IdsIssued(list: seq<Toast>, nextId: int) {
    (forall i, j :: 0 <= i < j < |list| ==> list[i].id < list[j].id) &&
    (forall i :: 0 <= i < |list| ==> list[i].id < nextId)
  }

  function ToastId(t: Toast): int { t.id }

  function OtherToast(id: int): Toast -> bool {
    (t: Toast) => t.id != id
  }

  /** The list after `dismiss(id)`: the toasts with another id, in order. */
  function Dismissed(list: seq<Toast>, id: int): (r: seq<Toast>)
    ensures forall t :: t in r <==> t in list && t.id != id
    ensures |r| <= |list|
  {
    FilterMembers(list, OtherToast(id));
    Filter(list, OtherToast(id))
  }

  /** Dismissing splits over a concatenation, so the order of the kept
      toasts is theirs in the original list. */
  lemma DismissedConcat(a: seq<Toast>, b: seq<Toast>, id: int)
    ensures Dismissed(a + b, id) == Dismissed(a, id) + Dismissed(b, id)
  {
    FilterConcat(a, b, OtherToast(id));
  }

  /** Dismissing an id no toast carries changes nothing. */
  lemma DismissAbsent(list: seq<Toast>, id: int)
    requires forall i :: 0 <= i < |list| ==> list[i].id != id
    ensures Dismissed(list, id) == list
  {
    FilterAll(list, OtherToast(id));
  }

  /** Dismissing twice is dismissing once. */
  lemma DismissIdempotent(list: seq<Toast>, id: int)
    ensures Dismissed(Dismissed(list, id), id) == Dismissed(list, id)
  {
    FilterFilter(list, OtherToast(id), OtherToast(id), OtherToast(id));
  }

  /** In a queue whose ids are distinct, dismissing the id at position `k`
      removes exactly that toast. */
  lemma DismissOne(list: seq<Toast>, nextId: int, k: int)
    requires IdsIssued(list, nextId)
    requires 0 <= k < |list|
    ensures Dismissed(list, list[k].id) == list[..k] + list[k + 1..]
  {
    FilterRemovesOne(list, k, OtherToast(list[k].id));
  }

  /** Dismissing keeps the queue invariant. */
  lemma DismissKeepsIssued(list: seq<Toast>, nextId: int, id: int)
    requires IdsIssued(list, nextId)
    ensures IdsIssued(Dismissed(list, id), nextId)
  {
    assert forall i, j :: 0 <= i < j < |list| ==> ToastId(list[i]) < ToastId(list[j]);
    FilterIncreasing(list, OtherToast(id), ToastId);
    var r := Dismissed(list, id);
    forall i | 0 <= i < |r| ensures r[i].id < nextId {
      assert r[i] in list;
    }
  }

  /** The auto-dismiss of a toast just shown, with nothing shown or
      dismissed in between, restores the queue as it was before `show`. */
  lemma ShowThenDismiss(list: seq<Toast>, nextId: int, message: string, kind: ToastType, duration: int)
    requires IdsIssued(list, nextId)
    ensures Dismissed(list + [Toast(nextId, message, kind, duration)], nextId) == list
  {
    DismissedConcat(list, [Toast(nextId, message, kind, duration)], nextId);
    DismissAbsent(list, nextId);
  }

  /** The injectable singleton; the module-level `nextId` counter is its
      field, since one instance exists per application. */
  class ToastService {
    var toasts: seq<Toast>
    var nextId: int

    predicate Valid()
      reads this
    {
      0 <= nextId && IdsIssued(toasts, nextId)
    }

    constructor()
      ensures toasts == [] && nextId == 0 && Valid()
    {
      toasts, nextId := [], 0;
    }

    /** `show`: the new toast takes the counter's value, which no queued toast
        carries, and goes to the end. The result says whether the
        auto-dismiss timer is started. */
    method Show(message: string, kind: ToastType, duration: int) returns (scheduled: bool)
      requires Valid()
      modifies this
      ensures toasts == old(toasts) + [Toast(old(nextId), message, kind, duration)]
      ensures forall i :: 0 <= i < |old(toasts)| ==> old(toasts)[i].id != old(nextId)
      ensures nextId == old(nextId) + 1 && Valid()
      ensures scheduled <==> duration > 0
    {
      var id := nextId;
      nextId := nextId + 1;
      toasts := toasts + [Toast(id, message, kind, duration)];
      scheduled := duration > 0;
    }

    method Success(message: string, duration: int := SuccessDuration) returns (scheduled: bool)
      requires Valid()
      modifies this
      ensures toasts == old(toasts) + [Toast(old(nextId), message, ToastType.Success, duration)]
      ensures nextId == old(nextId) + 1 && Valid()
      ensures scheduled <==> duration > 0
    {
      scheduled := Show(message, ToastType.Success, duration);
    }

    method Error(message: string, duration: int := ErrorDuration) returns (scheduled: bool)
      requires Valid()
      modifies this
      ensures toasts == old(toasts) + [Toast(old(nextId), message, ToastType.Error, duration)]
      ensures nextId == old(nextId) + 1 && Valid()
      ensures scheduled <==> duration > 0
    {
      scheduled := Show(message, ToastType.Error, duration);
    }

    method Warning(message: string, duration: int := WarningDuration) returns (scheduled: bool)
      requires Valid()
      modifies this
      ensures toasts == old(toasts) + [Toast(old(nextId), message, ToastType.Warning, duration)]
      ensures nextId == old(nextId) + 1 && Valid()
      ensures scheduled <==> duration > 0
    {
      scheduled := Show(message, ToastType.Warning, duration);
    }

    method Info(message: string, duration: int := InfoDuration) returns (scheduled: bool)
      requires Valid()
      modifies this
      ensures toasts == old(toasts) + [Toast(old(nextId), message, ToastType.Info, duration)]
      ensures nextId == old(nextId) + 1 && Valid()
      ensures scheduled <==> duration > 0
    {
      scheduled := Show(message, ToastType.Info, duration);
    }

    /** `dismiss`: drop the toasts with that id; the counter is untouched. */
    method Dismiss(id: int)
      requires Valid()
      modifies this
      ensures toasts == Dismissed(old(toasts), id)
      ensures nextId == old(nextId) && Valid()
    {
      DismissKeepsIssued(toasts, nextId, id);
      toasts := Dismissed(toasts, id);
    }
  }

  /** The helpers' defaults, used through a fresh service: each helper
      shows its own type for its own default time. */
  method DefaultDurations() returns (shown: seq<Toast>)
    ensures shown == [Toast(0, "saved", ToastType.Success, 4000), Toast(1, "failed", ToastType.Error, 6000),
                      Toast(2, "careful", ToastType.Warning, 5000), Toast(3, "note", ToastType.Info, 4000)]
  {
    var service := new ToastService();
    var _ := service.Success("saved");
    var _ := service.Error("failed");
    var _ := service.Warning("careful");
    var _ := service.Info("note");
    shown := service.toasts;
  }
}
