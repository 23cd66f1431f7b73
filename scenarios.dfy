/** Call sequences of the kind the library's documentation describes, and
    one that shows what it does not guarantee, each checked against the
    contracts of `TipState.Tip` alone. */
module Scenarios {
  import opened JsValues
  import opened TipState

  /** An id `_generateId` could return for a toast or a modal. */
  predicate IdShaped(id: string, prefix: string) {
    prefix <= id && '_' !in id && id !in ContainerIds
  }

  /** An empty message is refused without touching the registry, and a truthy
      callback that is not a function is refused as well. */
  method EmptyMessage(tid: string, mid: string)
    requires IdShaped(tid, "toast-") && IdShaped(mid, "modal-")
  {
    var tip := new Tip(false);
    var r := tip.Toast(Str(""), Str("success"), Some(5.0), tid);
    assert r == None && tip.toasts == [] && tip.timers == [];
    assert tip.initialized;
    var m := tip.Confirm(Str("Sure?"), Str("not a function"), mid);
    assert m == None && tip.mounted == None;
  }

  /** A toast closed at once: its hide timer then finds it gone, restyles
      nothing and schedules no removal. */
  method LateToastTimers(id: string)
    requires IdShaped(id, "toast-")
  {
    var tip := new Tip(true);
    var a := tip.Toast(Str("hi"), Undefined, None, id);
    tip.CloseToast(id);
    assert tip.toasts == [] && tip.timers == [ShowTimer(id), HideTimer(id)];
    tip.FireHideTimer(1);
    assert tip.toasts == [] && tip.timers == [ShowTimer(id)];
  }

  /** Two nested `show`s need two `hide`s; a third `hide` leaves the count
      at 0. */
  method NestedLoading() {
    var tip := new Tip(true);
    tip.LoadingShow("a");
    tip.LoadingShow("");
    tip.LoadingHide();
    assert tip.loadingCount == 1 && tip.overlay == Some(DefaultLoadingText) && tip.timers == [];
    tip.LoadingHide();
    assert tip.loadingCount == 0 && tip.timers == [LoadingHideTimer(1)];
    tip.LoadingHide();
    assert tip.loadingCount == 0;
  }

  /** Not guaranteed: the hide timer of `loading.hide` clears an overlay that
      a later `show` put up, so the overlay is gone while the count is 1. */
  method OverlayClearedWhileCounted() {
    var tip := new Tip(true);
    tip.LoadingShow("saving");
    tip.LoadingHide();
    tip.LoadingShow("saving again");
    assert tip.loadingCount == 1 && tip.overlay.Some?;
    tip.FireLoadingHideTimer(0);
    assert tip.loadingCount == 1 && tip.overlay == None;
  }

}
