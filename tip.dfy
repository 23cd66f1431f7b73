/** The module-level state of `tip.js` and one method per public operation
    and per timer callback.  Timers are explicit: every `setTimeout` the
    bookkeeping depends on appends a `Timer` to `timers`, and the matching
    `Fire...` method runs its callback, for any pending timer in any order. */
module TipState {
  import opened JsValues
  import opened Config
  import opened Toasts
  import opened Modals

  /** A pending `setTimeout` callback together with what it captured. */
  datatype Timer =
    | ShowTimer(toast: string)
    | HideTimer(toast: string)
    | RemoveTimer(toast: string)
    | CloseTimer(modal: string, confirmed: JsValue, isPrompt: bool, input: string)
    | LoadingHideTimer(generation: nat)

  /** The ids of the three containers and the style element `_init` creates. */
  const ContainerIds: set<string> := {"toast-container", "modal-container", "loading-container", "tip-styles"}

  const DefaultLoadingText: string := "加载中..."

  /** An id `_removeToast` may be given: it can only name a toast element. */
  predicate ToastShaped(id: string) {
    "toast-" <= id && id !in ContainerIds
  }

  predicate TimerFits(t: Timer) {
    (t.ShowTimer? || t.HideTimer? || t.RemoveTimer?) ==> ToastShaped(t.toast)
  }

  /** The pending timers once the k-th has run. */
  function Without(ts: seq<Timer>, k: nat): (r: seq<Timer>)
    requires k < |ts|
    ensures |r| == |ts| - 1
    ensures forall t :: t in r ==> t in ts
  {
    ts[..k] + ts[k + 1..]
  }

  /** The `for...in` loop of `closeAllModals`: the keys whose handlers it
      detaches, namely those containing "_keydown" (a value under such a key
      is always a function, hence truthy). */
  method HandlerKeysOf(callbacks: map<string, Slot>) returns (detached: set<string>)
    ensures detached == set key | key in callbacks && ContainsKeydown(key)
  {
    var remaining := callbacks.Keys;
    detached := {};
    while remaining != {}
      invariant remaining <= callbacks.Keys
      invariant detached == set key | key in callbacks.Keys - remaining && ContainsKeydown(key)
      decreases |remaining|
    {
      var key :| key in remaining;
      if ContainsKeydown(key) {
        detached := detached + {key};
      }
      remaining := remaining - {key};
    }
  }

  predicate DeliveredOnce(ds: seq<Delivery>) {
    forall i, j :: 0 <= i < j < |ds| ==> ds[i].modal != ds[j].modal
  }

  /** The rank of each child's id, -1 for an id without one. */
  ghost function RankSeq(ts: seq<Toast>, ranks: map<string, nat>): (rs: seq<int>)
    ensures |rs| == |ts|
  {
    seq(|ts|, i requires 0 <= i < |ts| => if ts[i].id in ranks then ranks[ts[i].id] as int else -1)
  }

  predicate Increasing(rs: seq<int>) {
    forall i, j :: 0 <= i < j < |rs| ==> rs[i] < rs[j]
  }

  /** The children are in the order their ids were handed out, so the first
      child is the oldest toast still displayed. */
  ghost predicate InIssueOrder(ts: seq<Toast>, ranks: map<string, nat>) {
    Increasing(RankSeq(ts, ranks))
  }

  /** The toast container's children have distinct ids, are exactly the
      active toasts, were each handed out for a toast with a rank below the
      number handed out, and are in the order they were handed out.  `ranks`
      numbers the `issued` handed-out ids 0, 1, ... */
  ghost predicate RegistryValid(ts: seq<Toast>, active: set<string>, ranks: map<string, nat>, issued: nat) {
    DistinctIds(ts) && IdSet(ts) == active
    && (forall id :: id in active ==> id in ranks && ranks[id] < issued && ToastShaped(id))
    && InIssueOrder(ts, ranks)
  }

  /** In a valid registry every later child was handed out after the first
      one, which is therefore the one the capacity check evicts. */
  lemma FirstIsOldest(ts: seq<Toast>, active: set<string>, ranks: map<string, nat>, issued: nat, j: nat)
    requires RegistryValid(ts, active, ranks, issued) && 0 < j < |ts|
    ensures ts[0].id in ranks && ts[j].id in ranks && ranks[ts[0].id] < ranks[ts[j].id]
  {
    assert ts[0].id in active && ts[j].id in active;
    var rs := RankSeq(ts, ranks);
    assert rs[0] < rs[j];
  }

  /** Dropping the first child keeps the order. */
  lemma OrderTail(ts: seq<Toast>, ranks: map<string, nat>)
    requires InIssueOrder(ts, ranks) && |ts| > 0
    ensures InIssueOrder(ts[1..], ranks)
  {
    var rs, rs' := RankSeq(ts, ranks), RankSeq(ts[1..], ranks);
    forall i, j | 0 <= i < j < |rs'| ensures rs'[i] < rs'[j] {
      assert ts[1..][i] == ts[i + 1] && ts[1..][j] == ts[j + 1];
      assert rs'[i] == rs[i + 1] && rs'[j] == rs[j + 1];
    }
  }

  /** Cutting one child out keeps the order of the others. */
  lemma OrderCut(ts: seq<Toast>, ranks: map<string, nat>, k: nat)
    requires InIssueOrder(ts, ranks) && k < |ts|
    ensures InIssueOrder(ts[..k] + ts[k + 1..], ranks)
  {
    var r := ts[..k] + ts[k + 1..];
    var rs, rs' := RankSeq(ts, ranks), RankSeq(r, ranks);
    forall i, j | 0 <= i < j < |rs'| ensures rs'[i] < rs'[j] {
      var i' := if i < k then i else i + 1;
      var j' := if j < k then j else j + 1;
      assert r[i] == ts[i'] && r[j] == ts[j'];
      assert rs'[i] == rs[i'] && rs'[j] == rs[j'];
    }
  }

  /** Appending a child whose rank `r` is new and above every child's rank. */
  lemma OrderAppend(ts: seq<Toast>, ranks: map<string, nat>, t: Toast, r: nat)
    requires InIssueOrder(ts, ranks) && t.id !in ranks
    requires forall i :: 0 <= i < |ts| ==> ts[i].id in ranks && ranks[ts[i].id] < r
    ensures InIssueOrder(ts + [t], ranks[t.id := r])
  {
    var ranks' := ranks[t.id := r];
    var rs, rs' := RankSeq(ts, ranks), RankSeq(ts + [t], ranks');
    forall i, j | 0 <= i < j < |rs'| ensures rs'[i] < rs'[j] {
      assert (ts + [t])[i] == ts[i];
      assert rs'[i] == rs[i];
      if j < |ts| {
        assert (ts + [t])[j] == ts[j];
        assert rs'[j] == rs[j];
      } else {
        assert (ts + [t])[j] == t;
      }
    }
  }

  /** Evicting the oldest toast at the capacity check keeps the registry
      valid. */
  lemma EvictKeepsRegistry(ts: seq<Toast>, active: set<string>, ranks: map<string, nat>, issued: nat)
    requires RegistryValid(ts, active, ranks, issued) && |ts| > 0
    ensures RegistryValid(ts[1..], active - {ts[0].id}, ranks, issued)
  {
    IdSetTail(ts);
    OrderTail(ts, ranks);
  }

  /** Appending a toast with a fresh id, which gets the next rank, keeps the
      registry valid. */
  lemma AppendKeepsRegistry(ts: seq<Toast>, active: set<string>, ranks: map<string, nat>, issued: nat, t: Toast)
    requires RegistryValid(ts, active, ranks, issued) && t.id !in ranks && ToastShaped(t.id)
    ensures RegistryValid(ts + [t], active + {t.id}, ranks[t.id := issued], issued + 1)
  {
    assert IdSet([t]) == {t.id};
    IdSetAppend(ts, [t]);
    DistinctAppend(ts, [t]);
    forall i | 0 <= i < |ts| ensures ts[i].id in ranks && ranks[ts[i].id] < issued {
      assert ts[i].id in IdSet(ts);
    }
    OrderAppend(ts, ranks, t, issued);
  }

  /** The capacity check and the append of `toast` keep the registry valid. */
  lemma AdmitKeepsRegistry(ts: seq<Toast>, active: set<string>, ranks: map<string, nat>, issued: nat, max: real, t: Toast)
    requires max > 0.0 && RegistryValid(ts, active, ranks, issued) && t.id !in ranks && ToastShaped(t.id)
    ensures |ts| as real >= max ==>
      RegistryValid(Admit(ts, max, t), active - {ts[0].id} + {t.id}, ranks[t.id := issued], issued + 1)
    ensures |ts| as real < max ==>
      RegistryValid(Admit(ts, max, t), active + {t.id}, ranks[t.id := issued], issued + 1)
  {
    if |ts| as real >= max {
      EvictKeepsRegistry(ts, active, ranks, issued);
      AppendKeepsRegistry(ts[1..], active - {ts[0].id}, ranks, issued, t);
    } else {
      AppendKeepsRegistry(ts, active, ranks, issued, t);
    }
  }

  /** `_removeToast` keeps the registry valid. */
  lemma RemoveKeepsRegistry(ts: seq<Toast>, active: set<string>, ranks: map<string, nat>, issued: nat, id: string)
    requires RegistryValid(ts, active, ranks, issued)
    ensures RegistryValid(RemoveId(ts, id), active - {id}, ranks, issued)
  {
    RemoveIdSpec(ts, id);
    if id in IdSet(ts) {
      RemoveIdKeepsOrder(ts, id);
      var k :| 0 <= k < |ts| && ts[k].id == id && RemoveId(ts, id) == ts[..k] + ts[k + 1..];
      OrderCut(ts, ranks, k);
    }
  }

  /** A restyle keeps the registry valid. */
  lemma SetPhaseKeepsRegistry(ts: seq<Toast>, active: set<string>, ranks: map<string, nat>, issued: nat, id: string, p: Phase)
    requires RegistryValid(ts, active, ranks, issued)
    ensures RegistryValid(SetPhase(ts, id, p), active, ranks, issued)
  {
    SetPhaseIds(ts, id, p);
    assert RankSeq(SetPhase(ts, id, p), ranks) == RankSeq(ts, ranks);
  }

  /** A callback under key k that the next close timer for k would call. */
  predicate AwaitingIn(callbacks: map<string, Slot>, k: string) {
    k in callbacks && callbacks[k].Callback? && Truthy(callbacks[k].fn)
  }

  ghost predicate SlotFits(k: string, s: Slot, issued: set<string>) {
    match s
    case Callback(_) => k in issued && '_' !in k
    case KeyHandler(o) => o in issued && '_' !in o && k == HandlerKey(o)
  }

  /** Every key of `_modalCallbacks` belongs to a modal that was created; no
      modal's callback has been called twice, and a called one is gone. */
  ghost predicate CallbacksValid(callbacks: map<string, Slot>, ds: seq<Delivery>, issued: set<string>) {
    (forall k :: k in callbacks ==> SlotFits(k, callbacks[k], issued))
    && DeliveredOnce(ds)
    && (forall i :: 0 <= i < |ds| ==> ds[i].modal in issued && !AwaitingIn(callbacks, ds[i].modal))
  }

  /** Registering a new modal's callback and keydown handler keeps the
      callbacks valid and touches none of the keys already present. */
  lemma MountKeepsCallbacks(callbacks: map<string, Slot>, ds: seq<Delivery>, issued: set<string>, id: string, cb: JsValue)
    requires CallbacksValid(callbacks, ds, issued) && id !in issued && '_' !in id
    ensures id !in callbacks && HandlerKey(id) !in callbacks
    ensures CallbacksValid(callbacks[id := Callback(cb)][HandlerKey(id) := KeyHandler(id)], ds, issued + {id})
  {
    HandlerKeyHasUnderscore(id);
    forall key | key in callbacks
      ensures key != id && key != HandlerKey(id)
    {
      match callbacks[key]
      case Callback(_) =>
      case KeyHandler(o) =>
        HandlerKeyHasUnderscore(o);
        if key == HandlerKey(id) {
          HandlerKeyInjective(o, id);
        }
    }
  }

  /** What a close timer does to `_modalCallbacks` and to the calls made keeps
      them valid: the handler key goes, and a waiting callback is called once
      and goes. */
  lemma CloseKeepsCallbacks(callbacks: map<string, Slot>, ds: seq<Delivery>, issued: set<string>, id: string, arg: JsValue)
    requires CallbacksValid(callbacks, ds, issued)
    ensures var rest := callbacks - {HandlerKey(id)};
      if AwaitingIn(callbacks, id) then
        CallbacksValid(rest - {id}, ds + [Delivery(id, callbacks[id].fn, arg)], issued)
      else
        CallbacksValid(rest, ds, issued)
    ensures AwaitingIn(callbacks - {HandlerKey(id)}, id) == AwaitingIn(callbacks, id)
  {
    var rest := callbacks - {HandlerKey(id)};
    assert |HandlerKey(id)| != |id|;
    if AwaitingIn(callbacks, id) {
      var ds' := ds + [Delivery(id, callbacks[id].fn, arg)];
      assert callbacks[id].Callback?;
      assert SlotFits(id, callbacks[id], issued);
      forall i | 0 <= i < |ds'|
        ensures ds'[i].modal in issued && !AwaitingIn(rest - {id}, ds'[i].modal)
      {
        if i < |ds| {
          assert ds'[i] == ds[i];
        }
      }
      forall i, j | 0 <= i < j < |ds'| ensures ds'[i].modal != ds'[j].modal {
        if j < |ds| {
          assert ds'[i] == ds[i] && ds'[j] == ds[j];
        } else {
          assert ds'[i] == ds[i];
        }
      }
    }
  }

  class Tip {
    var initialized: bool
    /** How many times the containers have been created; a timer that
        captured a container element of an earlier generation holds an
        element that is no longer in the document. */
    var generation: nat
    var defaults: Settings
    /** The children of the toast container, oldest first. */
    var toasts: seq<Toast>
    var activeToasts: set<string>
    var modalCallbacks: map<string, Slot>
    /** The content of the modal container. */
    var mounted: Option<Modal>
    var loadingCount: int
    /** The text of the loading overlay while its content is in place. */
    var overlay: Option<string>
    var timers: seq<Timer>
    /** Every call of a user callback made by a close timer, in order. */
    var deliveries: seq<Delivery>
    /** Every toast id `_generateId` has handed out, numbered in the order
        it handed them out, and every modal id it has handed out. */
    ghost var toastRanks: map<string, nat>
    ghost var toastsIssued: nat
    ghost var modalIds: set<string>

    /** A callback under key k that the next close timer for k would call. */
    predicate Awaiting(k: string)
      reads this`modalCallbacks
    {
      AwaitingIn(modalCallbacks, k)
    }

    ghost predicate ToastsValid()
      reads this`toasts, this`activeToasts, this`toastRanks, this`toastsIssued
    {
      RegistryValid(toasts, activeToasts, toastRanks, toastsIssued)
    }

    ghost predicate TimersValid()
      reads this`timers
    {
      forall t :: t in timers ==> TimerFits(t)
    }

    /** The callbacks are valid, and the mounted modal's callback and handler
        are registered. */
    ghost predicate ModalsValid()
      reads this`modalCallbacks, this`mounted, this`deliveries, this`modalIds
    {
      CallbacksValid(modalCallbacks, deliveries, modalIds)
      && (mounted.Some? ==>
            mounted.value.id in modalCallbacks && HandlerKey(mounted.value.id) in modalCallbacks)
    }

    /** Before `_init` and after `destroy` nothing is displayed or held. */
    ghost predicate IdleUnlessInitialized()
      reads this`initialized, this`toasts, this`mounted, this`overlay, this`loadingCount, this`modalCallbacks
    {
      !initialized ==>
        toasts == [] && mounted == None && overlay == None && loadingCount == 0 && modalCallbacks == map[]
    }

    ghost predicate Valid()
      reads this
    {
      WellFormed(defaults) && loadingCount >= 0
      && ToastsValid() && TimersValid() && ModalsValid() && IdleUnlessInitialized()
    }

    /** The shape of what `_generateId(prefix)` returns, never handed out
        before: `<prefix><time>-<random>` for the prefix "toast-" or
        "modal-", without an underscore. */
    ghost predicate FreshId(id: string, prefix: string)
      reads this`toastRanks, this`modalIds
    {
      prefix <= id && id !in ContainerIds && '_' !in id
      && id !in (if prefix == "toast-" then toastRanks.Keys else modalIds)
    }

    /** Whether `document.querySelector('#' + id)` finds one of the
        elements the library has put into the document. */
    function ElementPresent(id: string): bool
      reads this
    {
      initialized
      && (id in ContainerIds
          || id in IdSet(toasts)
          || (mounted.Some? &&
              var m := mounted.value;
              id == m.id || id == "cancel-" + m.id || id == "confirm-" + m.id
              || (m.kind == PromptDialog && id == "prompt-input-" + m.id)))
    }

    /** Whether `#prompt-input-<id>` is in the document. */
    function PromptMounted(id: string): bool
      reads this
    {
      initialized && mounted.Some? && mounted.value.id == id && mounted.value.kind == PromptDialog
    }

    /** The module's loading, with `_init` run at once when the document is
        ready (otherwise it waits for `DOMContentLoaded`, see `Init`). */
    constructor (documentReady: bool)
      ensures Valid()
      ensures initialized == documentReady && generation == (if documentReady then 1 else 0)
      ensures defaults == InitialSettings
      ensures toasts == [] && activeToasts == {} && modalCallbacks == map[] && mounted == None
      ensures loadingCount == 0 && overlay == None && timers == [] && deliveries == [] && toastRanks == map[] && toastsIssued == 0 && modalIds == {}
    {
      initialized := documentReady;
      generation := if documentReady then 1 else 0;
      defaults := InitialSettings;
      toasts := [];
      activeToasts := {};
      modalCallbacks := map[];
      mounted := None;
      loadingCount := 0;
      overlay := None;
      timers := [];
      deliveries := [];
      toastRanks := map[];
      toastsIssued := 0;
      modalIds := {};
    }

    /** `_init` (and `_ensureInit`, `init`, the `DOMContentLoaded` handler):
        the first call creates the containers, every later call does
        nothing. */
    method Init()
      requires Valid()
      modifies this`initialized, this`generation
      ensures Valid() && initialized
      ensures old(initialized) ==> generation == old(generation)
      ensures !old(initialized) ==> generation == old(generation) + 1
    {
      if initialized {
        return;
      }
      generation := generation + 1;
      initialized := true;
    }

    // ---------------------------------------------------------------- toasts

    /** `toast(message, type, {time})`, with `freshId` the id `_generateId`
        would produce.  An invalid message returns no id and leaves the
        registry alone; otherwise the new toast is appended, the oldest one is
        evicted when the container is at capacity, and the show and hide
        timers are scheduled.  Initialization happens first, even for an
        invalid message. */
    method Toast(message: JsValue, kind: JsValue, time: Option<real>, freshId: string) returns (r: Option<string>)
      requires Valid() && FreshId(freshId, "toast-")
      modifies this`initialized, this`generation, this`toasts, this`activeToasts, this`timers, this`toastRanks, this`toastsIssued
      ensures Valid() && initialized
      ensures generation == if old(initialized) then old(generation) else old(generation) + 1
      ensures !ValidateParams(message, Null) ==>
        r == None && toasts == old(toasts) && activeToasts == old(activeToasts)
        && timers == old(timers) && toastRanks == old(toastRanks) && toastsIssued == old(toastsIssued)
      ensures ValidateParams(message, Null) ==>
        r == Some(freshId)
        && toastRanks == old(toastRanks)[freshId := old(toastsIssued)] && toastsIssued == old(toastsIssued) + 1
        && toasts == Admit(old(toasts), defaults.toastMaxCount,
                           Toasts.Toast(freshId, ResolveType(kind), DisplaySeconds(time), Entering))
        && timers == old(timers) + [ShowTimer(freshId), HideTimer(freshId)]
      ensures ValidateParams(message, Null) && old(|toasts|) as real >= defaults.toastMaxCount ==>
        activeToasts == old(activeToasts) - {old(toasts)[0].id} + {freshId}
      ensures ValidateParams(message, Null) && old(|toasts|) as real < defaults.toastMaxCount ==>
        activeToasts == old(activeToasts) + {freshId}
    {
      Init();
      if !ValidateParams(message, Null) {
        return None;
      }
      var entry := Toasts.Toast(freshId, ResolveType(kind), DisplaySeconds(time), Entering);
      AddToast(entry);
      r := Some(freshId);
    }

    /** The part of `toast` after the checks: the capacity check with its
        eviction of the oldest toast, the append, and the two timers. */
    method AddToast(entry: Toasts.Toast)
      requires Valid() && initialized && FreshId(entry.id, "toast-")
      modifies this`toasts, this`activeToasts, this`timers, this`toastRanks, this`toastsIssued
      ensures Valid()
      ensures toastRanks == old(toastRanks)[entry.id := old(toastsIssued)] && toastsIssued == old(toastsIssued) + 1
      ensures toasts == Admit(old(toasts), defaults.toastMaxCount, entry)
      ensures timers == old(timers) + [ShowTimer(entry.id), HideTimer(entry.id)]
      ensures old(|toasts|) as real >= defaults.toastMaxCount ==>
        activeToasts == old(activeToasts) - {old(toasts)[0].id} + {entry.id}
      ensures old(|toasts|) as real < defaults.toastMaxCount ==>
        activeToasts == old(activeToasts) + {entry.id}
    {
      var kept, active := toasts, activeToasts;
      if |kept| as real >= defaults.toastMaxCount {
        EvictKeepsRegistry(kept, active, toastRanks, toastsIssued);
        var oldest := kept[0].id;
        kept := kept[1..];
        active := active - {oldest};
      }
      AppendKeepsRegistry(kept, active, toastRanks, toastsIssued, entry);
      toasts, activeToasts := kept + [entry], active + {entry.id};
      toastRanks, toastsIssued := toastRanks[entry.id := toastsIssued], toastsIssued + 1;
      timers := timers + [ShowTimer(entry.id), HideTimer(entry.id)];
      // The modal state lies outside this method's frame.
      assert ModalsValid() by { assert ModalsValid() == old(ModalsValid()); }
    }

    /** `_removeToast(id)`: the element with that id leaves the container and
        the id leaves `_activeToasts`; for an absent id nothing changes. */
    method RemoveToast(id: string)
      requires Valid() && ToastShaped(id)
      modifies this`toasts, this`activeToasts
      ensures Valid()
      ensures toasts == RemoveId(old(toasts), id) && activeToasts == old(activeToasts) - {id}
      ensures id !in old(activeToasts) ==> toasts == old(toasts) && activeToasts == old(activeToasts)
    {
      RemoveIdSpec(toasts, id);
      RemoveKeepsRegistry(toasts, activeToasts, toastRanks, toastsIssued, id);
      toasts := RemoveId(toasts, id);
      activeToasts := activeToasts - {id};
    }

    /** `closeToast(id)`: removes an active toast at once, whatever its
        timers; an empty or unknown id is a no-op. */
    method CloseToast(id: string)
      requires Valid()
      modifies this`toasts, this`activeToasts
      ensures Valid()
      ensures toasts == RemoveId(old(toasts), id) && activeToasts == old(activeToasts) - {id}
      ensures id !in old(activeToasts) ==> toasts == old(toasts) && activeToasts == old(activeToasts)
    {
      if id != "" && id in activeToasts {
        RemoveToast(id);
      } else {
        RemoveIdSpec(toasts, id);
      }
    }

    /** `clearToasts`: empties the container and `_activeToasts`. */
    method ClearToasts()
      requires Valid()
      modifies this`toasts, this`activeToasts
      ensures Valid() && toasts == [] && activeToasts == {}
    {
      toasts := [];
      activeToasts := {};
    }

    /** The show timer of `toast`: slides the toast in if it is still
        active; for an evicted or closed toast it does nothing. */
    method FireShowTimer(k: nat)
      requires Valid() && k < |timers| && timers[k].ShowTimer?
      modifies this`toasts, this`timers
      ensures Valid() && timers == Without(old(timers), k)
      ensures var id := old(timers[k]).toast;
        toasts == if id in activeToasts then SetPhase(old(toasts), id, Shown) else old(toasts)
    {
      var id := timers[k].toast;
      timers := Without(timers, k);
      if id in activeToasts {
        SetPhaseKeepsRegistry(toasts, activeToasts, toastRanks, toastsIssued, id, Shown);
        toasts := SetPhase(toasts, id, Shown);
      }
    }

    /** The hide timer of `toast`: if the toast is still active, slides it
        out and schedules its removal; otherwise it does nothing. */
    method FireHideTimer(k: nat)
      requires Valid() && k < |timers| && timers[k].HideTimer?
      modifies this`toasts, this`timers
      ensures Valid()
      ensures var id := old(timers[k]).toast;
        if id in activeToasts then
          toasts == SetPhase(old(toasts), id, Leaving) && timers == Without(old(timers), k) + [RemoveTimer(id)]
        else
          toasts == old(toasts) && timers == Without(old(timers), k)
    {
      var id := timers[k].toast;
      timers := Without(timers, k);
      if id in activeToasts {
        SetPhaseKeepsRegistry(toasts, activeToasts, toastRanks, toastsIssued, id, Leaving);
        toasts := SetPhase(toasts, id, Leaving);
        timers := timers + [RemoveTimer(id)];
      }
    }

    /** The removal timer scheduled by the hide timer: `_removeToast`, which
        needs no guard because removing an absent id changes nothing. */
    method FireRemoveTimer(k: nat)
      requires Valid() && k < |timers| && timers[k].RemoveTimer?
      modifies this`toasts, this`activeToasts, this`timers
      ensures Valid() && timers == Without(old(timers), k)
      ensures var id := old(timers[k]).toast;
        toasts == RemoveId(old(toasts), id) && activeToasts == old(activeToasts) - {id}
      ensures old(timers[k]).toast !in old(activeToasts) ==>
        toasts == old(toasts) && activeToasts == old(activeToasts)
    {
      var id := timers[k].toast;
      assert TimerFits(timers[k]);
      timers := Without(timers, k);
      RemoveToast(id);
    }

    // ---------------------------------------------------------------- modals

    /** The bookkeeping shared by `confirm` and `prompt` once the arguments
        are valid: the new dialog replaces whatever the modal container held,
        its callback and keydown handler are registered, and nothing already
        in `_modalCallbacks` is touched or called. */
    method Mount(kind: ModalKind, callback: JsValue, input: string, freshId: string)
      requires Valid() && initialized && FreshId(freshId, "modal-")
      modifies this`modalCallbacks, this`mounted, this`modalIds
      ensures Valid()
      ensures modalIds == old(modalIds) + {freshId}
      ensures mounted == Some(Modal(freshId, kind, input))
      ensures modalCallbacks == old(modalCallbacks)[freshId := Callback(callback)][HandlerKey(freshId) := KeyHandler(freshId)]
      ensures forall key :: key in old(modalCallbacks) ==> key in modalCallbacks && modalCallbacks[key] == old(modalCallbacks)[key]
    {
      MountKeepsCallbacks(modalCallbacks, deliveries, modalIds, freshId, callback);
      modalIds := modalIds + {freshId};
      mounted := Some(Modal(freshId, kind, input));
      modalCallbacks := modalCallbacks[freshId := Callback(callback)];
      modalCallbacks := modalCallbacks[HandlerKey(freshId) := KeyHandler(freshId)];
    }

    /** `confirm(message, callback)`: on valid arguments returns the new
        modal's id and mounts it; on a missing message or a truthy
        non-function callback returns no id and changes no modal state. */
    method Confirm(message: JsValue, callback: JsValue, freshId: string) returns (r: Option<string>)
      requires Valid() && FreshId(freshId, "modal-")
      modifies this`initialized, this`generation, this`modalCallbacks, this`mounted, this`modalIds
      ensures Valid() && initialized
      ensures generation == if old(initialized) then old(generation) else old(generation) + 1
      ensures !ValidateParams(message, callback) ==>
        r == None && modalCallbacks == old(modalCallbacks) && mounted == old(mounted) && modalIds == old(modalIds)
      ensures ValidateParams(message, callback) ==>
        r == Some(freshId) && modalIds == old(modalIds) + {freshId}
        && mounted == Some(Modal(freshId, ConfirmDialog, ""))
        && modalCallbacks == old(modalCallbacks)[freshId := Callback(callback)][HandlerKey(freshId) := KeyHandler(freshId)]
    {
      Init();
      if !ValidateParams(message, callback) {
        return None;
      }
      Mount(ConfirmDialog, callback, "", freshId);
      r := Some(freshId);
    }

    /** `prompt(message, callback, {defaultValue})`: like `Confirm`, and the
        input field starts with the default value (`""` when it is missing). */
    method Prompt(message: JsValue, callback: JsValue, defaultValue: string, freshId: string) returns (r: Option<string>)
      requires Valid() && FreshId(freshId, "modal-")
      modifies this`initialized, this`generation, this`modalCallbacks, this`mounted, this`modalIds
      ensures Valid() && initialized
      ensures generation == if old(initialized) then old(generation) else old(generation) + 1
      ensures !ValidateParams(message, callback) ==>
        r == None && modalCallbacks == old(modalCallbacks) && mounted == old(mounted) && modalIds == old(modalIds)
      ensures ValidateParams(message, callback) ==>
        r == Some(freshId) && modalIds == old(modalIds) + {freshId}
        && mounted == Some(Modal(freshId, PromptDialog, InitialInput(defaultValue)))
        && modalCallbacks == old(modalCallbacks)[freshId := Callback(callback)][HandlerKey(freshId) := KeyHandler(freshId)]
    {
      Init();
      if !ValidateParams(message, callback) {
        return None;
      }
      Mount(PromptDialog, callback, InitialInput(defaultValue), freshId);
      r := Some(freshId);
    }

    /** The user edits the text of the mounted prompt's input field. */
    method EditInput(text: string)
      requires Valid()
      modifies this`mounted
      ensures Valid()
      ensures mounted == if old(mounted).Some? && old(mounted).value.kind == PromptDialog
                         then Some(old(mounted).value.(input := text)) else old(mounted)
    {
      if mounted.Some? && mounted.value.kind == PromptDialog {
        mounted := Some(mounted.value.(input := text));
      }
    }

    /** `closeModal(id, confirmed)`: when `#id` is in the document, captures
        whether the dialog is a prompt and its input text now, before any
        change, and schedules the close timer; otherwise does nothing. */
    method CloseModal(id: string, confirmed: JsValue)
      requires Valid()
      modifies this`timers
      ensures Valid()
      ensures !ElementPresent(id) ==> timers == old(timers)
      ensures ElementPresent(id) ==>
        timers == old(timers) + [CloseTimer(id, confirmed, PromptMounted(id),
                                            if PromptMounted(id) then mounted.value.input else "")]
    {
      if !ElementPresent(id) {
        return;
      }
      var isPrompt := PromptMounted(id);
      var input := if isPrompt then mounted.value.input else "";
      timers := timers + [CloseTimer(id, confirmed, isPrompt, input)];
    }

    /** The keydown handler registered for modal `owner`: Enter closes it
        confirmed, Escape closes it cancelled, any other key does nothing. */
    method KeyDown(owner: string, keyCode: int)
      requires Valid() && HandlerKey(owner) in modalCallbacks
      modifies this`timers
      ensures Valid()
      ensures KeyAction(keyCode).None? || !ElementPresent(owner) ==> timers == old(timers)
      ensures KeyAction(keyCode).Some? && ElementPresent(owner) ==>
        timers == old(timers) + [CloseTimer(owner, Bool(KeyAction(keyCode).value), PromptMounted(owner),
                                            if PromptMounted(owner) then mounted.value.input else "")]
    {
      match KeyAction(keyCode)
      case Some(c) => CloseModal(owner, Bool(c));
      case None =>
    }

    /** The close timer: empties and hides the modal container whatever it
        now holds, detaches and forgets the modal's keydown handler, and
        calls the stored callback if there is a truthy one, then deletes it
        (also when the callback throws).  A later timer for the same modal
        finds no callback and calls nothing. */
    method FireCloseTimer(k: nat)
      requires Valid() && k < |timers| && timers[k].CloseTimer?
      modifies this`modalCallbacks, this`mounted, this`deliveries, this`timers
      ensures Valid() && timers == Without(old(timers), k)
      ensures mounted == None
      ensures var t := old(timers[k]);
        var rest := old(modalCallbacks) - {HandlerKey(t.modal)};
        if old(Awaiting(t.modal)) then
          modalCallbacks == rest - {t.modal}
          && deliveries == old(deliveries) + [Delivery(t.modal, old(modalCallbacks[t.modal].fn),
                                                        CallbackArgument(if t.isPrompt then PromptDialog else ConfirmDialog,
                                                                         t.confirmed, t.input))]
        else
          modalCallbacks == rest && deliveries == old(deliveries)
    {
      var t := timers[k];
      var arg := CallbackArgument(if t.isPrompt then PromptDialog else ConfirmDialog, t.confirmed, t.input);
      CloseKeepsCallbacks(modalCallbacks, deliveries, modalIds, t.modal, arg);
      timers := Without(timers, k);
      if initialized {
        mounted := None;
      }
      // Detaching the keydown listener is not modelled, so the guarded
      // delete of the handler key is a plain map removal.
      var rest := modalCallbacks - {HandlerKey(t.modal)};
      if t.modal in rest && rest[t.modal].Callback? && Truthy(rest[t.modal].fn) {
        deliveries := deliveries + [Delivery(t.modal, rest[t.modal].fn, arg)];
        rest := rest - {t.modal};
      }
      modalCallbacks := rest;
    }

    /** `closeAllModals`: hides and empties the modal container, detaches
        every handler whose key contains "_keydown" (the keys returned), and
        empties `_modalCallbacks` without calling any callback. */
    method CloseAllModals() returns (detached: set<string>)
      requires Valid()
      modifies this`modalCallbacks, this`mounted
      ensures Valid() && mounted == None && modalCallbacks == map[]
      ensures detached == set key | key in old(modalCallbacks) && ContainsKeydown(key)
      ensures detached == set key | key in old(modalCallbacks) && old(modalCallbacks)[key].KeyHandler?
    {
      if initialized {
        mounted := None;
      }
      detached := HandlerKeysOf(modalCallbacks);
      forall key | key in modalCallbacks
        ensures ContainsKeydown(key) <==> modalCallbacks[key].KeyHandler?
      {
        match modalCallbacks[key]
        case Callback(_) => NoUnderscoreNoKeydown(key);
        case KeyHandler(o) => HandlerKeyHasUnderscore(o);
      }
      modalCallbacks := map[];
    }

    // --------------------------------------------------------------- loading

    /** `loading.show(message)`: counts one more request and replaces the
        overlay's content with the message (or the default text). */
    method LoadingShow(message: string)
      requires Valid()
      modifies this`initialized, this`generation, this`loadingCount, this`overlay
      ensures Valid() && initialized
      ensures generation == if old(initialized) then old(generation) else old(generation) + 1
      ensures loadingCount == old(loadingCount) + 1
      ensures overlay == Some(if message == "" then DefaultLoadingText else message)
    {
      Init();
      loadingCount := loadingCount + 1;
      overlay := Some(if message == "" then DefaultLoadingText else message);
    }

    /** `loading.hide`: decrements the count and stops while requests remain;
        otherwise sets the count to 0 and, if the container exists, starts
        the hide animation whose timer clears the overlay. */
    method LoadingHide()
      requires Valid()
      modifies this`loadingCount, this`timers
      ensures Valid()
      ensures old(loadingCount) > 1 ==> loadingCount == old(loadingCount) - 1 && timers == old(timers)
      ensures old(loadingCount) <= 1 ==> loadingCount == 0
      ensures old(loadingCount) <= 1 ==>
        timers == old(timers) + (if initialized then [LoadingHideTimer(generation)] else [])
    {
      loadingCount := loadingCount - 1;
      if loadingCount > 0 {
        return;
      }
      loadingCount := 0;
      if !initialized {
        return;
      }
      timers := timers + [LoadingHideTimer(generation)];
    }

    /** The hide timer of `loading.hide`: clears the overlay of the container
        it captured, without looking at the count, so it also clears an
        overlay a later `show` put up; a container of an earlier generation is
        no longer in the document and clearing it shows nothing. */
    method FireLoadingHideTimer(k: nat)
      requires Valid() && k < |timers| && timers[k].LoadingHideTimer?
      modifies this`overlay, this`timers
      ensures Valid() && timers == Without(old(timers), k)
      ensures overlay == if initialized && old(timers[k]).generation == generation then None else old(overlay)
    {
      var g := timers[k].generation;
      timers := Without(timers, k);
      if initialized && g == generation {
        overlay := None;
      }
    }

    /** `closeAllLoading`: clears the overlay and resets the count. */
    method CloseAllLoading()
      requires Valid()
      modifies this`loadingCount, this`overlay
      ensures Valid() && loadingCount == 0 && overlay == None
    {
      if initialized {
        overlay := None;
      }
      loadingCount := 0;
    }

    // ------------------------------------------------------------- lifecycle

    /** `clearAll`: the three clears in turn. */
    method ClearAll()
      requires Valid()
      modifies this`toasts, this`activeToasts, this`modalCallbacks, this`mounted, this`loadingCount, this`overlay
      ensures Valid()
      ensures toasts == [] && activeToasts == {} && modalCallbacks == map[] && mounted == None
      ensures loadingCount == 0 && overlay == None
    {
      ClearToasts();
      var _ := CloseAllModals();
      CloseAllLoading();
    }

    /** `destroy`: `clearAll`, the containers and styles removed, and the
        state reset to uninitialized.  The configuration, the pending timers
        and what callbacks were already called stay as they are. */
    method Destroy()
      requires Valid()
      modifies this`initialized, this`toasts, this`activeToasts, this`modalCallbacks, this`mounted,
               this`loadingCount, this`overlay
      ensures Valid() && !initialized
      ensures toasts == [] && activeToasts == {} && modalCallbacks == map[] && mounted == None
      ensures loadingCount == 0 && overlay == None
    {
      ClearAll();
      initialized := false;
      activeToasts := {};
      modalCallbacks := map[];
      loadingCount := 0;
    }

    /** `config(options)`. */
    method Configure(options: Option<ConfigOptions>)
      requires Valid()
      modifies this`defaults
      ensures Valid() && defaults == ApplyConfig(old(defaults), options)
    {
      defaults := ApplyConfig(defaults, options);
    }

    /** `getConfig`: a copy of the current settings. */
    method GetConfig() returns (s: Settings)
      requires Valid()
      ensures s == defaults && WellFormed(s)
    {
      s := defaults;
    }
  }
}
