/** The toast registry's values: a toast's type and display time as `toast`
    settles them, and the ordered list of toast elements in the toast
    container together with the operations the registry performs on it. */
module Toasts {
  import opened JsValues

  datatype ToastType = Success | Warning | Info | Error

  /** The keys of `_toastConfig`. */
  function TypeName(t: ToastType): string {
    match t
    case Success => "success"
    case Warning => "warning"
    case Info => "info"
    case Error => "error"
  }

  const TypeNames: set<string> := {"success", "warning", "info", "error"}

  /** The property names every object literal inherits from `Object.prototype`
      (in a current engine); looking one of them up on `_toastConfig` yields
      a truthy value. */
  const InheritedKeys: set<string> := {
    "constructor", "hasOwnProperty", "isPrototypeOf", "propertyIsEnumerable",
    "toLocaleString", "toString", "valueOf", "__proto__",
    "__defineGetter__", "__defineSetter__", "__lookupGetter__", "__lookupSetter__"
  }

  /** The key `toast` ends up using for `_toastConfig`, as written: a falsy
      type becomes "info", and a key the lookup does not find falls back to
      "info".  The lookup also finds inherited properties, so an inherited
      name stays as it is and selects no toast type at all.  Only string types
      are modelled; every other value is taken to fall back to "info". */
  function ConfigKeyAsWritten(kind: JsValue): (key: string)
    ensures key in TypeNames || key in InheritedKeys
    ensures kind.Str? && (kind.s in TypeNames || kind.s in InheritedKeys) ==> key == kind.s
    ensures !(kind.Str? && (kind.s in TypeNames || kind.s in InheritedKeys)) ==> key == "info"
  {
    var k := if Truthy(kind) then kind else Str("info");
    if k.Str? && (k.s in TypeNames || k.s in InheritedKeys) then k.s else "info"
  }

  /** As written, the type "toString" is not replaced by "info" although it
      names no toast type. */
  lemma InheritedKeyEscapesFallback()
    ensures ConfigKeyAsWritten(Str("toString")) !in TypeNames
  {
  }

  /** The type resolution the fallback evidently intends: one of the four
      names selects its type, everything else (missing, unknown, inherited,
      non-string) selects `Info`. */
  function ResolveType(kind: JsValue): (t: ToastType)
    ensures kind.Str? && kind.s in TypeNames ==> TypeName(t) == kind.s
    ensures !(kind.Str? && kind.s in TypeNames) ==> t == Info
  {
    if kind == Str("success") then Success
    else if kind == Str("warning") then Warning
    else if kind == Str("error") then Error
    else Info
  }

  /** The intended resolution agrees with the code on every type except the
      inherited property names. */
  lemma ResolveTypeAgreesOutsideInherited(kind: JsValue)
    requires !(kind.Str? && kind.s in InheritedKeys)
    ensures TypeName(ResolveType(kind)) == ConfigKeyAsWritten(kind)
  {
  }

  /** `options.time || 3`, then a result that is not positive replaced by 3:
      the toast's display time in seconds.  Only numeric (or missing) times
      are modelled. */
  function DisplaySeconds(time: Option<real>): (r: real)
    ensures r > 0.0
    ensures time.Some? && time.value > 0.0 ==> r == time.value
    ensures time.None? || time.value <= 0.0 ==> r == 3.0
  {
    var t := if time.Some? && time.value != 0.0 then time.value else 3.0;
    if t <= 0.0 then 3.0 else t
  }

  /** Where a toast element is in its animation: inserted off-screen, slid
      in by the show timer, sliding out after the hide timer. */
  datatype Phase = Entering | Shown | Leaving

  /** A toast element in the toast container. */
  datatype Toast = Toast(id: string, kind: ToastType, seconds: real, phase: Phase)

  function IdSet(ts: seq<Toast>): set<string> {
    set t | t in ts :: t.id
  }

  predicate DistinctIds(ts: seq<Toast>) {
    forall i, j :: 0 <= i < j < |ts| ==> ts[i].id != ts[j].id
  }

  /** Appending a toast at the capacity check of `toast`: when the container
      already holds `max` or more children, exactly the first (oldest) one is
      removed; the new toast always comes last.  Since the count is compared
      with a number that may be fractional, the bound the registry keeps is
      |ts| < max + 1 (that is, at most the ceiling of max), which is |ts| <= max
      for a whole max; it is kept, never restored. */
  function Admit(ts: seq<Toast>, max: real, t: Toast): (r: seq<Toast>)
    requires max > 0.0
    ensures |r| > 0 && r[|r| - 1] == t
    ensures |ts| as real < max ==> r[..|r| - 1] == ts
    ensures |ts| as real >= max ==> |ts| > 0 && r[..|r| - 1] == ts[1..]
    ensures |ts| as real < max + 1.0 ==> |r| as real < max + 1.0
  {
    if |ts| as real >= max then ts[1..] + [t] else ts + [t]
  }

  /** For a whole maximum n the kept bound reads |ts| <= n. */
  lemma AdmitWholeBound(ts: seq<Toast>, n: nat, t: Toast)
    requires n > 0 && |ts| <= n
    ensures |Admit(ts, n as real, t)| <= n
  {
    if |ts| == n {
      assert |ts| as real >= n as real;
    } else {
      assert |ts| as real < n as real;
    }
  }

  /** The bound is not restored: a registry that is over it, because
      `toastMaxCount` was lowered after it filled up, keeps its size on every
      later toast and so stays over it. */
  lemma OverfullStaysOverfull(ts: seq<Toast>, max: real, t: Toast)
    requires max > 0.0 && |ts| as real >= max + 1.0
    ensures |Admit(ts, max, t)| == |ts|
    ensures |Admit(ts, max, t)| as real >= max + 1.0
  {
  }

  lemma IdSetAppend(a: seq<Toast>, b: seq<Toast>)
    ensures IdSet(a + b) == IdSet(a) + IdSet(b)
  {
    forall x | x in IdSet(a + b) ensures x in IdSet(a) + IdSet(b) {
      var t :| t in a + b && t.id == x;
    }
  }

  lemma DistinctAppend(a: seq<Toast>, b: seq<Toast>)
    requires DistinctIds(a) && DistinctIds(b) && IdSet(a) !! IdSet(b)
    ensures DistinctIds(a + b)
  {
    forall i, j | 0 <= i < j < |a + b| ensures (a + b)[i].id != (a + b)[j].id {
      if j < |a| {
        assert (a + b)[i] == a[i] && (a + b)[j] == a[j];
      } else if i >= |a| {
        assert (a + b)[i] == b[i - |a|] && (a + b)[j] == b[j - |a|];
      } else {
        assert (a + b)[i] == a[i] && (a + b)[j] == b[j - |a|];
        assert a[i] in a && b[j - |a|] in b;
        assert a[i].id in IdSet(a) && b[j - |a|].id in IdSet(b);
      }
    }
  }

  lemma IdSetTail(ts: seq<Toast>)
    requires |ts| > 0 && DistinctIds(ts)
    ensures DistinctIds(ts[1..]) && IdSet(ts[1..]) == IdSet(ts) - {ts[0].id}
  {
    assert ts == [ts[0]] + ts[1..];
    IdSetAppend([ts[0]], ts[1..]);
    forall t | t in ts[1..] ensures t.id != ts[0].id {
      var j :| 0 <= j < |ts[1..]| && ts[1..][j] == t;
      assert ts[j + 1] == t;
    }
  }

  /** The capacity check keeps ids distinct, and the set of ids changes by
      exactly the evicted oldest id (if any) and the new id. */
  lemma AdmitIds(ts: seq<Toast>, max: real, t: Toast)
    requires max > 0.0 && DistinctIds(ts) && t.id !in IdSet(ts)
    ensures DistinctIds(Admit(ts, max, t))
    ensures |ts| as real >= max ==> IdSet(Admit(ts, max, t)) == IdSet(ts) - {ts[0].id} + {t.id}
    ensures |ts| as real < max ==> IdSet(Admit(ts, max, t)) == IdSet(ts) + {t.id}
  {
    var kept := if |ts| as real >= max then ts[1..] else ts;
    if |ts| as real >= max {
      IdSetTail(ts);
    }
    assert IdSet([t]) == {t.id};
    IdSetAppend(kept, [t]);
    DistinctAppend(kept, [t]);
    assert Admit(ts, max, t) == kept + [t];
  }

  /** `_removeToast` on the container's children: the element with the given
      id goes, the others stay in order. */
  function RemoveId(ts: seq<Toast>, id: string): (r: seq<Toast>)
    ensures forall t :: t in r ==> t in ts && t.id != id
    ensures forall t :: t in ts && t.id != id ==> t in r
  {
    if ts == [] then []
    else (if ts[0].id == id then [] else [ts[0]]) + RemoveId(ts[1..], id)
  }

  /** Removing an id that is not there changes nothing. */
  lemma {:induction false} RemoveAbsentId(ts: seq<Toast>, id: string)
    requires id !in IdSet(ts)
    ensures RemoveId(ts, id) == ts
  {
    if ts != [] {
      assert ts[0] in ts;
      assert IdSet(ts[1..]) <= IdSet(ts) by {
        forall x | x in IdSet(ts[1..]) ensures x in IdSet(ts) {
          var t :| t in ts[1..] && t.id == x;
          assert t in ts;
        }
      }
      RemoveAbsentId(ts[1..], id);
      assert ts == [ts[0]] + ts[1..];
    }
  }

  /** Cutting element k out of the tail is cutting element k + 1 out of the
      whole sequence. */
  lemma CutAfterHead(ts: seq<Toast>, k: nat)
    requires k + 1 < |ts|
    ensures [ts[0]] + (ts[1..][..k] + ts[1..][k + 1..]) == ts[..k + 1] + ts[k + 2..]
  {
    var lhs := [ts[0]] + (ts[1..][..k] + ts[1..][k + 1..]);
    var rhs := ts[..k + 1] + ts[k + 2..];
    assert |lhs| == |rhs|;
    forall i | 0 <= i < |lhs| ensures lhs[i] == rhs[i] {
      if i == 0 {
      } else if i <= k {
        assert lhs[i] == ts[1..][..k][i - 1];
      } else {
        assert lhs[i] == ts[1..][k + 1..][i - 1 - k];
      }
    }
  }

  /** Removing a present id cuts exactly its one element out and keeps the
      others in their order, so the first toast stays the oldest. */
  lemma {:induction false} RemoveIdKeepsOrder(ts: seq<Toast>, id: string)
    requires DistinctIds(ts) && id in IdSet(ts)
    ensures exists k :: 0 <= k < |ts| && ts[k].id == id && RemoveId(ts, id) == ts[..k] + ts[k + 1..]
  {
    IdSetTail(ts);
    if ts[0].id == id {
      RemoveAbsentId(ts[1..], id);
      assert RemoveId(ts, id) == ts[..0] + ts[1..];
    } else {
      assert id in IdSet(ts[1..]);
      RemoveIdKeepsOrder(ts[1..], id);
      var rest := RemoveId(ts[1..], id);
      var k :| 0 <= k < |ts[1..]| && ts[1..][k].id == id && rest == ts[1..][..k] + ts[1..][k + 1..];
      assert RemoveId(ts, id) == [ts[0]] + rest;
      CutAfterHead(ts, k);
      assert ts[k + 1].id == id;
    }
  }

  /** Removing by id takes exactly that id out of the registry, keeps the ids
      distinct, removes exactly one element when the id is present and
      is the identity when it is absent. */
  lemma {:induction false} RemoveIdSpec(ts: seq<Toast>, id: string)
    requires DistinctIds(ts)
    ensures DistinctIds(RemoveId(ts, id))
    ensures IdSet(RemoveId(ts, id)) == IdSet(ts) - {id}
    ensures id !in IdSet(ts) ==> RemoveId(ts, id) == ts
    ensures id in IdSet(ts) ==> |RemoveId(ts, id)| == |ts| - 1
    ensures id in IdSet(ts) ==>
      exists k :: 0 <= k < |ts| && ts[k].id == id && RemoveId(ts, id) == ts[..k] + ts[k + 1..]
  {
    if id !in IdSet(ts) {
      RemoveAbsentId(ts, id);
    } else {
      RemoveIdKeepsOrder(ts, id);
      IdSetTail(ts);
      var rest := RemoveId(ts[1..], id);
      if ts[0].id == id {
        RemoveAbsentId(ts[1..], id);
        assert RemoveId(ts, id) == ts[1..];
      } else {
        assert id in IdSet(ts[1..]);
        RemoveIdSpec(ts[1..], id);
        assert RemoveId(ts, id) == [ts[0]] + rest;
        IdSetAppend([ts[0]], rest);
        DistinctAppend([ts[0]], rest);
      }
    }
  }

  /** The show and hide timers restyle the element with the given id. */
  function SetPhase(ts: seq<Toast>, id: string, p: Phase): (r: seq<Toast>)
    ensures |r| == |ts|
    ensures forall i :: 0 <= i < |ts| ==> r[i].id == ts[i].id
    ensures forall i :: 0 <= i < |ts| && ts[i].id == id ==> r[i].phase == p
    ensures forall i :: 0 <= i < |ts| && ts[i].id != id ==> r[i] == ts[i]
    ensures forall i :: 0 <= i < |ts| ==> r[i].kind == ts[i].kind && r[i].seconds == ts[i].seconds
  {
    seq(|ts|, i requires 0 <= i < |ts| => if ts[i].id == id then ts[i].(phase := p) else ts[i])
  }

  /** A restyle changes neither the registry's ids nor their distinctness. */
  lemma SetPhaseIds(ts: seq<Toast>, id: string, p: Phase)
    ensures IdSet(SetPhase(ts, id, p)) == IdSet(ts)
    ensures DistinctIds(ts) ==> DistinctIds(SetPhase(ts, id, p))
  {
    var r := SetPhase(ts, id, p);
    forall x | x in IdSet(r) ensures x in IdSet(ts) {
      var i :| 0 <= i < |r| && r[i].id == x;
      assert ts[i] in ts;
    }
    forall x | x in IdSet(ts) ensures x in IdSet(r) {
      var i :| 0 <= i < |ts| && ts[i].id == x;
      assert r[i] in r;
    }
  }
}
