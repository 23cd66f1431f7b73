/** The process-wide `_defaults` record, and what `config` does to it. */
module Config {
  import opened JsValues

  /** `_defaults`: animation length in milliseconds, the CSS easing function
      and the most toasts the container keeps.  Both numbers are JavaScript
      numbers, so neither needs to be an integer. */
  datatype Settings = Settings(animationDuration: real, easing: string, toastMaxCount: real)

  const InitialSettings: Settings := Settings(300.0, "cubic-bezier(0.68,-0.55,0.265,1.55)", 5.0)

  /** What `config` keeps true: both numbers stay positive. */
  predicate WellFormed(s: Settings) {
    s.animationDuration > 0.0 && s.toastMaxCount > 0.0
  }

  /** The three properties `config` reads from an object argument. */
  datatype ConfigOptions = ConfigOptions(animationDuration: JsValue, easing: JsValue, toastMaxCount: JsValue)

  /** `typeof v === 'number' && v > 0` */
  predicate PositiveNumber(v: JsValue) {
    v.Num? && v.n > 0.0
  }

  /** `config(options)`: `options` is `None` when the argument is not a non-null
      object, and then nothing changes.  Otherwise each number is taken only
      when it is a positive number and the easing only when it is a string;
      every other value leaves its field as it was. */
  function ApplyConfig(d: Settings, options: Option<ConfigOptions>): (r: Settings)
    ensures WellFormed(d) ==> WellFormed(r)
    ensures options.None? ==> r == d
    ensures options.Some? ==>
      var o := options.value;
      (r.animationDuration == if PositiveNumber(o.animationDuration) then o.animationDuration.n else d.animationDuration)
      && (r.easing == if o.easing.Str? then o.easing.s else d.easing)
      && (r.toastMaxCount == if PositiveNumber(o.toastMaxCount) then o.toastMaxCount.n else d.toastMaxCount)
  {
    match options
    case None => d
    case Some(o) =>
      var a := if o.animationDuration.Num? && o.animationDuration.n > 0.0 then o.animationDuration.n else d.animationDuration;
      var e := if o.easing.Str? then o.easing.s else d.easing;
      var m := if o.toastMaxCount.Num? && o.toastMaxCount.n > 0.0 then o.toastMaxCount.n else d.toastMaxCount;
      Settings(a, e, m)
  }

  /** Applying the same options twice is the same as applying them once. */
  lemma ConfigIdempotent(d: Settings, options: Option<ConfigOptions>)
    ensures ApplyConfig(ApplyConfig(d, options), options) == ApplyConfig(d, options)
  {
  }
}
