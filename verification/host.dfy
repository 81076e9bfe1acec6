/**
 * What the host CMS hands the plugin: its stored parameters (the `rule<i>_*`
 * keys and `development_mode`) read with their defaults, and the request facts
 * that decide whether a request is a cron run.
 */
module Host {
  import opened Php

  datatype Option<+T> = None | Some(value: T)

  /** The four stored values of rule slot `i` (`rule<i>_enabled`, `rule<i>_title`,
      `rule<i>_days`, `rule<i>_action`); `None` where the key is not stored. */
  datatype RawSlot = RawSlot(enabled: Option<string>, title: Option<string>, days: Option<int>, action: Option<string>)

  /** The plugin's parameters: rule slots by number, and the development-mode switch. */
  datatype Params = Params(slots: map<nat, RawSlot>, developmentMode: Option<string>)

  /** Slot `i` as stored; a slot with no stored keys reads as all defaults. */
  function Slot(params: Params, i: nat): RawSlot {
    if i in params.slots then params.slots[i] else RawSlot(None, None, None, None)
  }

  /** `Registry::get($key, $default)`: the stored value, or `fallback` when the
      key is not stored or its stored value is "". */
  function StoredOr(v: Option<string>, fallback: string): string {
    if v.Some? && v.value != "" then v.value else fallback
  }

  /** `rule<i>_enabled`, default 0: on when the value read is truthy. */
  predicate EnabledParam(slot: RawSlot) {
    !IsEmpty(StoredOr(slot.enabled, "0"))
  }

  /** `rule<i>_title`, default "". */
  function TitleParam(slot: RawSlot): string {
    StoredOr(slot.title, "")
  }

  /** `rule<i>_days`, default 30. */
  function DaysParam(slot: RawSlot): int {
    if slot.days.Some? then slot.days.value else 30
  }

  /** `rule<i>_action`, default "disable"; a stored "" also reads as "disable". */
  function ActionParam(slot: RawSlot): string {
    StoredOr(slot.action, "disable")
  }

  /** `(bool) development_mode`, default 0. */
  predicate DevelopmentMode(params: Params) {
    !IsEmpty(StoredOr(params.developmentMode, "0"))
  }

  /** The gate of `onAfterRoute`: EasyBlog is installed with Foundry enabled, the
      request names the cron task or sets the cron flag, and it is a site (not an
      administrator) request. `task` is the request value after Joomla's `cmd`
      input filter (`getCmd` in the namespaced plugin, `get(…, 'cmd')` in the
      legacy one), which keeps only letters, digits, `.`, `-` and `_` and drops
      leading dots; the host applies that filter before this test. */
  predicate CronRun(easyBlogReady: bool, task: string, cron: bool, isSite: bool) {
    easyBlogReady && (task == "cron" || cron) && isSite
  }

  /** The numbers of the slots among 1 to `n` that pass `valid`, in order. */
  function KeptSlots(params: Params, n: nat, valid: RawSlot -> bool): (slots: seq<nat>)
    ensures forall j :: j in slots <==> 1 <= j <= n && valid(Slot(params, j))
    ensures forall a, b :: 0 <= a < b < |slots| ==> slots[a] < slots[b]
    decreases n
  {
    if n == 0 then []
    else
      var before := KeptSlots(params, n - 1, valid);
      assert forall a :: 0 <= a < |before| ==> before[a] in before;
      before + (if valid(Slot(params, n)) then [n] else [])
  }

  /** The loop of `getRules`: slots 1 to `n` in order, each slot that passes
      `valid` appending `make` of it. */
  function LoadedSlots<R>(params: Params, n: nat, valid: RawSlot -> bool, make: RawSlot -> R): (rs: seq<R>)
    ensures |rs| <= n
    decreases n
  {
    if n == 0 then []
    else LoadedSlots(params, n - 1, valid, make) + (if valid(Slot(params, n)) then [make(Slot(params, n))] else [])
  }

  /** The loaded values are exactly `make` of the kept slots, one per slot, in
      slot order. */
  lemma {:induction false} LoadedFollowsSlots<R>(params: Params, n: nat, valid: RawSlot -> bool, make: RawSlot -> R)
    ensures |LoadedSlots(params, n, valid, make)| == |KeptSlots(params, n, valid)|
    ensures forall k :: 0 <= k < |KeptSlots(params, n, valid)| ==>
      LoadedSlots(params, n, valid, make)[k] == make(Slot(params, KeptSlots(params, n, valid)[k]))
    decreases n
  {
    if n > 0 {
      LoadedFollowsSlots(params, n - 1, valid, make);
      var before, slots := LoadedSlots(params, n - 1, valid, make), KeptSlots(params, n - 1, valid);
      forall k | 0 <= k < |slots|
        ensures LoadedSlots(params, n, valid, make)[k] == make(Slot(params, KeptSlots(params, n, valid)[k]))
      {
        assert LoadedSlots(params, n, valid, make)[k] == before[k];
        assert KeptSlots(params, n, valid)[k] == slots[k];
      }
    }
  }

  /** Every loaded value is `make` of a slot that passes `valid`. */
  lemma LoadedFromValidSlots<R>(params: Params, n: nat, valid: RawSlot -> bool, make: RawSlot -> R, r: R)
    requires r in LoadedSlots(params, n, valid, make)
    ensures exists j :: 1 <= j <= n && valid(Slot(params, j)) && r == make(Slot(params, j))
  {
    LoadedFollowsSlots(params, n, valid, make);
    var rs, slots := LoadedSlots(params, n, valid, make), KeptSlots(params, n, valid);
    var k :| 0 <= k < |rs| && rs[k] == r;
    assert slots[k] in slots;
  }
}
