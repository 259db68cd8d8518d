/** Values, derived views and selection steps of the `useChecker` hook
    (src/hooks/useChecker.js): everything that the hook computes without
    touching its reactive state. The stateful controller is in module
    UseChecker, whose methods are specified by the functions here. */
module CheckerModel {

  /** The two selector types of `CHECKER_TYPE`, fixed when the hook is created. */
  datatype Mode = Checkbox | Radio

  /** An option's disabled field. JavaScript tells `true`, `false` and a missing
      field apart: the guard of `check` tests `=== false`, the enabled filter
      tests `!== true`. */
  datatype Flag = IsTrue | IsFalse | Absent

  /** One option of the list: its value and its disabled field (the label plays no role). */
  datatype Item<V> = Item(value: V, disabled: Flag)

  /** The `max` argument: `undefined` or a number. */
  datatype MaxSetting = Unset | Limit(n: int)

  /** The radio selection: the initial empty string `''`, or a chosen value. */
  datatype Scalar<V> = Blank | Value(v: V)

  /** `checkedRef.value`: a scalar in radio mode, an array in checkbox mode. */
  datatype Checked<V> = One(scalar: Scalar<V>) | Many(items: seq<V>)

  /** The shape of the selection that the mode calls for. */
  predicate Fits<V>(mode: Mode, c: Checked<V>) {
    (mode == Checkbox) == c.Many?
  }

  /** No value occurs twice. */
  predicate NoDup<V(==,!new)>(s: seq<V>) {
    forall i, j :: 0 <= i < j < |s| ==> s[i] != s[j]
  }

  // ---------------------------------------------------------------------------
  // Derived views
  // ---------------------------------------------------------------------------

  /** `enabledOptionsRef`: the options whose disabled field is not `true`, in list order. */
  function Enabled<V(==,!new)>(opts: seq<Item<V>>): (r: seq<Item<V>>)
    ensures |r| <= |opts|
    ensures forall o :: o in r <==> o in opts && o.disabled != IsTrue
  {
    if opts == [] then []
    else if opts[0].disabled == IsTrue then Enabled(opts[1..])
    else [opts[0]] + Enabled(opts[1..])
  }

  /** Filtering distributes over concatenation, so Enabled keeps the list order. */
  lemma {:induction false} EnabledAppend<V(!new)>(a: seq<Item<V>>, b: seq<Item<V>>)
    ensures Enabled(a + b) == Enabled(a) + Enabled(b)
  {
    if a == [] {
      assert a + b == b;
    } else {
      assert (a + b)[0] == a[0];
      assert (a + b)[1..] == a[1..] + b;
      EnabledAppend(a[1..], b);
    }
  }

  /** A list without a disabled option is its own enabled list. */
  lemma {:induction false} EnabledKeepsAllEnabled<V(!new)>(opts: seq<Item<V>>)
    requires forall j :: 0 <= j < |opts| ==> opts[j].disabled != IsTrue
    ensures Enabled(opts) == opts
  {
    if opts != [] {
      EnabledKeepsAllEnabled(opts[1..]);
    }
  }

  /** The values of a list of options, in order (`map(item => item[value])`). */
  function Values<V>(opts: seq<Item<V>>): (r: seq<V>)
    ensures |r| == |opts|
    ensures forall j :: 0 <= j < |opts| ==> r[j] == opts[j].value
  {
    if opts == [] then [] else [opts[0].value] + Values(opts[1..])
  }

  /** `maxDefaultRef`: `max || enabledCount`. A falsy max (unset or 0) falls back
      to the number of enabled options; any other number is used as it is. */
  function EffectiveMax(max: MaxSetting, enabledCount: nat): (r: int)
    ensures r == enabledCount || (max.Limit? && r == max.n)
    ensures r == 0 ==> enabledCount == 0
    ensures max.Limit? && max.n != 0 ==> r == max.n
  {
    if max.Limit? && max.n != 0 then max.n else enabledCount
  }

  /** `isActive(value)`: equality with the scalar in radio mode, membership in checkbox mode. */
  function Active<V(==,!new)>(mode: Mode, c: Checked<V>, v: V): (b: bool)
    requires Fits(mode, c)
    ensures mode == Radio ==> (b <==> c == One(Value(v)))
    ensures mode == Checkbox ==> (b <==> v in c.items)
    ensures c == One(Blank) ==> !b
  {
    if mode == Radio then c.scalar == Value(v) else v in c.items
  }

  /** `allActiveRef`: the selection is as long as the enabled list (checkbox mode). */
  predicate AllActive<V>(s: seq<V>, enabled: seq<Item<V>>): (b: bool)
    ensures b <==> |s| == |Values(enabled)|
    ensures b && enabled == [] ==> s == []
  {
    |s| == |enabled|
  }

  // ---------------------------------------------------------------------------
  // Array primitives used by checkCheckbox
  // ---------------------------------------------------------------------------

  /** `Array.prototype.indexOf`: the first index holding `v`, or -1. */
  function IndexOf<V(==,!new)>(s: seq<V>, v: V): (i: int)
    ensures -1 <= i < |s|
    ensures i == -1 <==> v !in s
    ensures 0 <= i ==> s[i] == v && v !in s[..i]
  {
    if s == [] then -1
    else if s[0] == v then 0
    else
      var k := IndexOf(s[1..], v);
      if k == -1 then -1
      else
        assert s[..k + 1] == [s[0]] + s[1..][..k];
        k + 1
  }

  /** `splice(i, 1)`: delete the element at index i. */
  function RemoveAt<V>(s: seq<V>, i: nat): (r: seq<V>)
    requires i < |s|
    ensures |r| == |s| - 1
    ensures r[..i] == s[..i] && r[i..] == s[i + 1..]
  {
    s[..i] + s[i + 1..]
  }

  /** `splice(i, 1)` removes exactly one copy of the element at index i. */
  lemma RemoveAtMultiset<V>(s: seq<V>, i: nat)
    requires i < |s|
    ensures multiset(RemoveAt(s, i)) == multiset(s) - multiset{s[i]}
  {
    assert s == s[..i] + [s[i]] + s[i + 1..];
  }

  /** `splice(0, 1, v)`: overwrite element 0 with v, or insert v into an empty array. */
  function ReplaceFirst<V>(s: seq<V>, v: V): (r: seq<V>)
    ensures |r| == if |s| == 0 then 1 else |s|
    ensures r[0] == v && r[1..] == if s == [] then [] else s[1..]
  {
    if s == [] then [v] else [v] + s[1..]
  }

  // ---------------------------------------------------------------------------
  // Selection steps
  // ---------------------------------------------------------------------------

  /** `checkCheckbox(value)` on selection s with floor `min` and effective max `cap`. */
  function CheckboxStep<V(==,!new)>(s: seq<V>, v: V, min: int, cap: int): seq<V> {
    var index := IndexOf(s, v);
    if index > -1 then
      if |s| > min then RemoveAt(s, index) else s
    else if cap == 1 then ReplaceFirst(s, v)
    else if |s| < cap then s + [v]
    else s
  }

  /** `checkAll()`: clear a selection as long as the enabled list, otherwise select
      every enabled value. */
  function CheckAllStep<V>(s: seq<V>, enabled: seq<Item<V>>): seq<V> {
    if |s| == |enabled| then [] else Values(enabled)
  }

  /** The guard of `check` as written: it returns early when the disabled field
      is exactly `false`. */
  predicate LiteralGuardBlocks<V(==,!new)>(o: Item<V>): (b: bool)
    ensures b ==> Enabled([o]) == [o]
    ensures o.disabled == IsTrue ==> !b
  {
    o.disabled == IsFalse
  }

  /** The guard that the enabled filter of line 33 implies: an option is
      blocked exactly when that filter drops it. */
  predicate IntendedGuardBlocks<V(==,!new)>(o: Item<V>): (b: bool)
    ensures b <==> Enabled([o]) == []
  {
    o.disabled == IsTrue
  }

  /** `check(option)` after the guard has let it through: dispatch on the mode. */
  function Dispatch<V(==,!new)>(mode: Mode, c: Checked<V>, v: V, min: int, cap: int): (r: Checked<V>)
    requires Fits(mode, c)
    ensures Fits(mode, r)
  {
    if mode == Radio then One(Value(v)) else Many(CheckboxStep(c.items, v, min, cap))
  }

  /** `check(option)` as written. */
  function CheckAsWritten<V(==,!new)>(mode: Mode, c: Checked<V>, o: Item<V>, min: int, cap: int): (r: Checked<V>)
    requires Fits(mode, c)
    ensures Fits(mode, r)
    ensures o.disabled == IsFalse ==> r == c
  {
    if LiteralGuardBlocks(o) then c else Dispatch(mode, c, o.value, min, cap)
  }

  /** `check(option)` with the guard corrected to block disabled options only. */
  function CheckIntended<V(==,!new)>(mode: Mode, c: Checked<V>, o: Item<V>, min: int, cap: int): (r: Checked<V>)
    requires Fits(mode, c)
    ensures Fits(mode, r)
    ensures o.disabled == IsTrue ==> r == c
  {
    if IntendedGuardBlocks(o) then c else Dispatch(mode, c, o.value, min, cap)
  }

  // ---------------------------------------------------------------------------
  // Properties of checkCheckbox
  // ---------------------------------------------------------------------------

  /** Deselect: a value already selected loses its first occurrence exactly when
      the selection is longer than min; the other values keep their order. */
  lemma DeselectRemovesFirstOccurrence<V(!new)>(s: seq<V>, v: V, min: int, cap: int)
    requires v in s
    ensures var r := CheckboxStep(s, v, min, cap);
      var i := IndexOf(s, v);
      0 <= i < |s| && s[i] == v && v !in s[..i] &&
      (|s| > min ==> |r| == |s| - 1 && r[..i] == s[..i] && r[i..] == s[i + 1..] &&
                     multiset(r) == multiset(s) - multiset{v}) &&
      (|s| <= min ==> r == s)
  {
    RemoveAtMultiset(s, IndexOf(s, v));
  }

  /** Select with an effective max of 1: v lands at index 0, the tail from
      index 1 on stays, and the length becomes max(1, old length); min is not consulted. */
  lemma SelectReplacesSlotZero<V(!new)>(s: seq<V>, v: V, min: int)
    requires v !in s
    ensures var r := CheckboxStep(s, v, min, 1);
      |r| == (if |s| == 0 then 1 else |s|) && r[0] == v &&
      forall j :: 1 <= j < |s| ==> r[j] == s[j]
  {
  }

  /** With an effective max of 1 and a selection of at most one value, selecting
      a new value leaves exactly that value. */
  lemma SelectWithCapOneLeavesOnlyIt<V(!new)>(s: seq<V>, v: V, min: int)
    requires v !in s && |s| <= 1
    ensures CheckboxStep(s, v, min, 1) == [v]
  {
  }

  /** Select with an effective max other than 1: v is appended exactly when the
      selection is shorter than the cap; otherwise nothing changes. */
  lemma SelectAppendsBelowCap<V(!new)>(s: seq<V>, v: V, min: int, cap: int)
    requires v !in s && cap != 1
    ensures |s| < cap ==> CheckboxStep(s, v, min, cap) == s + [v]
    ensures |s| >= cap ==> CheckboxStep(s, v, min, cap) == s
  {
  }

  /** The min floor: a selection at least min long stays at least min long.
      The case split follows checkCheckbox's branches; without it the solver's
      search is unstable across random seeds. */
  lemma {:induction false} CheckboxKeepsFloor<V(!new)>(s: seq<V>, v: V, min: int, cap: int)
    requires |s| >= min
    ensures |CheckboxStep(s, v, min, cap)| >= min
  {
    var i := IndexOf(s, v);
    if i > -1 {
      if |s| > min {
        assert |RemoveAt(s, i)| == |s| - 1;
      }
    } else if cap == 1 {
      assert |ReplaceFirst(s, v)| >= |s|;
    }
  }

  /** The max ceiling: a selection at most cap long stays at most cap long.
      The case split is kept for the same reason as in CheckboxKeepsFloor. */
  lemma {:induction false} CheckboxKeepsCeiling<V(!new)>(s: seq<V>, v: V, min: int, cap: int)
    requires |s| <= cap
    ensures |CheckboxStep(s, v, min, cap)| <= cap
  {
    var i := IndexOf(s, v);
    if i > -1 {
      if |s| > min {
        assert |RemoveAt(s, i)| == |s| - 1;
      }
    } else if cap == 1 {
      assert |ReplaceFirst(s, v)| == 1;
    }
  }

  /** checkCheckbox only ever adds the value it was given. */
  lemma CheckboxAddsOnlyItsValue<V(!new)>(s: seq<V>, v: V, min: int, cap: int, x: V)
    requires x in CheckboxStep(s, v, min, cap)
    ensures x in s || x == v
  {
    var i := IndexOf(s, v);
    if i > -1 && |s| > min {
      assert x in s[..i] + s[i + 1..];
    } else if i == -1 && cap == 1 && s != [] {
      assert x in [v] + s[1..];
    }
  }

  /** Removing one element keeps a duplicate-free sequence duplicate-free. */
  lemma RemoveAtKeepsNoDup<V(!new)>(s: seq<V>, i: nat)
    requires i < |s| && NoDup(s)
    ensures NoDup(RemoveAt(s, i))
  {
  }

  /** No duplicates: a select happens only when the value is absent, and a
      deselect removes an element, so a duplicate-free selection stays so.
      The per-branch proof keeps the solver within its limits on every seed. */
  lemma CheckboxKeepsNoDup<V(!new)>(s: seq<V>, v: V, min: int, cap: int)
    requires NoDup(s)
    ensures NoDup(CheckboxStep(s, v, min, cap))
  {
    var i := IndexOf(s, v);
    var r := CheckboxStep(s, v, min, cap);
    if i > -1 {
      if |s| > min {
        RemoveAtKeepsNoDup(s, i);
      }
    } else if cap == 1 {
      if s != [] {
        forall a, b | 0 <= a < b < |r|
          ensures r[a] != r[b]
        {
          if a == 0 {
            assert r[b] == s[b] && s[b] in s;
          }
        }
      }
    } else if |s| < cap {
      forall a, b | 0 <= a < b < |r|
        ensures r[a] != r[b]
      {
        if b == |s| {
          assert r[a] == s[a] && s[a] in s;
        }
      }
    }
  }

  /** Selecting an absent value into a free slot and checking it again gives the
      selection back, provided the floor lets the second click deselect. */
  lemma CheckboxSelectThenDeselect<V(!new)>(s: seq<V>, v: V, min: int, cap: int)
    requires v !in s && cap != 1 && |s| < cap && |s| + 1 > min
    ensures CheckboxStep(CheckboxStep(s, v, min, cap), v, min, cap) == s
  {
  }

  /** Clicks one after another: with the cap and min fixed, the floor, the
      ceiling and the absence of duplicates hold after every click. */
  function CheckboxRun<V(==,!new)>(s: seq<V>, clicks: seq<V>, min: int, cap: int): seq<V>
    decreases |clicks|
  {
    if clicks == [] then s
    else CheckboxRun(CheckboxStep(s, clicks[0], min, cap), clicks[1..], min, cap)
  }

  lemma {:induction false} CheckboxRunKeepsBounds<V(!new)>(s: seq<V>, clicks: seq<V>, min: int, cap: int)
    requires min <= |s| <= cap && NoDup(s)
    ensures var r := CheckboxRun(s, clicks, min, cap);
      min <= |r| <= cap && NoDup(r)
    decreases |clicks|
  {
    if clicks != [] {
      CheckboxKeepsFloor(s, clicks[0], min, cap);
      CheckboxKeepsCeiling(s, clicks[0], min, cap);
      CheckboxKeepsNoDup(s, clicks[0], min, cap);
      CheckboxRunKeepsBounds(CheckboxStep(s, clicks[0], min, cap), clicks[1..], min, cap);
    }
  }

  // ---------------------------------------------------------------------------
  // Properties of check
  // ---------------------------------------------------------------------------

  /** Radio mode: once the guard lets the option through, it is the only active value. */
  lemma RadioCheckActivatesOnlyIt<V(!new)>(c: Checked<V>, o: Item<V>, min: int, cap: int, w: V)
    requires Fits(Radio, c) && !LiteralGuardBlocks(o)
    ensures var r := CheckAsWritten(Radio, c, o, min, cap);
      r == One(Value(o.value)) && (Active(Radio, r, w) <==> w == o.value)
  {
  }

  /** Checkbox mode: once the guard lets the option through, check is checkCheckbox of its value. */
  lemma CheckboxCheckIsStep<V(!new)>(s: seq<V>, o: Item<V>, min: int, cap: int)
    requires !LiteralGuardBlocks(o)
    ensures CheckAsWritten(Checkbox, Many(s), o, min, cap) == Many(CheckboxStep(s, o.value, min, cap))
  {
  }

  /** Radio mode with the corrected guard: a click it lets through makes that
      value the only active one. */
  lemma RadioIntendedActivatesOnlyIt<V(!new)>(c: Checked<V>, o: Item<V>, min: int, cap: int, w: V)
    requires Fits(Radio, c) && !IntendedGuardBlocks(o)
    ensures var r := CheckIntended(Radio, c, o, min, cap);
      r == One(Value(o.value)) && (Active(Radio, r, w) <==> w == o.value)
  {
  }

  /** Checkbox mode with the corrected guard: a click it lets through is
      checkCheckbox of the option's value. */
  lemma CheckboxIntendedIsStep<V(!new)>(s: seq<V>, o: Item<V>, min: int, cap: int)
    requires !IntendedGuardBlocks(o)
    ensures CheckIntended(Checkbox, Many(s), o, min, cap) == Many(CheckboxStep(s, o.value, min, cap))
  {
  }

  /** The literal guard in action, on options [1 (false), 2 (false), 3 (true)]
      with min 0 and no max (effective max 2): clicking the enabled option 1
      does nothing, and clicking the disabled option 3 selects it. */
  lemma LiteralGuardInverted()
    ensures var opts := [Item(1, IsFalse), Item(2, IsFalse), Item(3, IsTrue)];
      var cap := EffectiveMax(Unset, |Enabled(opts)|);
      cap == 2 &&
      CheckAsWritten(Checkbox, Many([]), opts[0], 0, cap) == Many([]) &&
      CheckAsWritten(Checkbox, Many([]), opts[2], 0, cap) == Many([3])
  {
    var opts := [Item(1, IsFalse), Item(2, IsFalse), Item(3, IsTrue)];
    assert Enabled(opts[2..]) == [];
    assert opts[1..][1..] == opts[2..];
    assert Enabled(opts) == opts[..2];
  }

  /** With the corrected guard, a click never activates a value other than the
      clicked one, and never activates anything for a disabled option. */
  lemma IntendedCheckExcludesDisabled<V(!new)>(mode: Mode, c: Checked<V>, o: Item<V>, min: int, cap: int, w: V)
    requires Fits(mode, c)
    ensures var r := CheckIntended(mode, c, o, min, cap);
      Active(mode, r, w) && !Active(mode, c, w) ==> w == o.value && o.disabled != IsTrue
  {
    var r := CheckIntended(mode, c, o, min, cap);
    if mode == Checkbox && !IntendedGuardBlocks(o) && w in r.items {
      CheckboxAddsOnlyItsValue(c.items, o.value, min, cap, w);
    }
  }

  // ---------------------------------------------------------------------------
  // Properties of checkAll
  // ---------------------------------------------------------------------------

  /** checkAll selects exactly the enabled options' values in list order, or
      clears; every value it selects comes from an option not disabled. */
  lemma CheckAllSelectsEnabledValues<V(!new)>(s: seq<V>, opts: seq<Item<V>>)
    ensures var e := Enabled(opts);
      var r := CheckAllStep(s, e);
      (|s| == |e| ==> r == []) &&
      (|s| != |e| ==> |r| == |e| && forall j :: 0 <= j < |r| ==> r[j] == e[j].value && e[j].disabled != IsTrue)
  {
  }

  /** No option whose disabled field is true contributes a value to checkAll. */
  lemma CheckAllNeverContributesDisabled<V(!new)>(s: seq<V>, opts: seq<Item<V>>, x: V)
    requires x in CheckAllStep(s, Enabled(opts))
    ensures exists o :: o in opts && o.disabled != IsTrue && o.value == x
  {
    var e := Enabled(opts);
    var j :| 0 <= j < |Values(e)| && Values(e)[j] == x;
    assert e[j] in e;
  }

  /** Two checkAll clicks in a row give the selection back exactly when it was
      empty or already every enabled value in order. */
  lemma CheckAllTwice<V(!new)>(s: seq<V>, opts: seq<Item<V>>)
    ensures var e := Enabled(opts);
      CheckAllStep(CheckAllStep(s, e), e) == s <==> (s == [] || s == Values(e))
  {
  }

  /** From an empty selection with something enabled, checkAll selects every
      enabled value and a second checkAll clears again. */
  lemma CheckAllFromEmpty<V(!new)>(opts: seq<Item<V>>)
    requires Enabled(opts) != []
    ensures var e := Enabled(opts);
      CheckAllStep([], e) == Values(e) && CheckAllStep(CheckAllStep([], e), e) == []
  {
  }

  /** With something enabled, checkAll flips the "all selected" flag. */
  lemma CheckAllTogglesAllActive<V(!new)>(s: seq<V>, opts: seq<Item<V>>)
    requires Enabled(opts) != []
    ensures var e := Enabled(opts);
      AllActive(CheckAllStep(s, e), e) <==> !AllActive(s, e)
  {
  }
}
