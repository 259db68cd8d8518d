/** The `useChecker` hook (src/hooks/useChecker.js) as an object: the reactive
    refs `checkedRef` and `optionsRef` become the mutable fields `checked` and
    `options`, the computed refs become functions of the current state, and
    `check`, `checkRadio`, `checkCheckbox` and `checkAll` become methods that
    assign a new value to the field `checked`. */
module UseChecker {
  import opened CheckerModel

  class Checker<V(==,!new)> {
    /** The selector type, the floor and the `max` argument, fixed at creation. */
    const mode: Mode
    const min: int
    const max: MaxSetting

    /** `optionsRef.value`: replaced wholesale by the host. */
    var options: seq<Item<V>>
    /** `checkedRef.value`: a scalar in radio mode, an array in checkbox mode. */
    var checked: Checked<V>

    /** The selection has the shape the mode calls for. */
    ghost predicate Valid()
      reads this`checked
    {
      Fits(mode, checked)
    }

    /** `useChecker({type, min, max})`: no options, and an empty array (checkbox)
        or the empty string (radio) as selection. */
    constructor (mode: Mode, min: int, max: MaxSetting)
      ensures Valid()
      ensures this.mode == mode && this.min == min && this.max == max
      ensures options == []
      ensures checked == if mode == Checkbox then Many([]) else One(Blank)
    {
      this.mode := mode;
      this.min := min;
      this.max := max;
      options := [];
      if mode == Checkbox {
        checked := Many([]);
      } else {
        checked := One(Blank);
      }
    }

    /** `useChecker()` with every argument left out: checkbox mode, `min` 0 and
        no `max`. */
    constructor Default()
      ensures Valid()
      ensures mode == Checkbox && min == 0 && max == Unset
      ensures options == [] && checked == Many([])
    {
      mode := Checkbox;
      min := 0;
      max := Unset;
      options := [];
      checked := Many([]);
    }

    /** The host assigns `optionsRef.value`; the selection is left as it is. */
    method SetOptions(opts: seq<Item<V>>)
      requires Valid()
      modifies this`options
      ensures Valid()
      ensures options == opts && checked == old(checked)
    {
      options := opts;
    }

    /** `enabledOptionsRef`. */
    function EnabledOptions(): (r: seq<Item<V>>)
      reads this`options
      ensures forall o :: o in r <==> o in options && o.disabled != IsTrue
    {
      Enabled(options)
    }

    /** `maxDefaultRef`. */
    function MaxDefault(): (r: int)
      reads this`options
      ensures r == |EnabledOptions()| || (max.Limit? && r == max.n)
      ensures max.Limit? && max.n != 0 ==> r == max.n
      ensures max.Unset? || max.n == 0 ==> r == |EnabledOptions()|
    {
      EffectiveMax(max, |EnabledOptions()|)
    }

    /** `isActive(value)`. */
    function IsActive(v: V): (b: bool)
      reads this`checked
      requires Valid()
      ensures mode == Checkbox ==> (b <==> v in checked.items)
      ensures mode == Radio ==> (b <==> checked == One(Value(v)))
    {
      Active(mode, checked, v)
    }

    /** `allActiveRef` (checkbox mode). */
    function AllActiveNow(): (b: bool)
      reads this
      requires Valid() && mode == Checkbox
      ensures b <==> |checked.items| == |EnabledOptions()|
    {
      AllActive(checked.items, EnabledOptions())
    }

    /** `checkAll()`: the select-all toggle. */
    method CheckAll()
      requires Valid() && mode == Checkbox
      modifies this`checked
      ensures Valid()
      ensures checked == Many(CheckAllStep(old(checked.items), EnabledOptions()))
      ensures old(AllActiveNow()) ==> checked == Many([])
      ensures !old(AllActiveNow()) ==> checked.items == Values(EnabledOptions())
    {
      var enabled := EnabledOptions();
      if |checked.items| == |enabled| {
        checked := Many([]);
      } else {
        checked := Many(Values(enabled));
      }
    }

    /** `check(option)`: the guard as written lets every option through except
        one whose disabled field is exactly `false`; then dispatch on the mode. */
    method Check(o: Item<V>)
      requires Valid()
      modifies this`checked
      ensures Valid()
      ensures checked == CheckAsWritten(mode, old(checked), o, min, MaxDefault())
      ensures LiteralGuardBlocks(o) ==> checked == old(checked)
    {
      if LiteralGuardBlocks(o) {
        return;
      }
      if mode == Radio {
        CheckRadio(o.value);
      } else {
        CheckCheckbox(o.value);
      }
    }

    /** `checkRadio(value)`: the value replaces whatever was selected. */
    method CheckRadio(v: V)
      requires Valid() && mode == Radio
      modifies this`checked
      ensures Valid()
      ensures checked == One(Value(v))
      ensures forall w :: IsActive(w) <==> w == v
    {
      checked := One(Value(v));
    }

    /** `checkCheckbox(value)`: deselect if present and above the floor; with an
        effective max of 1 overwrite slot 0; otherwise append below the cap. */
    method CheckCheckbox(v: V)
      requires Valid() && mode == Checkbox
      modifies this`checked
      ensures Valid()
      ensures checked == Many(CheckboxStep(old(checked.items), v, min, MaxDefault()))
      ensures |old(checked.items)| >= min ==> |checked.items| >= min
      ensures |old(checked.items)| <= MaxDefault() ==> |checked.items| <= MaxDefault()
      ensures NoDup(old(checked.items)) ==> NoDup(checked.items)
    {
      var items := checked.items;
      var valueLen := |items|;
      var cap := MaxDefault();
      ghost var next := CheckboxStep(items, v, min, cap);
      var index := IndexOf(items, v);
      if index > -1 {
        if valueLen > min {
          checked := Many(RemoveAt(items, index));
        }
        assert checked.items == next;
      } else if cap == 1 {
        checked := Many(ReplaceFirst(items, v));
        assert checked.items == next;
      } else if valueLen < cap {
        checked := Many(items + [v]);
        assert checked.items == next;
      } else {
        assert checked.items == next;
      }
      KeepsInvariants(items, v, cap);
    }

    /** The invariants checkCheckbox keeps, gathered for its postcondition. */
    lemma KeepsInvariants(s: seq<V>, v: V, cap: int)
      ensures var r := CheckboxStep(s, v, min, cap);
        (|s| >= min ==> |r| >= min) && (|s| <= cap ==> |r| <= cap) && (NoDup(s) ==> NoDup(r))
    {
      if |s| >= min {
        CheckboxKeepsFloor(s, v, min, cap);
      }
      if |s| <= cap {
        CheckboxKeepsCeiling(s, v, min, cap);
      }
      if NoDup(s) {
        CheckboxKeepsNoDup(s, v, min, cap);
      }
    }
  }
}
