/** The custom (non-native) Selectbox: a trigger showing the current
    selection, and an overlay list of options driven by the pointer and by
    the Escape, Enter, Up and Down keys. The host owns the selection: the
    widget reports every change through `onSelect` and is re-rendered with the
    new `selection` prop. What the widget itself keeps is `{open, selIndex}`. */
module Selectbox {
  import opened Common
  import opened JsString
  import opened JsArray

  /** The key codes `handleKeyDown` reacts to. */
  const ESCAPE := 27
  const ENTER := 13
  const UP := 38
  const DOWN := 40

  /** The marker `handleClickOutSide` looks for in the clicked element's class. */
  const MARKER := "Selectbox"

  /** The separator between labels in the multi-mode display value. */
  const SEPARATOR := ", "

  /** An option's value, `string | number`; numbers are taken to be integers. */
  datatype Value = Str(s: string) | Num(n: int)

  /** An option as the host supplies it: `text` is its `label`, renamed because
      `label` is a Dafny keyword (icons are rendering only). */
  datatype SelectOption = SelectOption(text: string, value: Value)

  /** The `selection` prop: one value, or an array of values in multi mode. */
  datatype Selection = Scalar(v: Value) | Many(vs: seq<Value>)

  /** The props the selection logic reads; `selection` may be undefined. */
  datatype Props = Props(options: seq<SelectOption>, multiple: bool, selection: Option<Selection>)

  /** JavaScript truthiness of the `selection` prop: undefined, 0 and the empty
      string are falsy, every array (also the empty one) is truthy. */
  predicate Truthy(sel: Option<Selection>)
  {
    match sel
    case None => false
    case Some(Many(_)) => true
    case Some(Scalar(Str(s))) => s != ""
    case Some(Scalar(Num(n))) => n != 0
  }

  /** In multi mode a selection that is set is an array. */
  predicate WellFormed(p: Props)
  {
    p.multiple && Truthy(p.selection) ==> p.selection.value.Many?
  }

  /** `option.value === selection`: only a scalar selection can be equal to a value. */
  predicate IsSelection(v: Value, sel: Option<Selection>)
  {
    sel == Some(Scalar(v))
  }

  // ----------------------------------------------------------------------------------------------
  // Display value and active rows (render-time expressions)

  /** The callback `option => selection.includes(option.value)`. */
  function InSelection(vs: seq<Value>): SelectOption -> bool
  {
    (o: SelectOption) => o.value in vs
  }

  /** `options.filter(option => selection.includes(option.value))`. */
  function Selected(options: seq<SelectOption>, vs: seq<Value>): (r: seq<SelectOption>)
    ensures |r| <= |options|
    ensures forall o :: o in r <==> o in options && o.value in vs
  {
    FilterMembers(options, InSelection(vs));
    Filter(options, InSelection(vs))
  }

  /** The filter keeps the options' own order: filtering a concatenation is
      concatenating the filtered parts. */
  lemma SelectedKeepsOptionOrder(a: seq<SelectOption>, b: seq<SelectOption>, vs: seq<Value>)
    ensures Selected(a + b, vs) == Selected(a, vs) + Selected(b, vs)
  {
    FilterKeepsOrder(a, b, InSelection(vs));
  }

  /** Which options are selected depends on the selected values as a set:
      neither their order nor repetitions matter. */
  lemma SelectedIgnoresSelectionOrder(options: seq<SelectOption>, vs: seq<Value>, ws: seq<Value>)
    requires forall v :: v in vs <==> v in ws
    ensures Selected(options, vs) == Selected(options, ws)
  {
    forall o | o in options
      ensures InSelection(vs)(o) == InSelection(ws)(o)
    {
      assert o.value in vs <==> o.value in ws;
    }
    FilterAgreeing(options, InSelection(vs), InSelection(ws));
  }

  /** `selected.map(sel => sel.label)`. */
  function Labels(options: seq<SelectOption>): (r: seq<string>)
    ensures |r| == |options|
    ensures forall i :: 0 <= i < |options| ==> r[i] == options[i].text
  {
    if options == [] then [] else [options[0].text] + Labels(options[1..])
  }

  /** `parts.join(sep)`. */
  function Join(parts: seq<string>, sep: string): string
  {
    if parts == [] then ""
    else if |parts| == 1 then parts[0]
    else parts[0] + sep + Join(parts[1..], sep)
  }

  /** Joining one more part appends the separator and that part. */
  lemma {:induction false} JoinSnoc(parts: seq<string>, x: string, sep: string)
    requires parts != []
    ensures Join(parts + [x], sep) == Join(parts, sep) + sep + x
  {
    if |parts| > 1 {
      assert (parts + [x])[1..] == parts[1..] + [x];
      JoinSnoc(parts[1..], x, sep);
    } else {
      assert (parts + [x])[1..] == [x];
    }
  }

  /** `options.findIndex(option => option.value === selection)`: the first
      option whose value is the selection, or -1 when there is none. */
  function FindOptionIndex(options: seq<SelectOption>, sel: Option<Selection>): (i: int)
    ensures -1 <= i < |options|
    ensures i == -1 <==> forall k :: 0 <= k < |options| ==> !IsSelection(options[k].value, sel)
    ensures 0 <= i ==> IsSelection(options[i].value, sel)
    ensures 0 <= i ==> forall k :: 0 <= k < i ==> !IsSelection(options[k].value, sel)
  {
    FindIndex(options, (o: SelectOption) => IsSelection(o.value, sel))
  }

  /** The text shown in the trigger, `null` when nothing matches. Multi mode
      with a selection joins the labels of the selected options; otherwise
      it is the label of the option whose value is the selection. */
  function DisplayValue(p: Props): Option<string>
    requires WellFormed(p)
  {
    if p.multiple && Truthy(p.selection) then
      var selected := Selected(p.options, p.selection.value.vs);
      if |selected| == 0 then None else Some(Join(Labels(selected), SEPARATOR))
    else
      var i := FindOptionIndex(p.options, p.selection);
      if i == -1 then None else Some(p.options[i].text)
  }

  /** `isActive` of a row: the row is marked as selected. */
  predicate IsActive(p: Props, o: SelectOption)
    requires WellFormed(p)
  {
    if p.multiple && Truthy(p.selection) then o.value in p.selection.value.vs
    else IsSelection(o.value, p.selection)
  }

  /** Row `k` is the first active row. */
  predicate FirstActive(p: Props, k: int)
    requires WellFormed(p)
  {
    && 0 <= k < |p.options|
    && IsActive(p, p.options[k])
    && forall j :: 0 <= j < k ==> !IsActive(p, p.options[j])
  }

  /** The trigger shows `null` exactly when no row is active, in both modes. */
  lemma DisplayNullIffNoActiveRow(p: Props)
    requires WellFormed(p)
    ensures DisplayValue(p) == None <==> forall k :: 0 <= k < |p.options| ==> !IsActive(p, p.options[k])
  {
    if p.multiple && Truthy(p.selection) {
      var vs := p.selection.value.vs;
      if |Selected(p.options, vs)| == 0 {
        forall k | 0 <= k < |p.options| ensures !IsActive(p, p.options[k]) {
          assert p.options[k] !in Selected(p.options, vs);
        }
      } else {
        var o := Selected(p.options, vs)[0];
        assert o in p.options;
      }
    }
  }

  /** Multi mode with a selection: the trigger lists, joined by ", ", the labels
      of exactly the active rows, in the order of the option list. */
  lemma DisplayValueMultiple(p: Props)
    requires WellFormed(p) && p.multiple && Truthy(p.selection)
    ensures var selected := Selected(p.options, p.selection.value.vs);
      && (forall o :: o in selected <==> o in p.options && IsActive(p, o))
      && DisplayValue(p) == if selected == [] then None else Some(Join(Labels(selected), SEPARATOR))
  {
  }

  /** Multi mode: reordering the selected values does not change the display. */
  lemma DisplayIgnoresSelectionOrder(p: Props, ws: seq<Value>)
    requires p.multiple && p.selection.Some? && p.selection.value.Many?
    requires forall v :: v in p.selection.value.vs <==> v in ws
    ensures DisplayValue(p) == DisplayValue(p.(selection := Some(Many(ws))))
  {
    SelectedIgnoresSelectionOrder(p.options, p.selection.value.vs, ws);
  }

  /** Single mode, or multi mode without a selection: the trigger shows the
      label of the first active row, if any. */
  lemma DisplayValueSingle(p: Props)
    requires WellFormed(p) && !(p.multiple && Truthy(p.selection))
    ensures DisplayValue(p).Some? <==> exists k :: FirstActive(p, k)
    ensures forall k :: FirstActive(p, k) ==> DisplayValue(p) == Some(p.options[k].text)
  {
    var i := FindOptionIndex(p.options, p.selection);
    if i != -1 {
      assert FirstActive(p, i);
    }
  }

  /** Options `[{1, "A"}, {2, "B"}]` with selection 1 show "A". */
  lemma ScenarioSingleDisplay()
    ensures DisplayValue(Props([SelectOption("A", Num(1)), SelectOption("B", Num(2))], false,
                               Some(Scalar(Num(1))))) == Some("A")
  {
  }

  /** Multi mode with selection `[2, 1]` shows "A, B" (option order). */
  lemma ScenarioMultipleDisplay()
    ensures DisplayValue(Props([SelectOption("A", Num(1)), SelectOption("B", Num(2))], true,
                               Some(Many([Num(2), Num(1)])))) == Some("A, B")
  {
    var options := [SelectOption("A", Num(1)), SelectOption("B", Num(2))];
    assert options[1..] == [SelectOption("B", Num(2))];
    assert Selected(options[1..], [Num(2), Num(1)]) == [options[1]];
    assert Selected(options, [Num(2), Num(1)]) == options;
    assert Labels(options) == ["A", "B"];
    assert Join(["A", "B"], SEPARATOR) == "A" + SEPARATOR + Join(["B"], SEPARATOR);
    assert Join(["B"], SEPARATOR) == "B";
    assert "A" + SEPARATOR + "B" == "A, B";
    var p := Props(options, true, Some(Many([Num(2), Num(1)])));
    assert DisplayValue(p) == Some(Join(Labels(options), SEPARATOR));
  }

  // ----------------------------------------------------------------------------------------------
  // Selection reducer

  /** `selected.findIndex(sel => value === sel)`: the first position of `v`, or -1. */
  function IndexOf(s: seq<Value>, v: Value): (i: int)
    ensures -1 <= i < |s|
    ensures i == -1 <==> v !in s
    ensures 0 <= i ==> s[i] == v && v !in s[..i]
  {
    var i := FindIndex(s, (x: Value) => v == x);
    assert i == -1 ==> v !in s;
    assert 0 <= i ==> v !in s[..i];
    i
  }

  /** Toggling `v` in a multi-mode selection: the first occurrence of `v` is
      dropped, or `v` is appended when it is absent. */
  function Toggle(s: seq<Value>, v: Value): seq<Value>
  {
    if s == [] then [v]
    else if s[0] == v then s[1..]
    else [s[0]] + Toggle(s[1..], v)
  }

  /** Removing position `j + 1` of `s` is keeping its head and removing
      position `j` of its tail. */
  lemma SpliceTail<T>(s: seq<T>, j: int)
    requires 0 <= j && j + 1 < |s|
    ensures [s[0]] + (s[1..][..j] + s[1..][j + 1..]) == s[..j + 1] + s[j + 2..]
  {
    assert s[..j + 1] == [s[0]] + s[1..][..j];
    assert s[j + 2..] == s[1..][j + 1..];
  }

  /** Pushing onto `s` is keeping its head and pushing onto its tail. */
  lemma PushTail<T>(s: seq<T>, v: T)
    requires s != []
    ensures [s[0]] + (s[1..] + [v]) == s + [v]
  {
    assert s == [s[0]] + s[1..];
  }

  /** `Toggle` is what `handleSelect` does to its copy of the selection: splice
      out the element at `findIndex`, or push `v` when the index is -1. */
  lemma {:induction false} ToggleIsSpliceOrPush(s: seq<Value>, v: Value)
    ensures var i := IndexOf(s, v);
      Toggle(s, v) == if i > -1 then s[..i] + s[i + 1..] else s + [v]
  {
    if s != [] && s[0] != v {
      ToggleIsSpliceOrPush(s[1..], v);
      var j := IndexOf(s[1..], v);
      if j > -1 {
        SpliceTail(s, j);
      } else {
        PushTail(s, v);
      }
    }
  }

  /** Toggling adds one copy of an absent value or removes one copy of a
      present value; every other value keeps its count. */
  lemma {:induction false} ToggleMultiset(s: seq<Value>, v: Value)
    ensures multiset(Toggle(s, v)) == if v in s then multiset(s) - multiset{v} else multiset(s) + multiset{v}
  {
    if s != [] {
      assert s == [s[0]] + s[1..];
      if s[0] != v {
        ToggleMultiset(s[1..], v);
      }
    }
  }

  /** A toggled value that was absent ends up last, after the untouched selection. */
  lemma {:induction false} ToggleAbsent(s: seq<Value>, v: Value)
    requires v !in s
    ensures Toggle(s, v) == s + [v]
  {
    if s != [] {
      ToggleAbsent(s[1..], v);
      assert s + [v] == [s[0]] + (s[1..] + [v]);
    }
  }

  /** Toggling a value that was absent twice gives back the very same sequence. */
  lemma {:induction false} ToggleTwiceRestoresAbsent(s: seq<Value>, v: Value)
    requires v !in s
    ensures Toggle(Toggle(s, v), v) == s
  {
    ToggleAbsent(s, v);
    if s == [] {
    } else {
      assert (s + [v])[0] == s[0] && (s + [v])[1..] == s[1..] + [v];
      ToggleTwiceRestoresAbsent(s[1..], v);
      ToggleAbsent(s[1..], v);
    }
  }

  /** Two toggles of a value that occurs at most once restore which values are
      selected. */
  lemma ToggleTwiceRestoresMembership(s: seq<Value>, v: Value)
    requires multiset(s)[v] <= 1
    ensures forall x :: x in Toggle(Toggle(s, v), v) <==> x in s
  {
    var t := Toggle(s, v);
    ToggleMultiset(s, v);
    ToggleMultiset(t, v);
    if v in s {
      assert multiset(t)[v] == 0;
    } else {
      assert multiset(t)[v] == 1;
    }
    assert multiset(Toggle(t, v)) == multiset(s);
    forall x ensures x in Toggle(t, v) <==> x in s {
      assert x in multiset(Toggle(t, v)) <==> x in multiset(s);
    }
  }

  /** A selection without repeated values stays so, and toggling flips the
      membership of the toggled value. */
  lemma ToggleFlipsMembership(s: seq<Value>, v: Value)
    requires forall i, j :: 0 <= i < j < |s| ==> s[i] != s[j]
    ensures v in Toggle(s, v) <==> v !in s
    ensures forall x :: x != v ==> (x in Toggle(s, v) <==> x in s)
    ensures forall x :: multiset(Toggle(s, v))[x] <= 1
  {
    ToggleMultiset(s, v);
    forall x ensures multiset(s)[x] <= 1 {
      DistinctCountsAtMostOne(s, x);
    }
  }

  /** In a sequence without repeated values every value occurs at most once. */
  lemma {:induction false} DistinctCountsAtMostOne(s: seq<Value>, x: Value)
    requires forall i, j :: 0 <= i < j < |s| ==> s[i] != s[j]
    ensures multiset(s)[x] <= 1
  {
    if s != [] {
      assert s == [s[0]] + s[1..];
      DistinctCountsAtMostOne(s[1..], x);
      if s[0] == x {
        assert x !in s[1..];
      }
    }
  }

  /** The selection `handleSelect` reports in multi mode for the chosen value
      `v`: the toggled copy of the current selection, or `[v]` when there is none. */
  function MultiSelect(sel: Option<Selection>, v: Value): (r: seq<Value>)
    requires Truthy(sel) ==> sel.value.Many?
    ensures !Truthy(sel) ==> r == [v]
    ensures Truthy(sel) && v !in sel.value.vs ==> r == sel.value.vs + [v]
    ensures Truthy(sel) ==>
      multiset(r) == (if v in sel.value.vs then multiset(sel.value.vs) - multiset{v} else multiset(sel.value.vs) + multiset{v})
  {
    if Truthy(sel) then
      ToggleMultiset(sel.value.vs, v);
      if v in sel.value.vs then Toggle(sel.value.vs, v)
      else ToggleAbsent(sel.value.vs, v); Toggle(sel.value.vs, v)
    else [v]
  }

  /** Multi mode, selection `[1]`: choosing 2 reports `[1, 2]`, choosing 1 reports `[]`. */
  lemma ScenarioMultipleToggle()
    ensures MultiSelect(Some(Many([Num(1)])), Num(2)) == [Num(1), Num(2)]
    ensures MultiSelect(Some(Many([Num(1)])), Num(1)) == []
    ensures MultiSelect(Some(Many([Num(1), Num(2)])), Num(1)) == [Num(2)]
  {
  }

  /** Starting from `[]`: choosing 2 reports `[2]`; choosing 1 then reports
      `[1]` if the host kept `[]`, or `[2, 1]` if it passed `[2]` back. */
  lemma ScenarioMultipleFromEmpty()
    ensures MultiSelect(Some(Many([])), Num(2)) == [Num(2)]
    ensures MultiSelect(Some(Many([])), Num(1)) == [Num(1)]
    ensures MultiSelect(Some(Many([Num(2)])), Num(1)) == [Num(2), Num(1)]
  {
  }

  // ----------------------------------------------------------------------------------------------
  // Keyboard stepping

  function Min(a: int, b: int): int { if a <= b then a else b }
  function Max(a: int, b: int): int { if a <= b then b else a }

  /** One Up/Down step of `handleChangeSelect` over `n` rows: towards the end
      when `down`, towards the start otherwise, stopping at the ends (no wrap). */
  function ClampedStep(cur: int, n: int, down: bool): (r: int)
    ensures down ==> cur <= r <= cur + 1 && (r == cur <==> cur >= n - 1)
    ensures !down ==> cur - 1 <= r <= cur && (r == cur <==> cur <= 0)
    ensures 0 <= cur < n ==> 0 <= r < n
  {
    if down then Max(cur, Min(cur + 1, n - 1)) else Min(cur, Max(cur - 1, 0))
  }

  /** `k` steps in the same direction. */
  function ClampedSteps(cur: int, n: int, down: bool, k: nat): int
    decreases k
  {
    if k == 0 then cur else ClampedSteps(ClampedStep(cur, n, down), n, down, k - 1)
  }

  /** Repeated steps run into the end of the list and stay there. */
  lemma {:induction false} ClampedStepsSaturate(cur: int, n: int, k: nat)
    requires 0 <= cur < n
    ensures ClampedSteps(cur, n, true, k) == Min(cur + k, n - 1)
    ensures ClampedSteps(cur, n, false, k) == Max(cur - k, 0)
    decreases k
  {
    if k > 0 {
      ClampedStepsSaturate(ClampedStep(cur, n, true), n, k - 1);
      ClampedStepsSaturate(ClampedStep(cur, n, false), n, k - 1);
    }
  }

  /** The index `handleChangeSelect` moves to: in multi mode the highlight
      cursor's step (from no highlight it goes to row 0); in single mode the
      step from the selected option's index (-1 when none is selected). */
  function ChangeSelectIndex(p: Props, selIndex: int, down: bool): int
    requires WellFormed(p)
  {
    if p.multiple then
      if selIndex > -1 then ClampedStep(selIndex, |p.options|, down) else 0
    else ClampedStep(FindOptionIndex(p.options, p.selection), |p.options|, down)
  }

  /** Over a non-empty list: in multi mode the step lands on a row; in single
      mode it lands on a row unless it is Up with no option selected. */
  lemma ChangeSelectInRange(p: Props, selIndex: int, down: bool)
    requires WellFormed(p) && |p.options| > 0 && -1 <= selIndex < |p.options|
    ensures var i := ChangeSelectIndex(p, selIndex, down);
      && (p.multiple ==> 0 <= i < |p.options|)
      && (!p.multiple ==> (0 <= i < |p.options| <==> down || FindOptionIndex(p.options, p.selection) >= 0))
  {
  }

  // ----------------------------------------------------------------------------------------------
  // Pointer

  /** `handleClickOutSide`'s test: the clicked element's class does not
      contain "Selectbox". */
  predicate IsOutsideClick(targetClassName: string)
  {
    !Includes(targetClassName, MARKER)
  }

  /** Any element whose class contains the marker counts as inside, however
      the marker is embedded ("MySelectboxWrapper" included). */
  lemma MarkerCountsAsInside(pre: string, post: string)
    ensures !IsOutsideClick(pre + MARKER + post)
  {
    IncludesSpliced(pre, MARKER, post);
  }

  /** A class without the marker anywhere in it counts as outside. */
  lemma NoMarkerIsOutside(targetClassName: string)
    requires forall i :: !OccursAt(targetClassName, MARKER, i)
    ensures IsOutsideClick(targetClassName)
  {
    IncludesIff(targetClassName, MARKER);
  }

  // ----------------------------------------------------------------------------------------------
  // The component instance

  /** One mounted Selectbox: the `{open, selIndex}` state cell and the
      `onSelect` calls made so far. Each handler receives the props of the
      render it was created in. */
  class Widget {
    var open: bool
    var selIndex: int
    /** Every `onSelect` call so far, oldest first. */
    var emitted: seq<Selection>

    /** The highlight cursor is -1 or one of `n` rows. */
    predicate CursorIn(n: int)
      reads this
    {
      -1 <= selIndex < n
    }

    /** The initial state: closed, nothing highlighted, nothing reported. */
    constructor ()
      ensures !open && selIndex == -1 && emitted == []
    {
      open := false;
      selIndex := -1;
      emitted := [];
    }

    /** `toogleOpen`: flips `open` and clears the highlight. */
    method ToggleOpen()
      modifies this
      ensures open == !old(open) && selIndex == -1 && emitted == old(emitted)
    {
      open, selIndex := !open, -1;
    }

    /** `handleClickOutSide`: a mousedown on an element without the marker
        class closes an open overlay; otherwise nothing happens. */
    method HandleClickOutside(targetClassName: string)
      modifies this
      ensures if IsOutsideClick(targetClassName) && old(open)
        then !open && selIndex == -1
        else open == old(open) && selIndex == old(selIndex)
      ensures emitted == old(emitted)
    {
      if IsOutsideClick(targetClassName) && open {
        ToggleOpen();
      }
    }

    /** `handleSelect`: multi mode reports the toggled selection and leaves
        the overlay as it is; single mode reports the option's value and
        toggles the overlay. */
    method HandleSelect(p: Props, option: SelectOption)
      requires WellFormed(p)
      modifies this
      ensures p.multiple ==>
        open == old(open) && selIndex == old(selIndex)
        && emitted == old(emitted) + [Many(MultiSelect(p.selection, option.value))]
      ensures !p.multiple ==>
        open == !old(open) && selIndex == -1
        && emitted == old(emitted) + [Scalar(option.value)]
    {
      if p.multiple {
        if Truthy(p.selection) {
          var selected := p.selection.value.vs;
          ghost var toggled := Toggle(selected, option.value);
          assert toggled == MultiSelect(p.selection, option.value);
          ToggleIsSpliceOrPush(selected, option.value);
          var index := IndexOf(selected, option.value);
          if index > -1 {
            selected := selected[..index] + selected[index + 1..];
          } else {
            selected := selected + [option.value];
          }
          assert selected == toggled;
          emitted := emitted + [Many(selected)];
        } else {
          emitted := emitted + [Many([option.value])];
        }
      } else {
        emitted := emitted + [Scalar(option.value)];
        ToggleOpen();
      }
    }

    /** `handleChangeSelect` for an Up (`keyCode != DOWN`) or Down key. Multi
        mode moves the highlight (from no highlight to row 0, and no further);
        single mode reports the option at the stepped index, which throws when
        that index is not a row. The list scroll after the step is the
        `ListScroll` decision. */
    method HandleChangeSelect(p: Props, keyCode: int) returns (outcome: Outcome)
      requires WellFormed(p)
      modifies this
      ensures var i := ChangeSelectIndex(p, old(selIndex), keyCode == DOWN);
        && open == old(open)
        && (p.multiple ==> selIndex == i && emitted == old(emitted) && outcome == Ok)
        && (!p.multiple ==>
              selIndex == old(selIndex)
              && if 0 <= i < |p.options|
                 then outcome == Ok && emitted == old(emitted) + [Scalar(p.options[i].value)]
                 else outcome == TypeError && emitted == old(emitted))
    {
      var curIndex := 0;
      if p.multiple {
        if selIndex > -1 {
          curIndex := selIndex;
        } else {
          selIndex := 0;
          return Ok;
        }
      } else {
        curIndex := FindOptionIndex(p.options, p.selection);
      }

      if keyCode == DOWN {
        if curIndex < |p.options| - 1 {
          curIndex := curIndex + 1;
        }
      } else {
        if curIndex > 0 {
          curIndex := curIndex - 1;
        }
      }

      if p.multiple {
        selIndex := curIndex;
        outcome := Ok;
      } else if 0 <= curIndex < |p.options| {
        emitted := emitted + [Scalar(p.options[curIndex].value)];
        outcome := Ok;
      } else {
        outcome := TypeError;
      }
    }

    /** `handleKeyDown`. Escape closes and clears the highlight whatever the
        state; Enter commits the highlighted row only in multi mode with the
        overlay open and a row highlighted, and otherwise toggles the
        overlay; Up/Down open a closed overlay without moving the highlight
        and step an open one; other keys do nothing. Over a fixed non-empty
        option list the highlight stays in range, and multi mode never throws. */
    method HandleKeyDown(p: Props, keyCode: int) returns (outcome: Outcome)
      requires WellFormed(p)
      modifies this
      ensures keyCode == ESCAPE ==> !open && selIndex == -1 && emitted == old(emitted) && outcome == Ok
      ensures keyCode == ENTER && p.multiple && old(open) && old(selIndex) > -1 ==>
        && open == old(open) && selIndex == old(selIndex)
        && if old(selIndex) < |p.options|
           then outcome == Ok
             && emitted == old(emitted) + [Many(MultiSelect(p.selection, p.options[old(selIndex)].value))]
           else outcome == TypeError && emitted == old(emitted)
      ensures keyCode == ENTER && !(p.multiple && old(open) && old(selIndex) > -1) ==>
        open == !old(open) && selIndex == -1 && emitted == old(emitted) && outcome == Ok
      ensures (keyCode == UP || keyCode == DOWN) && !old(open) ==>
        open && selIndex == old(selIndex) && emitted == old(emitted) && outcome == Ok
      ensures (keyCode == UP || keyCode == DOWN) && old(open) ==>
        var i := ChangeSelectIndex(p, old(selIndex), keyCode == DOWN);
        && open == old(open)
        && (p.multiple ==> selIndex == i && emitted == old(emitted) && outcome == Ok)
        && (!p.multiple ==>
              selIndex == old(selIndex)
              && if 0 <= i < |p.options|
                 then outcome == Ok && emitted == old(emitted) + [Scalar(p.options[i].value)]
                 else outcome == TypeError && emitted == old(emitted))
      ensures keyCode !in {ESCAPE, ENTER, UP, DOWN} ==>
        open == old(open) && selIndex == old(selIndex) && emitted == old(emitted) && outcome == Ok
      ensures |p.options| > 0 && old(CursorIn(|p.options|)) ==>
        CursorIn(|p.options|) && (p.multiple ==> outcome == Ok)
    {
      ghost var n := |p.options|;
      outcome := Ok;
      if keyCode == ESCAPE {
        open, selIndex := false, -1;
      } else if keyCode == ENTER {
        if p.multiple && open && selIndex > -1 {
          if selIndex < |p.options| {
            HandleSelect(p, p.options[selIndex]);
          } else {
            outcome := TypeError;
          }
        } else {
          ToggleOpen();
        }
      } else if keyCode == DOWN || keyCode == UP {
        if open {
          if n > 0 && CursorIn(n) {
            ChangeSelectInRange(p, selIndex, keyCode == DOWN);
          }
          outcome := HandleChangeSelect(p, keyCode);
        } else {
          open := true;
        }
      }
    }
  }
}
