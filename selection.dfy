/** The selection state of one image: a map from cell index to label, and the
    three-way rule a click applies to it (select, deselect, relabel). */
module Selection {

  /** The fixed label set; each label has its own output folder and colour. */
  datatype Label = Healthy | Damaged

  /** The folder name of a label. */
  function LabelName(l: Label): (name: string)
    ensures |name| > 0
  {
    match l
    case Healthy => "healthy"
    case Damaged => "damaged"
  }

  /** Cell index -> assigned label. */
  type Selection = map<nat, Label>

  /** The click rule for cell `idx` with armed label `l`: an absent cell is
      selected with `l`; a cell already carrying `l` is deselected; a cell
      carrying another label is relabelled to `l`. No other key changes. */
  function Toggle(s: Selection, idx: nat, l: Label): (r: Selection)
    ensures idx in r <==> !(idx in s && s[idx] == l)
    ensures idx in r ==> r[idx] == l
    ensures forall k :: k != idx ==> (k in r <==> k in s)
    ensures forall k :: k != idx && k in s ==> r[k] == s[k]
  {
    if idx in s && s[idx] == l then s - {idx} else s[idx := l]
  }

  /** Toggle law: clicking the same cell twice with the same label restores the
      selection exactly when the cell was absent or already carried that
      label; if it carried another label, the two clicks relabel and then
      deselect it. */
  lemma ToggleTwice(s: Selection, idx: nat, l: Label)
    ensures Toggle(Toggle(s, idx, l), idx, l) == s <==> (idx !in s || s[idx] == l)
    ensures idx in s && s[idx] != l ==> Toggle(Toggle(s, idx, l), idx, l) == s - {idx}
  {
  }

  /** Relabel law: clicking a cell with label `a` and then with another label
      `b` leaves it labelled `b`, whatever it held before. */
  lemma RelabelLaw(s: Selection, idx: nat, a: Label, b: Label)
    requires a != b
    ensures Toggle(Toggle(s, idx, a), idx, b) == s[idx := b]
  {
  }

  /** A click changes the number of selected cells by exactly one on select or
      deselect, and not at all on relabel. */
  lemma ToggleSize(s: Selection, idx: nat, l: Label)
    ensures idx !in s ==> |Toggle(s, idx, l)| == |s| + 1
    ensures idx in s && s[idx] == l ==> |Toggle(s, idx, l)| == |s| - 1
    ensures idx in s && s[idx] != l ==> |Toggle(s, idx, l)| == |s|
  {
  }

  /** Every selected index is a valid cell index. */
  ghost predicate WithinGrid(s: Selection, cellCount: nat)
  {
    forall k :: k in s ==> k < cellCount
  }

  /** A click on a valid cell keeps every selected index valid. */
  lemma ToggleWithinGrid(s: Selection, idx: nat, l: Label, cellCount: nat)
    requires WithinGrid(s, cellCount) && idx < cellCount
    ensures WithinGrid(Toggle(s, idx, l), cellCount)
  {
  }

  // ---------------------------------------------------------------------
  // Counting by label

  /** The selected cells among `keys` that carry label `l`. */
  function CellsWithLabel(s: Selection, keys: set<nat>, l: Label): set<nat>
  {
    set k | k in keys && k in s && s[k] == l
  }

  /** How many selected cells carry label `l`. */
  function CountLabel(s: Selection, l: Label): nat
  {
    |CellsWithLabel(s, s.Keys, l)|
  }

  /** The labels partition the selection: the per-label counts add up to the
      number of selected cells. */
  lemma CountLabelsPartition(s: Selection)
    ensures CountLabel(s, Healthy) + CountLabel(s, Damaged) == |s|
  {
    var hs := CellsWithLabel(s, s.Keys, Healthy);
    var ds := CellsWithLabel(s, s.Keys, Damaged);
    assert hs !! ds;
    assert hs + ds == s.Keys;
    assert |hs + ds| == |hs| + |ds|;
  }

  /** Adding one more key to the set counted grows the count of that key's
      label by one and leaves the other label's count unchanged. */
  lemma CellsWithLabelStep(s: Selection, keys: set<nat>, idx: nat, l: Label)
    requires idx in s && idx !in keys
    ensures |CellsWithLabel(s, keys + {idx}, l)| ==
      |CellsWithLabel(s, keys, l)| + (if s[idx] == l then 1 else 0)
  {
    if s[idx] == l {
      assert CellsWithLabel(s, keys + {idx}, l) == CellsWithLabel(s, keys, l) + {idx};
    } else {
      assert CellsWithLabel(s, keys + {idx}, l) == CellsWithLabel(s, keys, l);
    }
  }
}
