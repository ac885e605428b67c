/** The crop exporter: for every selected cell, the output path and the cell
    rectangle to cut out, and the running per-label counters. */
module Export {
  import opened Geometry
  import opened Selection

  // ---------------------------------------------------------------------
  // Decimal rendering of cell indices

  function DigitChar(d: nat): (c: char)
    requires d < 10
    ensures '0' <= c <= '9' && c as int == '0' as int + d
  {
    "0123456789"[d]
  }

  function DigitValue(c: char): nat
    requires '0' <= c <= '9'
  {
    (c - '0') as nat
  }

  predicate AllDigits(s: string)
  {
    forall i :: 0 <= i < |s| ==> '0' <= s[i] <= '9'
  }

  /** The decimal text of `n`, as string formatting renders a non-negative
      int: digits only, and no leading zero unless `n` is 0 itself. */
  function NatToString(n: nat): (s: string)
    ensures |s| > 0 && AllDigits(s)
    ensures |s| == 1 || s[0] != '0'
    ensures s[0] == '0' <==> n == 0
  {
    if n < 10 then [DigitChar(n)] else NatToString(n / 10) + [DigitChar(n % 10)]
  }

  /** Reads a string of decimal digits back as a number. */
  function ParseDecimal(s: string): nat
    requires AllDigits(s)
  {
    if s == [] then 0 else 10 * ParseDecimal(s[..|s| - 1]) + DigitValue(s[|s| - 1])
  }

  /** Decimal rendering round-trips. */
  lemma {:induction false} ParseNatToString(n: nat)
    ensures ParseDecimal(NatToString(n)) == n
  {
    var s := NatToString(n);
    if n < 10 {
      assert s[..0] == [];
    } else {
      ParseNatToString(n / 10);
      assert s[..|s| - 1] == NatToString(n / 10);
    }
  }

  /** Distinct indices render to distinct text. */
  lemma NatToStringInjective(a: nat, b: nat)
    requires NatToString(a) == NatToString(b)
    ensures a == b
  {
    ParseNatToString(a);
    ParseNatToString(b);
  }

  // ---------------------------------------------------------------------
  // Output records

  /** The path of an exported crop, relative to the session folder:
      `<label>/<image base name>_cell<index>.jpg`. */
  function CropPath(l: Label, imgName: string, idx: nat): string
  {
    LabelName(l) + "/" + imgName + "_cell" + NatToString(idx) + ".jpg"
  }

  /** Within one image and label, different cells get different files. */
  lemma CropPathInjective(l: Label, imgName: string, a: nat, b: nat)
    requires CropPath(l, imgName, a) == CropPath(l, imgName, b)
    ensures a == b
  {
    var prefix := LabelName(l) + "/" + imgName + "_cell";
    var p := CropPath(l, imgName, a);
    assert p == prefix + NatToString(a) + ".jpg";
    assert p == prefix + NatToString(b) + ".jpg";
    assert p[|prefix|..|p| - 4] == NatToString(a);
    assert p[|prefix|..|p| - 4] == NatToString(b);
    NatToStringInjective(a, b);
  }

  /** Two crops of one image never share a file: their label folders or their
      cell indices differ. */
  lemma CropPathsDistinct(l1: Label, l2: Label, imgName: string, a: nat, b: nat)
    requires a != b
    ensures CropPath(l1, imgName, a) != CropPath(l2, imgName, b)
  {
    var p1, p2 := CropPath(l1, imgName, a), CropPath(l2, imgName, b);
    assert p1[0] == LabelName(l1)[0] && p2[0] == LabelName(l2)[0];
    if l1 == l2 && p1 == p2 {
      CropPathInjective(l1, imgName, a, b);
    }
  }

  /** One exported crop: the file written, its label, and the image region. */
  datatype Crop = Crop(path: string, kind: Label, region: Rect)

  /** The crop written for selected cell `idx` with label `l` of an image of
      w x h pixels. */
  function CropFor(l: Label, imgName: string, idx: nat, w: nat, h: nat): Crop
  {
    Crop(CropPath(l, imgName, idx), l, CellRect(idx, w, h))
  }

  /** Running per-label totals of exported crops, one per label. */
  datatype Counters = Counters(healthy: nat, damaged: nat) {
    function Get(l: Label): nat
    {
      match l
      case Healthy => healthy
      case Damaged => damaged
    }

    /** Adds one to the count of label `l` only. */
    function Bump(l: Label): (c: Counters)
      ensures c.Get(l) == Get(l) + 1
      ensures forall other :: other != l ==> c.Get(other) == Get(other)
    {
      match l
      case Healthy => this.(healthy := healthy + 1)
      case Damaged => this.(damaged := damaged + 1)
    }
  }

  /** The crops of the selected cells among `keys`. */
  function CropsOf(sel: Selection, keys: set<nat>, imgName: string, w: nat, h: nat): map<nat, Crop>
  {
    map idx | idx in keys && idx in sel :: CropFor(sel[idx], imgName, idx, w, h)
  }

  /** What an export writes: for each selected cell, its crop. */
  function ExportedCrops(sel: Selection, imgName: string, w: nat, h: nat): (written: map<nat, Crop>)
    ensures written.Keys == sel.Keys
    ensures forall idx :: idx in sel ==> written[idx] == CropFor(sel[idx], imgName, idx, w, h)
  {
    CropsOf(sel, sel.Keys, imgName, w, h)
  }

  /** Writing the crop of one more selected cell extends the crops written. */
  lemma CropsOfStep(sel: Selection, keys: set<nat>, idx: nat, imgName: string, w: nat, h: nat)
    requires idx in sel
    ensures CropsOf(sel, keys + {idx}, imgName, w, h) ==
      CropsOf(sel, keys, imgName, w, h)[idx := CropFor(sel[idx], imgName, idx, w, h)]
  {
  }

  /** Export every selected cell: one crop per entry, each counted under its
      label. The selection itself is only read. */
  method ExportSelections(sel: Selection, counters: Counters, imgName: string, w: nat, h: nat)
    returns (written: map<nat, Crop>, counters': Counters)
    ensures written == ExportedCrops(sel, imgName, w, h)
    ensures forall l: Label :: counters'.Get(l) == counters.Get(l) + CountLabel(sel, l)
  {
    written := map[];
    counters' := counters;
    var todo := sel.Keys;
    ghost var done: set<nat> := {};
    while todo != {}
      invariant todo + done == sel.Keys && todo !! done
      invariant written == CropsOf(sel, done, imgName, w, h)
      invariant counters'.healthy == counters.healthy + |CellsWithLabel(sel, done, Healthy)|
      invariant counters'.damaged == counters.damaged + |CellsWithLabel(sel, done, Damaged)|
      decreases |todo|
    {
      var idx :| idx in todo;
      var l := sel[idx];
      written := written[idx := CropFor(l, imgName, idx, w, h)];
      counters' := counters'.Bump(l);
      assert written == CropsOf(sel, done + {idx}, imgName, w, h) by {
        CropsOfStep(sel, done, idx, imgName, w, h);
      }
      assert counters'.healthy == counters.healthy + |CellsWithLabel(sel, done + {idx}, Healthy)| by {
        CellsWithLabelStep(sel, done, idx, Healthy);
      }
      assert counters'.damaged == counters.damaged + |CellsWithLabel(sel, done + {idx}, Damaged)| by {
        CellsWithLabelStep(sel, done, idx, Damaged);
      }
      todo := todo - {idx};
      done := done + {idx};
    }
    assert done == sel.Keys;
  }

  /** Exporting adds exactly one to the total count per selected cell. */
  lemma ExportTotals(sel: Selection, counters: Counters, counters': Counters)
    requires forall l: Label :: counters'.Get(l) == counters.Get(l) + CountLabel(sel, l)
    ensures counters'.healthy + counters'.damaged == counters.healthy + counters.damaged + |sel|
  {
    assert counters'.Get(Healthy) == counters.Get(Healthy) + CountLabel(sel, Healthy);
    assert counters'.Get(Damaged) == counters.Get(Damaged) + CountLabel(sel, Damaged);
    CountLabelsPartition(sel);
  }

  /** The files an export writes for one image are pairwise distinct, so it
      writes exactly as many files as there are selected cells. */
  lemma ExportPathsDistinct(sel: Selection, imgName: string, w: nat, h: nat, a: nat, b: nat)
    requires a in sel && b in sel && a != b
    ensures CropFor(sel[a], imgName, a, w, h).path != CropFor(sel[b], imgName, b, w, h).path
  {
    CropPathsDistinct(sel[a], sel[b], imgName, a, b);
  }

  /** Saving cells 3 (`healthy`) and 4 (`damaged`) of image `img` writes one
      file into each label folder ... */
  lemma ScenarioExportFiles()
    ensures var written := ExportedCrops(map[3 := Healthy, 4 := Damaged], "img", 1200, 1200);
      written.Keys == {3, 4} &&
      written[3].path == "healthy/img_cell3.jpg" &&
      written[4].path == "damaged/img_cell4.jpg"
  {
    assert CropPath(Healthy, "img", 3) == "healthy/img_cell3.jpg" by {
      assert NatToString(3) == "3";
      assert "healthy" + "/" + "img" + "_cell" == "healthy/img_cell";
      assert "healthy/img_cell" + "3" + ".jpg" == "healthy/img_cell3.jpg";
    }
    assert CropPath(Damaged, "img", 4) == "damaged/img_cell4.jpg" by {
      assert NatToString(4) == "4";
      assert "damaged" + "/" + "img" + "_cell" == "damaged/img_cell";
      assert "damaged/img_cell" + "4" + ".jpg" == "damaged/img_cell4.jpg";
    }
  }

  /** ... and adds one to each counter. */
  lemma ScenarioExportCounts()
    ensures var sel := map[3 := Healthy, 4 := Damaged];
      CountLabel(sel, Healthy) == 1 && CountLabel(sel, Damaged) == 1
  {
    var sel := map[3 := Healthy, 4 := Damaged];
    assert CellsWithLabel(sel, sel.Keys, Healthy) == {3};
    assert CellsWithLabel(sel, sel.Keys, Damaged) == {4};
  }
}
