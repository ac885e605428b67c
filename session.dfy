/** The session controller: the tool's mutable state (selection, armed label,
    running counters, current grid), the click and key handlers that change
    it, and the per-image loop that feeds input events to them. */
module Session {
  import opened Wrappers
  import opened Geometry
  import opened Selection
  import opened Export

  // ---------------------------------------------------------------------
  // Input events

  /** The kind of a mouse event; only a left-button press selects. */
  datatype MouseEvent = LeftButtonDown | OtherMouseEvent

  /** One polling tick: a mouse event at a point already in original-image
      coordinates, or the raw code the key poll returned (-1 when no key). */
  datatype Input = Mouse(event: MouseEvent, x: int, y: int) | Key(raw: int)

  /** What a key asks for. */
  datatype Command = Arm(l: Label) | SaveNext | Skip | SaveExit | NoCommand

  /** What the per-image loop does after a key. */
  datatype Next = Continue | NextImage | ExitProgram

  /** The low byte of a raw key code, as `raw & 0xFF` gives it on an
      unbounded two's-complement integer. */
  function KeyCode(raw: int): (k: nat)
    ensures k < 256 && (raw - k) % 256 == 0
  {
    raw % 256
  }

  /** The command bound to a key: `h` and `d` arm a label, `s` saves and goes
      on, `q` skips, `x` saves and exits; every other code does nothing. */
  function DecodeKey(raw: int): (c: Command)
    ensures c == Arm(Healthy) <==> KeyCode(raw) == 'h' as int
    ensures c == Arm(Damaged) <==> KeyCode(raw) == 'd' as int
    ensures c == SaveNext <==> KeyCode(raw) == 's' as int
    ensures c == Skip <==> KeyCode(raw) == 'q' as int
    ensures c == SaveExit <==> KeyCode(raw) == 'x' as int
  {
    var k := KeyCode(raw);
    if k == 'h' as int then Arm(Healthy)
    else if k == 'd' as int then Arm(Damaged)
    else if k == 's' as int then SaveNext
    else if k == 'q' as int then Skip
    else if k == 'x' as int then SaveExit
    else NoCommand
  }

  /** Only the low byte of a key code matters: codes that differ by a
      multiple of 256 (modifier bits) mean the same command. */
  lemma DecodeKeyIgnoresHighBits(raw: int, m: int)
    ensures DecodeKey(raw + 256 * m) == DecodeKey(raw)
  {
  }

  /** A poll that timed out (-1) is the code 255, which is bound to nothing. */
  lemma NoKeyIsNoCommand()
    ensures KeyCode(-1) == 255 && DecodeKey(-1) == NoCommand
  {
  }

  /** A command that ends the current image. */
  predicate IsDecision(c: Command)
  {
    c == SaveNext || c == Skip || c == SaveExit
  }

  predicate IsDecisionInput(e: Input)
  {
    e.Key? && IsDecision(DecodeKey(e.raw))
  }

  /** The tick at which the operator leaves the image: the first key that
      saves, skips or exits. */
  function FirstDecision(events: seq<Input>): (t: Option<nat>)
    ensures t.Some? ==> t.value < |events| && IsDecisionInput(events[t.value])
    ensures t.Some? ==> forall k :: 0 <= k < t.value ==> !IsDecisionInput(events[k])
    ensures t.None? ==> forall k :: 0 <= k < |events| ==> !IsDecisionInput(events[k])
  {
    if events == [] then None
    else if IsDecisionInput(events[0]) then Some(0)
    else
      match FirstDecision(events[1..])
      case None => None
      case Some(t) => Some(t + 1)
  }

  // ---------------------------------------------------------------------
  // Reference semantics of one image's inputs

  /** What the operator sees of one image between decisions. */
  datatype View = View(sel: Selection, armed: Option<Label>)

  /** The effect of one input on the view of an image of w x h pixels: an
      armed left click toggles the first cell that contains the point; `h`/`d`
      arm a label; nothing else changes the view. */
  function ApplyInput(v: View, e: Input, w: nat, h: nat): (r: View)
    ensures r.armed == if e.Key? && DecodeKey(e.raw).Arm? then Some(DecodeKey(e.raw).l) else v.armed
    ensures r.sel != v.sel ==> e.Mouse? && e.event == LeftButtonDown && v.armed.Some?
  {
    match e
    case Mouse(ev, x, y) =>
      if ev == LeftButtonDown && v.armed.Some? then
        match Locate(GridCells(w, h), x, y)
        case Some(idx) => v.(sel := Toggle(v.sel, idx, v.armed.value))
        case None => v
      else v
    case Key(raw) =>
      match DecodeKey(raw)
      case Arm(l) => v.(armed := Some(l))
      case _ => v
  }

  /** The view after a sequence of inputs, starting from nothing selected and
      no label armed. */
  function Replay(events: seq<Input>, w: nat, h: nat): View
  {
    if events == [] then View(map[], None)
    else ApplyInput(Replay(events[..|events| - 1], w, h), events[|events| - 1], w, h)
  }

  /** A label is armed exactly when some key among the inputs armed one. */
  lemma {:induction false} ReplayArmedIffArmKey(events: seq<Input>, w: nat, h: nat)
    ensures Replay(events, w, h).armed.Some? <==>
      exists k :: 0 <= k < |events| && events[k].Key? && DecodeKey(events[k].raw).Arm?
  {
    if events != [] {
      var init := events[..|events| - 1];
      ReplayArmedIffArmKey(init, w, h);
      assert forall k :: 0 <= k < |init| ==> init[k] == events[k];
    }
  }

  /** Every selected cell of a replayed view is a valid cell index. */
  lemma {:induction false} ReplayWithinGrid(events: seq<Input>, w: nat, h: nat)
    ensures WithinGrid(Replay(events, w, h).sel, CellCount)
  {
    if events != [] {
      var prev := Replay(events[..|events| - 1], w, h);
      ReplayWithinGrid(events[..|events| - 1], w, h);
      var e := events[|events| - 1];
      if e.Mouse? && e.event == LeftButtonDown && prev.armed.Some? {
        var r := Locate(GridCells(w, h), e.x, e.y);
        if r.Some? {
          ToggleWithinGrid(prev.sel, r.value, prev.armed.value, CellCount);
        }
      }
    }
  }

  /** Clicks while no label is armed never select anything: with no `h`/`d`
      key among the inputs the selection stays empty. */
  lemma {:induction false} UnarmedClicksSelectNothing(events: seq<Input>, w: nat, h: nat)
    requires forall k :: 0 <= k < |events| ==> !(events[k].Key? && DecodeKey(events[k].raw).Arm?)
    ensures Replay(events, w, h) == View(map[], None)
  {
    if events != [] {
      UnarmedClicksSelectNothing(events[..|events| - 1], w, h);
    }
  }

  /** Arm `healthy` and click the middle of cell 0 of a 1200 x 1200 image
      twice: the first click selects the cell, the second deselects it. */
  lemma ScenarioSelectThenDeselect()
    ensures var click := Mouse(LeftButtonDown, 100, 100);
      var events := [Key('h' as int), click, click];
      Replay(events[..2], 1200, 1200) == View(map[0 := Healthy], Some(Healthy)) &&
      Replay(events, 1200, 1200) == View(map[], Some(Healthy))
  {
    var click := Mouse(LeftButtonDown, 100, 100);
    var events := [Key('h' as int), click, click];
    InteriorPointLocatesCell(0, 1200, 1200, 100, 100);
    assert events[..2][..1] == events[..1];
    assert events[..1][..0] == [];
    assert Replay(events[..1], 1200, 1200) == View(map[], Some(Healthy));
    assert Replay(events[..2], 1200, 1200) == View(map[0 := Healthy], Some(Healthy));
    assert events[..|events| - 1] == events[..2];
    assert map[0 := Healthy] - {0} == map[];
  }

  /** Arm `healthy`, click cell 5, arm `damaged`, click cell 5 again: the
      cell ends up labelled `damaged`. */
  lemma ScenarioRelabel()
    ensures var click := Mouse(LeftButtonDown, 1100, 100);
      Replay([Key('h' as int), click, Key('d' as int), click], 1200, 1200) ==
        View(map[5 := Damaged], Some(Damaged))
  {
    var click := Mouse(LeftButtonDown, 1100, 100);
    var events := [Key('h' as int), click, Key('d' as int), click];
    InteriorPointLocatesCell(5, 1200, 1200, 1100, 100);
    assert events[..1][..0] == [];
    assert events[..2][..1] == events[..1];
    assert events[..3][..2] == events[..2];
    assert events[..|events| - 1] == events[..3];
    assert Replay(events[..1], 1200, 1200) == View(map[], Some(Healthy));
    assert Replay(events[..2], 1200, 1200) == View(map[5 := Healthy], Some(Healthy));
    assert Replay(events[..3], 1200, 1200) == View(map[5 := Healthy], Some(Damaged));
  }

  /** How leaving an image ends. */
  datatype ImageOutcome = Saved | Skipped | Exited | Unfinished

  /** How an image with these inputs is left: by its first deciding key,
      or not at all when there is none. */
  function OutcomeOfInputs(events: seq<Input>): ImageOutcome
  {
    match FirstDecision(events)
    case None => Unfinished
    case Some(t) => OutcomeOf(DecodeKey(events[t].raw))
  }

  function OutcomeOf(c: Command): ImageOutcome
  {
    match c
    case SaveNext => Saved
    case Skip => Skipped
    case SaveExit => Exited
    case _ => Unfinished
  }

  /** The view of an image when it is left: the replay of the inputs before
      its deciding key, or of all of them when none decides. */
  function FinalView(events: seq<Input>, w: nat, h: nat): View
  {
    match FirstDecision(events)
    case None => Replay(events, w, h)
    case Some(t) => Replay(events[..t], w, h)
  }

  // ---------------------------------------------------------------------
  // Image file filter

  function LowerChar(c: char): (d: char)
    ensures !('A' <= d <= 'Z')
  {
    if 'A' <= c <= 'Z' then (c - 'A' + 'a') as char else c
  }

  /** ASCII lower-casing of a file name: no capital is left, each capital
      becomes its small letter, and every other character is kept. */
  function Lower(s: string): (r: string)
    ensures |r| == |s|
    ensures forall i :: 0 <= i < |r| ==> !('A' <= r[i] <= 'Z')
    ensures forall i :: 0 <= i < |s| && 'A' <= s[i] <= 'Z' ==> r[i] as int == s[i] as int + 32
    ensures forall i :: 0 <= i < |s| && !('A' <= s[i] <= 'Z') ==> r[i] == s[i]
  {
    seq(|s|, i requires 0 <= i < |s| => LowerChar(s[i]))
  }

  /** Lower-casing twice is lower-casing once. */
  lemma LowerIdempotent(s: string)
    ensures Lower(Lower(s)) == Lower(s)
  {
  }

  predicate EndsWith(s: string, suffix: string)
  {
    |suffix| <= |s| && s[|s| - |suffix|..] == suffix
  }

  /** A directory entry is an input image when its lower-cased name ends in
      `.jpg`, `.jpeg` or `.png`. */
  predicate IsImageFile(name: string)
    ensures IsImageFile(name) ==> |name| >= 4
  {
    var n := Lower(name);
    EndsWith(n, ".jpg") || EndsWith(n, ".jpeg") || EndsWith(n, ".png")
  }

  /** The filter ignores case: a name and its lower-cased form are accepted
      together. */
  lemma IsImageFileIgnoresCase(name: string)
    ensures IsImageFile(Lower(name)) == IsImageFile(name)
  {
    LowerIdempotent(name);
  }

  /** Lower-casing a name lower-cases its suffix. */
  lemma LowerKeepsSuffix(name: string, suffix: string)
    requires EndsWith(name, suffix)
    ensures EndsWith(Lower(name), Lower(suffix))
  {
    var n := Lower(name);
    forall i | 0 <= i < |suffix|
      ensures n[|n| - |suffix|..][i] == Lower(suffix)[i]
    {
      assert suffix[i] == name[|name| - |suffix| + i];
    }
  }

  /** Each accepted suffix is accepted in small and in capital letters. */
  lemma ImageSuffixesAccepted(name: string)
    ensures EndsWith(name, ".jpg") || EndsWith(name, ".jpeg") || EndsWith(name, ".png") ==> IsImageFile(name)
    ensures EndsWith(name, ".JPG") || EndsWith(name, ".JPEG") || EndsWith(name, ".PNG") ==> IsImageFile(name)
  {
    assert Lower(".jpg") == ".jpg" && Lower(".JPG") == ".jpg";
    assert Lower(".jpeg") == ".jpeg" && Lower(".JPEG") == ".jpeg";
    assert Lower(".png") == ".png" && Lower(".PNG") == ".png";
    if EndsWith(name, ".jpg") { LowerKeepsSuffix(name, ".jpg"); }
    if EndsWith(name, ".JPG") { LowerKeepsSuffix(name, ".JPG"); }
    if EndsWith(name, ".jpeg") { LowerKeepsSuffix(name, ".jpeg"); }
    if EndsWith(name, ".JPEG") { LowerKeepsSuffix(name, ".JPEG"); }
    if EndsWith(name, ".png") { LowerKeepsSuffix(name, ".png"); }
    if EndsWith(name, ".PNG") { LowerKeepsSuffix(name, ".PNG"); }
  }

  /** One directory entry: its file name, the base name the exporter uses
      for it, its pixel size, and the inputs the operator gives while it is
      shown. */
  datatype Entry = Entry(fileName: string, baseName: string, w: nat, h: nat, events: seq<Input>)

  /** The entries that are input images, in listing order. */
  function ImageFiles(entries: seq<Entry>): (r: seq<Entry>)
    ensures |r| <= |entries|
  {
    if entries == [] then []
    else if IsImageFile(entries[0].fileName) then [entries[0]] + ImageFiles(entries[1..])
    else ImageFiles(entries[1..])
  }

  /** An entry is kept exactly when it is listed and is an image. */
  lemma {:induction false} ImageFilesMembership(entries: seq<Entry>, e: Entry)
    ensures e in ImageFiles(entries) <==> e in entries && IsImageFile(e.fileName)
  {
    if entries != [] {
      ImageFilesMembership(entries[1..], e);
      assert entries == [entries[0]] + entries[1..];
    }
  }

  /** A single entry is kept exactly when it is an image. */
  lemma ImageFilesSingleton(e: Entry)
    ensures ImageFiles([e]) == if IsImageFile(e.fileName) then [e] else []
  {
    assert [e][1..] == [];
  }

  /** Filtering a listing split in two filters each part and keeps their
      order: together with the single-entry case this fixes the result as
      the image entries in listing order, repeats included. */
  lemma {:induction false} ImageFilesAppend(a: seq<Entry>, b: seq<Entry>)
    ensures ImageFiles(a + b) == ImageFiles(a) + ImageFiles(b)
  {
    if a == [] {
      assert a + b == b;
    } else {
      assert (a + b)[0] == a[0];
      assert (a + b)[1..] == a[1..] + b;
      ImageFilesAppend(a[1..], b);
    }
  }

  // ---------------------------------------------------------------------
  // The tool's state

  class Annotator {
    /** Cell index -> label, for the image on screen. */
    var selected: Selection
    /** The label the next click applies, if any. */
    var currentLabel: Option<Label>
    /** Crops exported so far in this run, per label. */
    var savedCrops: Counters
    /** The cell rectangles of the image on screen, row-major. */
    var cellCoords: seq<Rect>

    ghost predicate Valid()
      reads this
    {
      |cellCoords| <= CellCount && WithinGrid(selected, CellCount)
    }

    /** The state at program start: nothing selected, nothing armed, both
        counters at zero, no grid yet. */
    constructor ()
      ensures Valid()
      ensures selected == map[] && currentLabel == None
      ensures savedCrops == Counters(0, 0) && cellCoords == []
    {
      selected := map[];
      currentLabel := None;
      savedCrops := Counters(0, 0);
      cellCoords := [];
    }

    /** Rebuilds the cell list for an image of w x h pixels, discarding the
        previous one: row by row, column by column. */
    method BuildCells(w: nat, h: nat)
      requires Valid()
      modifies this
      ensures Valid()
      ensures cellCoords == GridCells(w, h)
      ensures selected == old(selected) && currentLabel == old(currentLabel)
      ensures savedCrops == old(savedCrops)
    {
      cellCoords := [];
      var cellH, cellW := h / GridRows, w / GridCols;
      var i := 0;
      while i < GridRows
        invariant 0 <= i <= GridRows
        invariant |cellCoords| == i * GridCols
        invariant forall k :: 0 <= k < |cellCoords| ==> cellCoords[k] == CellRect(k, w, h)
        invariant selected == old(selected) && currentLabel == old(currentLabel)
        invariant savedCrops == old(savedCrops)
      {
        var j := 0;
        while j < GridCols
          invariant 0 <= j <= GridCols
          invariant |cellCoords| == i * GridCols + j
          invariant forall k :: 0 <= k < |cellCoords| ==> cellCoords[k] == CellRect(k, w, h)
          invariant selected == old(selected) && currentLabel == old(currentLabel)
          invariant savedCrops == old(savedCrops)
        {
          var x1, y1 := j * cellW, i * cellH;
          var x2, y2 := x1 + cellW, y1 + cellH;
          RowMajorDivMod(i, j);
          cellCoords := cellCoords + [Rect(x1, y1, x2, y2)];
          j := j + 1;
        }
        i := i + 1;
      }
    }

    /** A mouse event at original-image point (x, y). Only a left-button
        press with a label armed acts: it applies the click rule to the
        first cell that contains the point, if there is one. */
    method Click(event: MouseEvent, x: int, y: int)
      requires Valid()
      modifies this
      ensures Valid()
      ensures cellCoords == old(cellCoords) && currentLabel == old(currentLabel)
      ensures savedCrops == old(savedCrops)
      ensures var hit := Locate(cellCoords, x, y);
        if event == LeftButtonDown && currentLabel.Some? && hit.Some?
        then selected == Toggle(old(selected), hit.value, currentLabel.value)
        else selected == old(selected)
    {
      if event == LeftButtonDown && currentLabel.Some? {
        var found := FindCell(cellCoords, x, y);
        if found.Some? {
          ToggleWithinGrid(selected, found.value, currentLabel.value, CellCount);
          selected := Toggle(selected, found.value, currentLabel.value);
        }
      }
    }

    /** Exports the current selection of an image of w x h pixels named
        `imgName`: one crop per selected cell, counted under its label. The
        selection is left as it is. */
    method Save(w: nat, h: nat, imgName: string) returns (written: map<nat, Crop>)
      requires Valid()
      modifies this
      ensures Valid()
      ensures selected == old(selected) && currentLabel == old(currentLabel)
      ensures cellCoords == old(cellCoords)
      ensures written == ExportedCrops(selected, imgName, w, h)
      ensures forall l: Label :: savedCrops.Get(l) == old(savedCrops).Get(l) + CountLabel(selected, l)
    {
      written, savedCrops := ExportSelections(selected, savedCrops, imgName, w, h);
    }

    /** The reset at the start of each image: nothing selected, nothing
        armed. The counters carry over. */
    method StartImage()
      requires Valid()
      modifies this
      ensures Valid()
      ensures selected == map[] && currentLabel == None
      ensures savedCrops == old(savedCrops) && cellCoords == old(cellCoords)
    {
      selected := map[];
      currentLabel := None;
    }

    /** One key press while an image of w x h pixels named `imgName` is
        shown. */
    method HandleKey(raw: int, w: nat, h: nat, imgName: string)
      returns (next: Next, written: map<nat, Crop>)
      requires Valid()
      modifies this
      ensures Valid()
      ensures selected == old(selected) && cellCoords == old(cellCoords)
      ensures match DecodeKey(raw)
        case Arm(l) =>
          currentLabel == Some(l) && savedCrops == old(savedCrops) &&
          next == Continue && written == map[]
        case SaveNext =>
          currentLabel == old(currentLabel) && next == NextImage &&
          written == ExportedCrops(selected, imgName, w, h) &&
          forall l: Label :: savedCrops.Get(l) == old(savedCrops).Get(l) + CountLabel(selected, l)
        case Skip =>
          currentLabel == old(currentLabel) && savedCrops == old(savedCrops) &&
          next == NextImage && written == map[]
        case SaveExit =>
          currentLabel == old(currentLabel) && next == ExitProgram &&
          written == ExportedCrops(selected, imgName, w, h) &&
          forall l: Label :: savedCrops.Get(l) == old(savedCrops).Get(l) + CountLabel(selected, l)
        case NoCommand =>
          currentLabel == old(currentLabel) && savedCrops == old(savedCrops) &&
          next == Continue && written == map[]
    {
      next, written := Continue, map[];
      var key := KeyCode(raw);
      if key == 'h' as int {
        currentLabel := Some(Healthy);
      } else if key == 'd' as int {
        currentLabel := Some(Damaged);
      } else if key == 's' as int {
        written := Save(w, h, imgName);
        next := NextImage;
      } else if key == 'q' as int {
        next := NextImage;
      } else if key == 'x' as int {
        written := Save(w, h, imgName);
        next := ExitProgram;
      }
    }

    /** The loop for one image: reset, then one input per tick, rebuilding
        the grid every tick, until a key saves, skips or exits. When the
        inputs run out first the image is still open (`Unfinished`). The
        final selection is the replay of the inputs before the deciding key,
        and only a save or an exit exports it. */
    method ProcessImage(w: nat, h: nat, imgName: string, events: seq<Input>)
      returns (outcome: ImageOutcome, written: map<nat, Crop>)
      requires Valid()
      modifies this
      ensures Valid()
      ensures outcome == OutcomeOfInputs(events)
      ensures forall l: Label :: savedCrops.Get(l) >= old(savedCrops).Get(l)
      ensures match FirstDecision(events)
        case None =>
          outcome == Unfinished && written == map[] && savedCrops == old(savedCrops) &&
          View(selected, currentLabel) == Replay(events, w, h)
        case Some(t) =>
          outcome == OutcomeOf(DecodeKey(events[t].raw)) &&
          View(selected, currentLabel) == Replay(events[..t], w, h) &&
          if outcome == Skipped then
            written == map[] && savedCrops == old(savedCrops)
          else
            written == ExportedCrops(selected, imgName, w, h) &&
            forall l: Label :: savedCrops.Get(l) == old(savedCrops).Get(l) + CountLabel(selected, l)
    {
      StartImage();
      outcome, written := Unfinished, map[];
      var t := 0;
      while t < |events|
        invariant 0 <= t <= |events| && Valid()
        invariant forall k :: 0 <= k < t ==> !IsDecisionInput(events[k])
        invariant View(selected, currentLabel) == Replay(events[..t], w, h)
        invariant savedCrops == old(savedCrops) && written == map[]
      {
        BuildCells(w, h);
        var e := events[t];
        assert events[..t + 1][..t] == events[..t];
        match e {
          case Mouse(ev, x, y) =>
            Click(ev, x, y);
          case Key(raw) =>
            var next;
            next, written := HandleKey(raw, w, h, imgName);
            if next != Continue {
              outcome := OutcomeOf(DecodeKey(raw));
              assert FirstDecision(events) == Some(t);
              return;
            }
        }
        t := t + 1;
      }
      assert events[..t] == events;
    }

    /** One pass of the loop over the listing: open the entry's image (its
        size and base name are given with it) and handle it until the
        operator leaves it. The selection at that point is the replay of the
        inputs before the deciding key. A save or an exit counts each selected
        cell under its label (the crops it writes are stated by
        `ProcessImage`); a skip or an unfinished image leaves the counters as
        they were. */
    method ShowEntry(img: Entry) returns (outcome: ImageOutcome)
      requires Valid()
      modifies this
      ensures Valid()
      ensures outcome == OutcomeOfInputs(img.events)
      ensures View(selected, currentLabel) == FinalView(img.events, img.w, img.h)
      ensures outcome == Skipped || outcome == Unfinished ==> savedCrops == old(savedCrops)
      ensures outcome == Saved || outcome == Exited ==>
        forall l: Label :: savedCrops.Get(l) == old(savedCrops).Get(l) + CountLabel(selected, l)
    {
      var written;
      outcome, written := ProcessImage(img.w, img.h, img.baseName, img.events);
    }

    /** The whole run over a directory listing: the image entries are opened
        in listing order and each is handled until the operator leaves it.
        `outcomes[k]` is how image `k` was left, set by the first deciding
        key among its inputs. Every image but the last one shown was saved
        or skipped; the run stops early only after an exit, or at an image
        whose inputs run out. The counters are never reset, only increased. */
    method Run(entries: seq<Entry>) returns (outcomes: seq<ImageOutcome>)
      requires Valid()
      modifies this
      ensures Valid()
      ensures |outcomes| <= |ImageFiles(entries)|
      ensures forall k :: 0 <= k < |outcomes| ==>
        outcomes[k] == OutcomeOfInputs(ImageFiles(entries)[k].events)
      ensures forall k :: 0 <= k < |outcomes| - 1 ==> outcomes[k] == Saved || outcomes[k] == Skipped
      ensures |outcomes| < |ImageFiles(entries)| ==>
        |outcomes| > 0 && (outcomes[|outcomes| - 1] == Exited || outcomes[|outcomes| - 1] == Unfinished)
      ensures forall l: Label :: savedCrops.Get(l) >= old(savedCrops).Get(l)
    {
      var images := ImageFiles(entries);
      outcomes := [];
      while |outcomes| < |images|
        invariant |outcomes| <= |images| && Valid()
        invariant forall k :: 0 <= k < |outcomes| ==> outcomes[k] == OutcomeOfInputs(images[k].events)
        invariant forall k :: 0 <= k < |outcomes| ==> outcomes[k] == Saved || outcomes[k] == Skipped
        invariant forall l: Label :: savedCrops.Get(l) >= old(savedCrops).Get(l)
      {
        var img := images[|outcomes|];
        var outcome := ShowEntry(img);
        ghost var prev := outcomes;
        outcomes := outcomes + [outcome];
        assert forall k :: 0 <= k < |prev| ==> outcomes[k] == prev[k];
        assert outcomes[|prev|] == OutcomeOfInputs(images[|prev|].events);
        if outcome == Exited || outcome == Unfinished {
          return;
        }
      }
    }
  }
}
