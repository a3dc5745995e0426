/**
 The four stateless resolvers of overlay_logic.py. Each takes the relevant
 part of a joystick snapshot plus the loaded surface table(s) and returns the
 active surfaces in draw order.
 */
module OverlayLogic {
  import opened Types

  // ---------------------------------------------------------------------
  // Digital buttons
  // ---------------------------------------------------------------------

  predicate ButtonActive(buttons: seq<bool>, surfaces: map<int, Surface>, i: int) {
    0 <= i < |buttons| && buttons[i] && i in surfaces
  }

  /** Reference definition: the indices below n whose button is pressed and
      mapped, exactly those and in strictly increasing order. */
  function PressedMapped(buttons: seq<bool>, surfaces: map<int, Surface>, n: nat): (idx: seq<int>)
    requires n <= |buttons|
    ensures |idx| <= n
    ensures forall k :: 0 <= k < |idx| ==> idx[k] < n && ButtonActive(buttons, surfaces, idx[k])
    ensures forall i :: 0 <= i < n && ButtonActive(buttons, surfaces, i) ==> i in idx
    ensures forall j, k :: 0 <= j < k < |idx| ==> idx[j] < idx[k]
  {
    if n == 0 then []
    else
      var rest := PressedMapped(buttons, surfaces, n - 1);
      if ButtonActive(buttons, surfaces, n - 1) then rest + [n - 1] else rest
  }

  /** The loop of get_button_overlays over the first n button indices. */
  function ButtonOverlaysUpTo(buttons: seq<bool>, surfaces: map<int, Surface>, n: nat): (r: seq<Surface>)
    requires n <= |buttons|
    ensures var idx := PressedMapped(buttons, surfaces, n);
            |r| == |idx| && forall k :: 0 <= k < |r| ==> r[k] == surfaces[idx[k]]
  {
    if n == 0 then []
    else
      ButtonOverlaysUpTo(buttons, surfaces, n - 1)
      + (if buttons[n - 1] && (n - 1) in surfaces then [surfaces[n - 1]] else [])
  }

  /** get_button_overlays: surfaces[i] for each pressed, mapped button index i,
      in increasing index order. */
  function ButtonOverlays(buttons: seq<bool>, surfaces: map<int, Surface>): (r: seq<Surface>)
    ensures var idx := PressedMapped(buttons, surfaces, |buttons|);
            |r| == |idx| && forall k :: 0 <= k < |r| ==> r[k] == surfaces[idx[k]]
    ensures |r| <= |buttons|
    ensures (forall i :: 0 <= i < |buttons| ==> !buttons[i]) ==> r == []
    ensures forall o :: o in r ==> o in surfaces.Values
  {
    var idx := PressedMapped(buttons, surfaces, |buttons|);
    var r := ButtonOverlaysUpTo(buttons, surfaces, |buttons|);
    assert (forall i :: 0 <= i < |buttons| ==> !buttons[i]) ==> |idx| == 0 by {
      if |idx| > 0 {
        assert ButtonActive(buttons, surfaces, idx[0]);
      }
    }
    assert forall k :: 0 <= k < |r| ==> r[k] in surfaces.Values by {
      forall k | 0 <= k < |r| ensures r[k] in surfaces.Values {
        assert ButtonActive(buttons, surfaces, idx[k]);
      }
    }
    r
  }

  /** Every pressed, mapped button is drawn. */
  lemma PressedButtonIsDrawn(buttons: seq<bool>, surfaces: map<int, Surface>, i: int)
    requires ButtonActive(buttons, surfaces, i)
    ensures surfaces[i] in ButtonOverlays(buttons, surfaces)
  {
    var r := ButtonOverlays(buttons, surfaces);
    var idx := PressedMapped(buttons, surfaces, |buttons|);
    assert i in idx;
    var p :| 0 <= p < |idx| && idx[p] == i;
    assert r[p] == surfaces[i];
  }

  /** Pressing or releasing a button that has no surface never changes the
      output of the first n iterations. */
  lemma {:induction false} UnmappedButtonIgnoredUpTo(buttons: seq<bool>, surfaces: map<int, Surface>, i: int, b: bool, n: nat)
    requires 0 <= i < |buttons| && i !in surfaces
    requires n <= |buttons|
    ensures ButtonOverlaysUpTo(buttons[i := b], surfaces, n) == ButtonOverlaysUpTo(buttons, surfaces, n)
  {
    if n > 0 {
      var pressed := buttons[i := b];
      var tail := if buttons[n - 1] && (n - 1) in surfaces then [surfaces[n - 1]] else [];
      assert (if pressed[n - 1] && (n - 1) in surfaces then [surfaces[n - 1]] else []) == tail;
      UnmappedButtonIgnoredUpTo(buttons, surfaces, i, b, n - 1);
      assert ButtonOverlaysUpTo(pressed, surfaces, n) == ButtonOverlaysUpTo(pressed, surfaces, n - 1) + tail;
    }
  }

  lemma UnmappedButtonIgnored(buttons: seq<bool>, surfaces: map<int, Surface>, i: int, b: bool)
    requires 0 <= i < |buttons| && i !in surfaces
    ensures ButtonOverlays(buttons[i := b], surfaces) == ButtonOverlays(buttons, surfaces)
  {
    UnmappedButtonIgnoredUpTo(buttons, surfaces, i, b, |buttons|);
  }

  // ---------------------------------------------------------------------
  // Hats
  // ---------------------------------------------------------------------

  /** The hat has a non-zero vertical component with a surface of its own. */
  predicate VerticalPart(hat: Hat, surfaces: map<Hat, Surface>) {
    hat.1 != 0 && (0, hat.1) in surfaces
  }

  /** The hat has a non-zero horizontal component with a surface of its own. */
  predicate HorizontalPart(hat: Hat, surfaces: map<Hat, Surface>) {
    hat.0 != 0 && (hat.0, 0) in surfaces
  }

  /** One iteration of get_hat_overlays: a centred hat contributes nothing;
      an exact entry wins alone; otherwise the vertical part (0, y) and then
      the horizontal part (x, 0) are looked up. */
  function HatOverlay(hat: Hat, surfaces: map<Hat, Surface>): (r: seq<Surface>)
    ensures hat == (0, 0) ==> r == []
    ensures hat != (0, 0) && hat in surfaces ==> r == [surfaces[hat]]
    ensures |r| <= 2
    ensures forall o :: o in r ==> o in surfaces.Values
    // a cardinal state without an exact entry has nothing to split into
    ensures (hat.0 == 0 || hat.1 == 0) && hat !in surfaces ==> r == []
    ensures hat !in surfaces ==>
              (|r| == 2 <==> hat.0 != 0 && hat.1 != 0 && (0, hat.1) in surfaces && (hat.0, 0) in surfaces)
    ensures hat !in surfaces && |r| == 2 ==> r == [surfaces[(0, hat.1)], surfaces[(hat.0, 0)]]
    // an unmapped non-centred state draws each of its mapped non-zero parts,
    // the vertical one first
    ensures hat != (0, 0) && hat !in surfaces ==>
              |r| == (if VerticalPart(hat, surfaces) then 1 else 0) + (if HorizontalPart(hat, surfaces) then 1 else 0)
    ensures hat != (0, 0) && hat !in surfaces && VerticalPart(hat, surfaces) ==> r[0] == surfaces[(0, hat.1)]
    ensures hat != (0, 0) && hat !in surfaces && HorizontalPart(hat, surfaces) ==> r[|r| - 1] == surfaces[(hat.0, 0)]
  {
    if hat == (0, 0) then []
    else if hat in surfaces then [surfaces[hat]]
    else LookupIf(hat.1 != 0, surfaces, (0, hat.1)) + LookupIf(hat.0 != 0, surfaces, (hat.0, 0))
  }

  /** get_hat_overlays: the per-hat results concatenated in hat index order. */
  function HatOverlays(hats: seq<Hat>, surfaces: map<Hat, Surface>): (r: seq<Surface>)
    ensures |r| <= 2 * |hats|
    ensures (forall h :: 0 <= h < |hats| ==> hats[h] == (0, 0)) ==> r == []
    ensures forall o :: o in r ==> o in surfaces.Values
    ensures surfaces == map[] ==> r == []
    // a single hat draws exactly what the per-hat resolver gives
    ensures |hats| == 1 ==> r == HatOverlay(hats[0], surfaces)
  {
    if |hats| == 0 then []
    else HatOverlays(hats[..|hats| - 1], surfaces) + HatOverlay(hats[|hats| - 1], surfaces)
  }

  /** Hats are resolved independently: a snapshot's hat list can be split
      anywhere and the results concatenated. */
  lemma {:induction false} HatOverlaysAppend(a: seq<Hat>, b: seq<Hat>, surfaces: map<Hat, Surface>)
    ensures HatOverlays(a + b, surfaces) == HatOverlays(a, surfaces) + HatOverlays(b, surfaces)
    decreases |b|
  {
    if |b| == 0 {
      assert a + b == a;
    } else {
      var b' := b[..|b| - 1];
      var last := b[|b| - 1];
      assert (a + b)[..|a + b| - 1] == a + b';
      assert (a + b)[|a + b| - 1] == last;
      calc {
        HatOverlays(a + b, surfaces);
        HatOverlays(a + b', surfaces) + HatOverlay(last, surfaces);
        { HatOverlaysAppend(a, b', surfaces); }
        HatOverlays(a, surfaces) + HatOverlays(b', surfaces) + HatOverlay(last, surfaces);
        HatOverlays(a, surfaces) + (HatOverlays(b', surfaces) + HatOverlay(last, surfaces));
        HatOverlays(a, surfaces) + HatOverlays(b, surfaces);
      }
    }
  }

  /** The worked example: a (1, 1) diagonal with only the cardinals mapped is
      decomposed into [up, right]. */
  lemma HatDiagonalDecomposes(up: Surface, right: Surface)
    ensures HatOverlays([(1, 1)], map[(0, 1) := up, (1, 0) := right]) == [up, right]
  {
    var s := map[(0, 1) := up, (1, 0) := right];
    assert [(1, 1)][..0] == [];
    assert (1, 1) !in s;
  }

  // ---------------------------------------------------------------------
  // Axis-emulated d-pad
  // ---------------------------------------------------------------------

  /** An axis d-pad config dict. Absent keys are None; otherKeys records
      whether the dict holds keys no reader looks at (so that an empty dict,
      which Python treats as false, can be told apart). */
  datatype DpadConfig = DpadConfig(
    xAxis: Option<int>,
    yAxis: Option<int>,
    threshold: Option<real>,
    invertY: Option<bool>,
    overlays: Option<map<string, Surface>>,
    otherKeys: bool)
  {
    predicate Truthy() {
      xAxis.Some? || yAxis.Some? || threshold.Some? || invertY.Some? || overlays.Some? || otherKeys
    }
    function X(): int { xAxis.GetOr(0) }
    function Y(): int { yAxis.GetOr(1) }
    function Threshold(): real { threshold.GetOr(0.5) }
    function InvertY(): bool { invertY.GetOr(false) }
  }

  predicate DpadEnabled(cfg: Option<DpadConfig>, surfaces: map<string, Surface>) {
    cfg.Some? && cfg.value.Truthy() && surfaces != map[]
  }

  /** The resolver reads both configured axes; pygame raises on a missing one. */
  predicate DpadReadable(axes: seq<real>, cfg: Option<DpadConfig>, surfaces: map<string, Surface>) {
    DpadEnabled(cfg, surfaces) ==> 0 <= cfg.value.X() < |axes| && 0 <= cfg.value.Y() < |axes|
  }

  datatype DpadFlags = DpadFlags(left: bool, right: bool, up: bool, down: bool)

  /** The four inclusive threshold comparisons, after the optional y flip. */
  function Flags(x: real, y: real, th: real, invertY: bool): (f: DpadFlags)
    // each direction is on exactly when its reading reaches the threshold,
    // the vertical ones on the y reading negated when invertY is set
    ensures f.left <==> x <= -th
    ensures f.right <==> x >= th
    ensures f.up <==> (if invertY then -y else y) <= -th
    ensures f.down <==> (if invertY then -y else y) >= th
    // with a positive threshold opposite directions exclude each other
    ensures th > 0.0 ==> !(f.left && f.right) && !(f.up && f.down)
  {
    var y' := if invertY then -y else y;
    DpadFlags(x <= -th, x >= th, y' <= -th, y' >= th)
  }

  /** The eight keys of the "overlays" dict the resolver looks up. */
  datatype DpadKey = Up | Down | Left | Right | UpLeft | UpRight | DownLeft | DownRight
  {
    /** The key as written in a profile. */
    function Name(): string {
      match this
      case Up => "up"
      case Down => "down"
      case Left => "left"
      case Right => "right"
      case UpLeft => "up_left"
      case UpRight => "up_right"
      case DownLeft => "down_left"
      case DownRight => "down_right"
    }

    predicate IsDiagonal() {
      UpLeft? || UpRight? || DownLeft? || DownRight?
    }

    /** Whether this is a cardinal direction whose flag is set. */
    predicate CardinalOn(f: DpadFlags) {
      (Up? && f.up) || (Down? && f.down) || (Left? && f.left) || (Right? && f.right)
    }

    /** Position of a cardinal in the fixed order up, down, left, right. */
    function Rank(): int {
      match this
      case Up => 0
      case Down => 1
      case Left => 2
      case _ => 3
    }
  }

  /** The other observed policy: every active cardinal that has a surface,
      in the order up, down, left, right, ignoring diagonals. */
  function CardinalUnion(f: DpadFlags, surfaces: map<string, Surface>): (keys: seq<DpadKey>)
    // exactly the active cardinals that have a surface ...
    ensures Up in keys <==> f.up && Up.Name() in surfaces
    ensures Down in keys <==> f.down && Down.Name() in surfaces
    ensures Left in keys <==> f.left && Left.Name() in surfaces
    ensures Right in keys <==> f.right && Right.Name() in surfaces
    ensures forall k :: k in keys ==> !k.IsDiagonal()
    ensures forall k :: k in keys ==> k.Name() in surfaces
    // ... each once, in the order up, down, left, right
    ensures RankSorted(keys)
    ensures |keys| == Count(f.up && Up.Name() in surfaces) + Count(f.down && Down.Name() in surfaces)
                      + Count(f.left && Left.Name() in surfaces) + Count(f.right && Right.Name() in surfaces)
  {
    Pick(f.up && Up.Name() in surfaces, f.down && Down.Name() in surfaces,
         f.left && Left.Name() in surfaces, f.right && Right.Name() in surfaces)
  }

  function Count(b: bool): nat {
    if b then 1 else 0
  }

  /** Each key ranks strictly before the next one. */
  predicate RankSorted(keys: seq<DpadKey>) {
    forall i :: 0 <= i < |keys| - 1 ==> keys[i].Rank() < keys[i + 1].Rank()
  }

  /** Up, Down, Left, Right, each kept when its flag is given. */
  function Pick(u: bool, d: bool, l: bool, r: bool): (keys: seq<DpadKey>)
    ensures (Up in keys <==> u) && (Down in keys <==> d) && (Left in keys <==> l) && (Right in keys <==> r)
    ensures forall k :: k in keys ==> (k == Up && u) || (k == Down && d) || (k == Left && l) || (k == Right && r)
    ensures forall k :: k in keys ==> !k.IsDiagonal()
    ensures RankSorted(keys)
    ensures |keys| == Count(u) + Count(d) + Count(l) + Count(r)
  {
    var rest := PickDownOn(d, l, r);
    if u then
      assert |rest| > 0 ==> rest[0] in rest;
      [Up] + rest
    else rest
  }

  function PickDownOn(d: bool, l: bool, r: bool): (keys: seq<DpadKey>)
    ensures (Down in keys <==> d) && (Left in keys <==> l) && (Right in keys <==> r) && Up !in keys
    ensures forall k :: k in keys ==> (k == Down && d) || (k == Left && l) || (k == Right && r)
    ensures forall k :: k in keys ==> !k.IsDiagonal()
    ensures RankSorted(keys)
    ensures |keys| == Count(d) + Count(l) + Count(r)
  {
    var rest := PickLeftOn(l, r);
    if d then
      assert |rest| > 0 ==> rest[0] in rest;
      [Down] + rest
    else rest
  }

  function PickLeftOn(l: bool, r: bool): (keys: seq<DpadKey>)
    ensures (Left in keys <==> l) && (Right in keys <==> r) && Up !in keys && Down !in keys
    ensures forall k :: k in keys ==> (k == Left && l) || (k == Right && r)
    ensures forall k :: k in keys ==> !k.IsDiagonal()
    ensures RankSorted(keys)
    ensures |keys| == Count(l) + Count(r)
  {
    if l && r then [Left, Right] else if l then [Left] else if r then [Right] else []
  }

  /** Each diagonal is on when both of its directions are active and it
      has a surface. */
  predicate UpLeftOn(f: DpadFlags, surfaces: map<string, Surface>) {
    f.up && f.left && "up_left" in surfaces
  }
  predicate UpRightOn(f: DpadFlags, surfaces: map<string, Surface>) {
    f.up && f.right && "up_right" in surfaces
  }
  predicate DownLeftOn(f: DpadFlags, surfaces: map<string, Surface>) {
    f.down && f.left && "down_left" in surfaces
  }
  predicate DownRightOn(f: DpadFlags, surfaces: map<string, Surface>) {
    f.down && f.right && "down_right" in surfaces
  }

  /** Diagonal-preferring selection of d-pad surface keys. */
  function DpadKeys(f: DpadFlags, surfaces: map<string, Surface>): (keys: seq<DpadKey>)
    ensures forall k :: k in keys ==> k.Name() in surfaces
    // precedence: the first diagonal in the order up_left, up_right,
    // down_left, down_right that is on is chosen alone
    ensures keys == [UpLeft] <==> UpLeftOn(f, surfaces)
    ensures keys == [UpRight] <==> !UpLeftOn(f, surfaces) && UpRightOn(f, surfaces)
    ensures keys == [DownLeft] <==>
              !UpLeftOn(f, surfaces) && !UpRightOn(f, surfaces) && DownLeftOn(f, surfaces)
    ensures keys == [DownRight] <==>
              !UpLeftOn(f, surfaces) && !UpRightOn(f, surfaces)
              && !DownLeftOn(f, surfaces) && DownRightOn(f, surfaces)
    // with no diagonal on, the active cardinals that have surfaces
    ensures !UpLeftOn(f, surfaces) && !UpRightOn(f, surfaces)
            && !DownLeftOn(f, surfaces) && !DownRightOn(f, surfaces)
            ==> keys == CardinalUnion(f, surfaces)
    // either exactly one diagonal, or no diagonal and the cardinal union
    ensures (|keys| == 1 && keys[0].IsDiagonal()) || keys == CardinalUnion(f, surfaces)
    // a diagonal is chosen iff one of the four active pairs has a surface
    ensures (exists k :: k in keys && k.IsDiagonal()) <==>
              UpLeftOn(f, surfaces) || UpRightOn(f, surfaces) || DownLeftOn(f, surfaces) || DownRightOn(f, surfaces)
  {
    if UpLeftOn(f, surfaces) then [UpLeft]
    else if UpRightOn(f, surfaces) then [UpRight]
    else if DownLeftOn(f, surfaces) then [DownLeft]
    else if DownRightOn(f, surfaces) then [DownRight]
    else
      var c := CardinalUnion(f, surfaces);
      assert UpLeft !in c && UpRight !in c && DownLeft !in c && DownRight !in c;
      assert |c| == 1 ==> c[0] in c;
      c
  }

  function Lookup(surfaces: map<string, Surface>, keys: seq<DpadKey>): (r: seq<Surface>)
    requires forall k :: k in keys ==> k.Name() in surfaces
    ensures |r| == |keys|
    ensures forall i :: 0 <= i < |r| ==> r[i] == surfaces[keys[i].Name()]
  {
    if |keys| == 0 then [] else [surfaces[keys[0].Name()]] + Lookup(surfaces, keys[1..])
  }

  /** The flags get_axis_dpad_overlays computes for a snapshot. */
  function DpadFlagsOf(axes: seq<real>, cfg: DpadConfig): DpadFlags
    requires 0 <= cfg.X() < |axes| && 0 <= cfg.Y() < |axes|
  {
    Flags(axes[cfg.X()], axes[cfg.Y()], cfg.Threshold(), cfg.InvertY())
  }

  /** get_axis_dpad_overlays. */
  function AxisDpadOverlays(axes: seq<real>, cfg: Option<DpadConfig>, surfaces: map<string, Surface>): (r: seq<Surface>)
    requires DpadReadable(axes, cfg, surfaces)
    ensures !DpadEnabled(cfg, surfaces) ==> r == []
    // an enabled d-pad draws the surfaces of the selected keys, in order
    ensures DpadEnabled(cfg, surfaces) ==>
              var keys := DpadKeys(DpadFlagsOf(axes, cfg.value), surfaces);
              |r| == |keys| && forall i :: 0 <= i < |r| ==> r[i] == surfaces[keys[i].Name()]
    ensures |r| <= 4
    ensures forall o :: o in r ==> o in surfaces.Values
  {
    if DpadEnabled(cfg, surfaces) then
      Lookup(surfaces, DpadKeys(DpadFlagsOf(axes, cfg.value), surfaces))
    else []
  }

  /** With a positive threshold opposite directions exclude each other, so at
      most one vertical and one horizontal surface are drawn. */
  lemma DpadAtMostTwo(axes: seq<real>, cfg: Option<DpadConfig>, surfaces: map<string, Surface>)
    requires DpadReadable(axes, cfg, surfaces)
    requires cfg.Some? && cfg.value.Threshold() > 0.0
    ensures |AxisDpadOverlays(axes, cfg, surfaces)| <= 2
  {
    if DpadEnabled(cfg, surfaces) {
      var f := DpadFlagsOf(axes, cfg.value);
      assert !(f.left && f.right) && !(f.up && f.down);
    }
  }

  /** A d-pad config reads each key it has and falls back to the defaults
      for the others: x_axis 0, y_axis 1, threshold 0.5, no y flip. */
  lemma DpadConfigDefaults(c: DpadConfig)
    ensures c.X() == (if c.xAxis.Some? then c.xAxis.value else 0)
    ensures c.Y() == (if c.yAxis.Some? then c.yAxis.value else 1)
    ensures c.Threshold() == (if c.threshold.Some? then c.threshold.value else 0.5)
    ensures c.InvertY() == (c.invertY.Some? && c.invertY.value)
    ensures c.xAxis.None? && c.yAxis.None? && c.threshold.None? && c.invertY.None? ==>
              c.X() == 0 && c.Y() == 1 && c.Threshold() == 0.5 && !c.InvertY()
  {
  }

  /** The comparisons are inclusive: a reading exactly at -threshold is
      left, one strictly inside (-threshold, threshold) is neither. */
  lemma DpadHorizontalBoundary(x: real, y: real, th: real, inv: bool)
    requires th > 0.0
    ensures x == -th ==> Flags(x, y, th, inv).left
    ensures x == th ==> Flags(x, y, th, inv).right
    ensures -th < x < th ==> !Flags(x, y, th, inv).left && !Flags(x, y, th, inv).right
  {
  }

  /** The vertical comparisons are inclusive too, on the possibly flipped
      reading: y' = -threshold is up, y' = threshold is down. */
  lemma DpadVerticalBoundary(x: real, y: real, th: real, inv: bool)
    requires th > 0.0
    ensures var y' := if inv then -y else y;
            && (y' == -th ==> Flags(x, y, th, inv).up)
            && (y' == th ==> Flags(x, y, th, inv).down)
            && (-th < y' < th ==> !Flags(x, y, th, inv).up && !Flags(x, y, th, inv).down)
  {
  }

  /** A stick pushed straight up (the horizontal reading inside the
      threshold) draws exactly the up surface. */
  lemma DpadPushedUpDrawsUp(axes: seq<real>, cfg: DpadConfig, surfaces: map<string, Surface>)
    requires DpadReadable(axes, Some(cfg), surfaces) && DpadEnabled(Some(cfg), surfaces)
    requires cfg.Threshold() > 0.0 && "up" in surfaces
    requires Abs(axes[cfg.X()]) < cfg.Threshold()
    requires (if cfg.InvertY() then -axes[cfg.Y()] else axes[cfg.Y()]) <= -cfg.Threshold()
    ensures AxisDpadOverlays(axes, Some(cfg), surfaces) == [surfaces["up"]]
  {
    var f := DpadFlagsOf(axes, cfg);
    assert f.up && !f.down && !f.left && !f.right;
    var keys := CardinalUnion(f, surfaces);
    assert Up in keys;
    assert forall k :: k in keys ==> k == Up;
    assert keys == [Up];
  }

  /** A stick resting inside the threshold square draws nothing. */
  lemma DpadRestingIsEmpty(axes: seq<real>, cfg: DpadConfig, surfaces: map<string, Surface>)
    requires DpadReadable(axes, Some(cfg), surfaces)
    requires DpadEnabled(Some(cfg), surfaces)
    requires Abs(axes[cfg.X()]) < cfg.Threshold() && Abs(axes[cfg.Y()]) < cfg.Threshold()
    ensures AxisDpadOverlays(axes, Some(cfg), surfaces) == []
  {
    var f := DpadFlagsOf(axes, cfg);
    assert !f.left && !f.right && !f.up && !f.down;
  }

  /** invert_y is exactly a negation of the y reading: a config that inverts
      sees the same overlays as one that does not, fed the negated axis. */
  lemma DpadInvertYNegates(axes: seq<real>, cfg: DpadConfig, surfaces: map<string, Surface>)
    requires 0 <= cfg.X() < |axes| && 0 <= cfg.Y() < |axes|
    requires cfg.X() != cfg.Y()
    ensures var plain := cfg.(invertY := Some(false), otherKeys := true);
            var flipped := axes[cfg.Y() := -axes[cfg.Y()]];
            DpadReadable(flipped, Some(plain), surfaces) &&
            AxisDpadOverlays(axes, Some(cfg.(invertY := Some(true), otherKeys := true)), surfaces)
            == AxisDpadOverlays(flipped, Some(plain), surfaces)
  {
    var inverted := cfg.(invertY := Some(true), otherKeys := true);
    var plain := cfg.(invertY := Some(false), otherKeys := true);
    var flipped := axes[cfg.Y() := -axes[cfg.Y()]];
    assert flipped[cfg.X()] == axes[cfg.X()];
    assert DpadFlagsOf(axes, inverted) == DpadFlagsOf(flipped, plain);
  }

  /** Diagonal precedence: up_left wins over every other choice whenever up
      and left are both active and it has a surface. */
  lemma DpadUpLeftFirst(f: DpadFlags, surfaces: map<string, Surface>)
    requires f.up && f.left && "up_left" in surfaces
    ensures DpadKeys(f, surfaces) == [UpLeft]
  {
  }

  /** A profile that defines only cardinal surfaces (no diagonal keys) sees
      the two policies agree. */
  lemma DpadCardinalOnlyIsUnion(f: DpadFlags, surfaces: map<string, Surface>)
    requires "up_left" !in surfaces && "up_right" !in surfaces
    requires "down_left" !in surfaces && "down_right" !in surfaces
    ensures DpadKeys(f, surfaces) == CardinalUnion(f, surfaces)
  {
  }

  // ---------------------------------------------------------------------
  // C-buttons: axis threshold crossings as virtual buttons
  // ---------------------------------------------------------------------

  /** One direction entry {"axis": a, "direction": d, "overlay": file}. */
  datatype CButtonEntry = CButtonEntry(axis: int, direction: int, overlay: Surface)

  /** The c_buttons dict: its non-threshold items in insertion order, and
      its "threshold" value if present. */
  datatype CButtonGroup = CButtonGroup(entries: seq<(string, CButtonEntry)>, threshold: Option<real>)
  {
    predicate Truthy() {
      |entries| > 0 || threshold.Some?
    }
  }

  predicate IsDirection(k: string) {
    k == "up" || k == "down" || k == "left" || k == "right"
  }

  /** Strict threshold crossing in the entry's direction. */
  predicate Crossed(e: CButtonEntry, v: real, th: real) {
    (e.direction == -1 && v < -th) || (e.direction == 1 && v > th)
  }

  /** What the resolver needs in order not to raise on entry i: its axis
      exists, the threshold exists whenever it is consulted, and an active
      direction has a loaded surface. */
  predicate CEntryReadable(axes: seq<real>, g: CButtonGroup, surfaces: map<string, Surface>, i: int)
    requires 0 <= i < |g.entries|
  {
    var (k, e) := g.entries[i];
    IsDirection(k) ==>
      0 <= e.axis < |axes|
      && (e.direction == -1 || e.direction == 1 ==> g.threshold.Some?)
      && (g.threshold.Some? && Crossed(e, axes[e.axis], g.threshold.value) ==> k in surfaces)
  }

  predicate CGroupReadable(axes: seq<real>, g: CButtonGroup, surfaces: map<string, Surface>) {
    forall i {:trigger g.entries[i]} :: 0 <= i < |g.entries| ==> CEntryReadable(axes, g, surfaces, i)
  }

  predicate CButtonsReadable(axes: seq<real>, g: Option<CButtonGroup>, surfaces: map<string, Surface>) {
    g.Some? ==> CGroupReadable(axes, g.value, surfaces)
  }

  predicate CEntryActive(axes: seq<real>, g: CButtonGroup, i: int)
    requires 0 <= i < |g.entries|
  {
    var (k, e) := g.entries[i];
    IsDirection(k) && 0 <= e.axis < |axes| && g.threshold.Some? && Crossed(e, axes[e.axis], g.threshold.value)
  }

  /** Reference definition: the indices among the first n entries that are
      active, exactly those, in insertion order. */
  function ActiveEntries(axes: seq<real>, g: CButtonGroup, n: nat): (idx: seq<int>)
    requires n <= |g.entries|
    ensures |idx| <= n
    ensures forall k :: 0 <= k < |idx| ==> 0 <= idx[k] < n && CEntryActive(axes, g, idx[k])
    ensures forall i :: 0 <= i < n && CEntryActive(axes, g, i) ==> i in idx
    ensures forall j, k :: 0 <= j < k < |idx| ==> idx[j] < idx[k]
  {
    if n == 0 then []
    else
      var rest := ActiveEntries(axes, g, n - 1);
      if CEntryActive(axes, g, n - 1) then rest + [n - 1] else rest
  }

  /** The loop of get_cbutton_overlays over the first n dict items. */
  function CButtonOverlaysUpTo(axes: seq<real>, g: CButtonGroup, surfaces: map<string, Surface>, n: nat): (r: seq<Surface>)
    requires n <= |g.entries|
    requires CGroupReadable(axes, g, surfaces)
    ensures var idx := ActiveEntries(axes, g, n);
            |r| == |idx| && forall k :: 0 <= k < |r| ==> r[k] == surfaces[g.entries[idx[k]].0]
  {
    if n == 0 then []
    else
      var rest := CButtonOverlaysUpTo(axes, g, surfaces, n - 1);
      var (k, e) := g.entries[n - 1];
      assert CEntryReadable(axes, g, surfaces, n - 1);
      if !IsDirection(k) then rest
      else
        var v := axes[e.axis];
        if e.direction == -1 && v < -g.threshold.value then rest + [surfaces[k]]
        else if e.direction == 1 && v > g.threshold.value then rest + [surfaces[k]]
        else rest
  }

  /** get_cbutton_overlays, given the value of the profile's top-level
      "c_buttons" key (None when the key is absent). */
  function CButtonOverlays(axes: seq<real>, g: Option<CButtonGroup>, surfaces: map<string, Surface>): (r: seq<Surface>)
    requires CButtonsReadable(axes, g, surfaces)
    ensures g.None? ==> r == []
    ensures g.Some? ==>
              var idx := ActiveEntries(axes, g.value, |g.value.entries|);
              |r| == |idx| && forall k :: 0 <= k < |r| ==> r[k] == surfaces[g.value.entries[idx[k]].0]
    ensures g.Some? ==> |r| <= |g.value.entries|
    ensures forall o :: o in r ==> o in surfaces.Values
  {
    if g.Some? then
      var r := CButtonOverlaysUpTo(axes, g.value, surfaces, |g.value.entries|);
      assert forall k :: 0 <= k < |r| ==> r[k] in surfaces.Values by {
        var idx := ActiveEntries(axes, g.value, |g.value.entries|);
        forall k | 0 <= k < |r| ensures r[k] in surfaces.Values {
          assert g.value.entries[idx[k]].0 in surfaces;
        }
      }
      r
    else []
  }

  /** Entries are independent virtual buttons: any two active entries are
      both drawn, in dict order. */
  lemma CButtonsIndependent(axes: seq<real>, g: CButtonGroup, surfaces: map<string, Surface>, i: int, j: int)
    requires CGroupReadable(axes, g, surfaces)
    requires 0 <= i < j < |g.entries|
    requires CEntryActive(axes, g, i) && CEntryActive(axes, g, j)
    ensures var r := CButtonOverlays(axes, Some(g), surfaces);
            exists p, q :: 0 <= p < q < |r| && r[p] == surfaces[g.entries[i].0] && r[q] == surfaces[g.entries[j].0]
  {
    var r := CButtonOverlays(axes, Some(g), surfaces);
    var idx := ActiveEntries(axes, g, |g.entries|);
    assert i in idx && j in idx;
    var p :| 0 <= p < |idx| && idx[p] == i;
    var q :| 0 <= q < |idx| && idx[q] == j;
  }

  /** Every active entry is drawn. */
  lemma ActiveEntryIsDrawn(axes: seq<real>, g: CButtonGroup, surfaces: map<string, Surface>, i: int)
    requires CGroupReadable(axes, g, surfaces)
    requires 0 <= i < |g.entries| && CEntryActive(axes, g, i)
    ensures surfaces[g.entries[i].0] in CButtonOverlays(axes, Some(g), surfaces)
  {
    var r := CButtonOverlays(axes, Some(g), surfaces);
    var idx := ActiveEntries(axes, g, |g.entries|);
    assert i in idx;
    var p :| 0 <= p < |idx| && idx[p] == i;
    assert r[p] == surfaces[g.entries[i].0];
  }

  /** The comparisons are strict: a reading exactly at the threshold does
      not activate the entry. */
  lemma CButtonBoundaryIsInactive(axes: seq<real>, g: CButtonGroup, i: int)
    requires 0 <= i < |g.entries| && g.threshold.Some?
    requires 0 <= g.entries[i].1.axis < |axes|
    requires Abs(axes[g.entries[i].1.axis]) <= g.threshold.value
    ensures !CEntryActive(axes, g, i)
  {
  }

  /** Keys other than up/down/left/right are never active, so the group's
      own "threshold" item (and any other stray key) is skipped. */
  lemma CButtonNonDirectionSkipped(axes: seq<real>, g: CButtonGroup, i: int)
    requires 0 <= i < |g.entries| && !IsDirection(g.entries[i].0)
    ensures !CEntryActive(axes, g, i)
  {
  }
}
