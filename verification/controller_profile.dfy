/**
 ControllerProfile (controller_profile.py): selects the configuration blocks
 and loaded surfaces once, then per frame composes the resolvers in the
 order buttons, axis d-pad, c-buttons, hats, and places each stick sprite.
 */
module ControllerProfile {
  import opened Types
  import opened OverlayLogic
  import opened ProfileSchema

  /** The state a ControllerProfile holds after construction. */
  datatype Session = Session(
    profile: Profile,
    buttonSurfaces: map<int, Surface>,
    hatSurfaces: map<Key, Surface>,
    dpadCfg: Option<DpadConfig>,
    dpadSurfaces: map<string, Surface>,     // None and {} are both false in Python
    cbuttonCfg: Option<CButtonGroup>,
    cbuttonSurfaces: map<string, Surface>,
    stickCfgs: map<string, StickConfig>,
    stickSurfaces: map<string, Surface>)

  predicate IsStickEntry(axes: Axes, name: string) {
    name in axes.others && EndsWith(name, "_stick") && axes.others[name].Dict?
  }

  /** The stick loop of __init__: the axes entries whose name ends in
      "_stick" and whose value is a dict, each with its own config. */
  function StickConfigs(axes: Axes): (r: map<string, StickConfig>)
    ensures forall name :: name in r <==> IsStickEntry(axes, name)
    ensures forall name :: name in r ==> name in axes.others && axes.others[name].Dict? && r[name] == axes.others[name].cfg
  {
    map name | name in axes.others && IsStickEntry(axes, name) :: axes.others[name].cfg
  }

  /** The sprite lookup of the stick loop: a selected stick keeps the
      sprite the loader found for it, and no other sprite is kept. */
  function StickSprites(sticks: map<string, StickConfig>, loaded: map<string, Surface>): (r: map<string, Surface>)
    ensures forall name :: name in r <==> name in sticks && name in loaded
    ensures forall name :: name in r ==> r[name] == loaded[name]
  {
    map name | name in sticks && name in loaded :: loaded[name]
  }

  predicate CfgTruthy(g: Option<CButtonGroup>) {
    g.Some? && g.value.Truthy()
  }

  /** ControllerProfile.__init__, given what the asset loader returns for
      each block. */
  function NewSession(profile: Profile, assets: Assets): (s: Session)
    ensures s.profile == profile
    // button and hat tables are what the loader returned
    ensures s.buttonSurfaces == assets.buttons
    ensures s.hatSurfaces == assets.hats
    ensures s.dpadCfg == AxesOf(profile).dpad && s.cbuttonCfg == AxesOf(profile).cButtons
    // a block with a non-empty config gets the loader's table, any other none
    ensures s.dpadCfg.Some? && s.dpadCfg.value.Truthy() ==> s.dpadSurfaces == assets.dpad
    ensures !(s.dpadCfg.Some? && s.dpadCfg.value.Truthy()) ==> s.dpadSurfaces == map[]
    ensures CfgTruthy(s.cbuttonCfg) ==> s.cbuttonSurfaces == assets.cButtons
    ensures !CfgTruthy(s.cbuttonCfg) ==> s.cbuttonSurfaces == map[]
    // the sticks are the "*_stick" dict entries of the axes block
    ensures s.stickCfgs == StickConfigs(AxesOf(profile))
    // a sprite is kept only for a selected stick, and is the loaded one
    ensures s.stickSurfaces == StickSprites(s.stickCfgs, assets.sticks)
  {
    var axes := AxesOf(profile);
    var sticks := StickConfigs(axes);
    Session(
      profile,
      assets.buttons,
      assets.hats,
      axes.dpad,
      if axes.dpad.Some? && axes.dpad.value.Truthy() then assets.dpad else map[],
      axes.cButtons,
      if CfgTruthy(axes.cButtons) then assets.cButtons else map[],
      sticks,
      StickSprites(sticks, assets.sticks))
  }

  /** The sprites of a new session: one per selected "*_stick" entry that
      the loader found an image for, and that image. */
  lemma NewSessionSticks(profile: Profile, assets: Assets)
    ensures var s := NewSession(profile, assets);
            && s.stickSurfaces.Keys <= s.stickCfgs.Keys
            && (forall name :: name in s.stickSurfaces <==> IsStickEntry(AxesOf(profile), name) && name in assets.sticks)
            && (forall name :: name in s.stickSurfaces ==> s.stickSurfaces[name] == assets.sticks[name])
  {
  }

  predicate CButtonsGate(s: Session) {
    CfgTruthy(s.cbuttonCfg) && s.cbuttonSurfaces != map[]
  }

  /** What get_active_overlays needs in order not to raise. Note that the
      c-button resolver is handed the whole profile, so it reads the
      top-level "c_buttons" key, not the "axes" one the gate tested. */
  predicate ActiveReadable(s: Session, axes: seq<real>) {
    && DpadReadable(axes, s.dpadCfg, s.dpadSurfaces)
    && (CButtonsGate(s) ==> CButtonsReadable(axes, s.profile.cButtons, s.cbuttonSurfaces))
  }

  /** The d-pad step of get_active_overlays: the session's own truth test
      on the config and table repeats the resolver's, so the part is exactly
      the resolver's output. */
  function DpadPart(s: Session, snap: Snapshot): (r: seq<Surface>)
    requires DpadReadable(snap.axes, s.dpadCfg, s.dpadSurfaces)
    ensures r == AxisDpadOverlays(snap.axes, s.dpadCfg, s.dpadSurfaces)
    ensures forall o :: o in r ==> o in s.dpadSurfaces.Values
  {
    if s.dpadCfg.Some? && s.dpadCfg.value.Truthy() && s.dpadSurfaces != map[] then
      AxisDpadOverlays(snap.axes, s.dpadCfg, s.dpadSurfaces)
    else []
  }

  function CButtonPart(s: Session, snap: Snapshot): (r: seq<Surface>)
    requires ActiveReadable(s, snap.axes)
    ensures !CButtonsGate(s) || s.profile.cButtons.None? ==> r == []
    // past the gate, the resolver runs on the top-level "c_buttons" value
    ensures CButtonsGate(s) ==> r == CButtonOverlays(snap.axes, s.profile.cButtons, s.cbuttonSurfaces)
    ensures forall o :: o in r ==> o in s.cbuttonSurfaces.Values
  {
    if CButtonsGate(s) then CButtonOverlays(snap.axes, s.profile.cButtons, s.cbuttonSurfaces) else []
  }

  /** The hat step of get_active_overlays: skipping an empty table changes
      nothing, so the part is the hat resolver over the loaded table. */
  function HatPart(s: Session, snap: Snapshot): (r: seq<Surface>)
    ensures r == HatOverlays(snap.hats, HatTable(s.hatSurfaces))
    ensures forall o :: o in r ==> o in s.hatSurfaces.Values
  {
    if s.hatSurfaces != map[] then HatOverlays(snap.hats, HatTable(s.hatSurfaces))
    else
      assert HatTable(s.hatSurfaces) == map[];
      []
  }

  predicate FromLoadedTable(s: Session, o: Surface) {
    o in s.buttonSurfaces.Values || o in s.dpadSurfaces.Values
    || o in s.cbuttonSurfaces.Values || o in s.hatSurfaces.Values
  }

  /** get_active_overlays. */
  function ActiveOverlays(s: Session, snap: Snapshot): (r: seq<Surface>)
    requires ActiveReadable(s, snap.axes)
    // buttons are drawn first and hats last
    ensures var b := ButtonOverlays(snap.buttons, s.buttonSurfaces);
            |b| <= |r| && r[..|b|] == b
    ensures var h := HatPart(s, snap);
            |h| <= |r| && r[|r| - |h|..] == h
    ensures s.profile.cButtons.None? ==>
              r == ButtonOverlays(snap.buttons, s.buttonSurfaces) + DpadPart(s, snap) + HatPart(s, snap)
    // the whole frame: buttons, d-pad, c-buttons, hats, and nothing else
    ensures r == ButtonOverlays(snap.buttons, s.buttonSurfaces) + DpadPart(s, snap)
                 + CButtonPart(s, snap) + HatPart(s, snap)
  {
    var b := ButtonOverlays(snap.buttons, s.buttonSurfaces);
    var d := DpadPart(s, snap);
    var c := CButtonPart(s, snap);
    var h := HatPart(s, snap);
    Stack4(b, d, c, h)
  }

  /** Nothing but loaded surfaces is ever drawn. */
  lemma ActiveOverlaysAreLoaded(s: Session, snap: Snapshot)
    requires ActiveReadable(s, snap.axes)
    ensures forall o :: o in ActiveOverlays(s, snap) ==> FromLoadedTable(s, o)
  {
    var b := ButtonOverlays(snap.buttons, s.buttonSurfaces);
    var d := DpadPart(s, snap);
    var c := CButtonPart(s, snap);
    var h := HatPart(s, snap);
    assert ActiveOverlays(s, snap) == Stack4(b, d, c, h);
    forall o | o in Stack4(b, d, c, h) ensures FromLoadedTable(s, o) {
      assert o in b || o in d || o in c || o in h;
    }
  }

  // ---------------------------------------------------------------------
  // Stick placement
  // ---------------------------------------------------------------------

  datatype StickRect = NoRect | Rect(sprite: Surface, center: (int, int))

  predicate StickShown(s: Session, name: string) {
    name in s.stickCfgs && s.stickCfgs[name].Truthy() && name in s.stickSurfaces
  }

  /** A shown stick needs a center, a radius and both axes. */
  predicate StickReadable(s: Session, axes: seq<real>, name: string) {
    StickShown(s, name) ==>
      var cfg := s.stickCfgs[name];
      cfg.center.Some? && cfg.radius.Some? && 0 <= cfg.X() < |axes| && 0 <= cfg.Y() < |axes|
  }

  /** get_stick_rect, reduced to the sprite and the point its rect is
      centred on. */
  function GetStickRect(s: Session, axes: seq<real>, name: string): (r: StickRect)
    requires StickReadable(s, axes, name)
    ensures r.NoRect? <==> !StickShown(s, name)
    ensures r.Rect? ==> r.sprite == s.stickSurfaces[name]
    // a reading inside the deadzone leaves that coordinate on the centre
    ensures r.Rect? ==>
              var cfg := s.stickCfgs[name];
              (Abs(axes[cfg.X()]) < cfg.Deadzone() ==> r.center.0 == Trunc(cfg.center.value.0))
              && (Abs(axes[cfg.Y()]) < cfg.Deadzone() ==> r.center.1 == Trunc(cfg.center.value.1))
    // any other reading moves the coordinate by reading times radius, truncated
    ensures r.Rect? ==>
              var cfg := s.stickCfgs[name];
              var c, radius := cfg.center.value, cfg.radius.value;
              (Abs(axes[cfg.X()]) >= cfg.Deadzone() ==> r.center.0 == Trunc(c.0 + axes[cfg.X()] * radius))
              && (Abs(axes[cfg.Y()]) >= cfg.Deadzone() ==> r.center.1 == Trunc(c.1 + axes[cfg.Y()] * radius))
  {
    if !StickShown(s, name) then NoRect
    else
      var cfg := s.stickCfgs[name];
      Rect(s.stickSurfaces[name],
           (StickCoordinate(cfg.center.value.0, axes[cfg.X()], cfg.Deadzone(), cfg.radius.value),
            StickCoordinate(cfg.center.value.1, axes[cfg.Y()], cfg.Deadzone(), cfg.radius.value)))
  }

  /** Without a "deadzone" key nothing is zeroed: the placement follows the
      raw readings. */
  lemma NoDeadzoneKeyMeansRawReading(s: Session, axes: seq<real>, name: string)
    requires StickReadable(s, axes, name) && StickShown(s, name)
    requires s.stickCfgs[name].deadzone.None?
    ensures var cfg := s.stickCfgs[name];
            GetStickRect(s, axes, name).center
            == (Place(cfg.center.value.0, axes[cfg.X()], cfg.radius.value),
                Place(cfg.center.value.1, axes[cfg.Y()], cfg.radius.value))
  {
    var cfg := s.stickCfgs[name];
    assert DeadZone(axes[cfg.X()], cfg.Deadzone()) == axes[cfg.X()];
    assert DeadZone(axes[cfg.Y()], cfg.Deadzone()) == axes[cfg.Y()];
  }

  /** A stick at rest (both readings inside the deadzone) sits exactly on an
      integer centre. */
  lemma StickAtRestIsCentred(s: Session, axes: seq<real>, name: string)
    requires StickReadable(s, axes, name) && StickShown(s, name)
    requires var cfg := s.stickCfgs[name];
             Abs(axes[cfg.X()]) < cfg.Deadzone() && Abs(axes[cfg.Y()]) < cfg.Deadzone()
    requires IsInteger(s.stickCfgs[name].center.value.0) && IsInteger(s.stickCfgs[name].center.value.1)
    ensures var c := s.stickCfgs[name].center.value;
            GetStickRect(s, axes, name).center == (c.0.Floor, c.1.Floor)
  {
    var c := s.stickCfgs[name].center.value;
    TruncOfInteger(c.0);
    TruncOfInteger(c.1);
  }

  /** One coordinate of the placement: centre plus reading times radius,
      truncated, never leaves [c - radius, c + radius] for integer c and
      radius and a reading in [-1, 1]. */
  lemma CoordinateWithinRadius(c: real, v: real, radius: real)
    requires IsInteger(c) && IsInteger(radius) && radius >= 0.0
    requires -1.0 <= v <= 1.0
    ensures c - radius <= Place(c, v, radius) as real <= c + radius
  {
    var ci := c.Floor;
    var ri := radius.Floor;
    assert (1.0 - v) * radius >= 0.0 && (1.0 + v) * radius >= 0.0 by {
      NonNegProduct(1.0 - v, radius);
      NonNegProduct(1.0 + v, radius);
    }
    var lo := ci - ri;
    var hi := ci + ri;
    TruncBetween(c + v * radius, lo, hi);
  }

  lemma NonNegProduct(a: real, b: real)
    requires a >= 0.0 && b >= 0.0
    ensures a * b >= 0.0
  {
  }

  lemma StickWithinRadius(s: Session, axes: seq<real>, name: string)
    requires StickReadable(s, axes, name) && StickShown(s, name)
    requires var cfg := s.stickCfgs[name];
             IsInteger(cfg.center.value.0) && IsInteger(cfg.center.value.1)
             && IsInteger(cfg.radius.value) && cfg.radius.value >= 0.0
    requires forall a :: 0 <= a < |axes| ==> -1.0 <= axes[a] <= 1.0
    ensures var cfg := s.stickCfgs[name];
            var p := GetStickRect(s, axes, name).center;
            && cfg.center.value.0 - cfg.radius.value <= p.0 as real <= cfg.center.value.0 + cfg.radius.value
            && cfg.center.value.1 - cfg.radius.value <= p.1 as real <= cfg.center.value.1 + cfg.radius.value
  {
    var cfg := s.stickCfgs[name];
    var cx := cfg.center.value.0;
    var cy := cfg.center.value.1;
    var x := DeadZone(axes[cfg.X()], cfg.Deadzone());
    var y := DeadZone(axes[cfg.Y()], cfg.Deadzone());
    CoordinateWithinRadius(cx, x, cfg.radius.value);
    CoordinateWithinRadius(cy, y, cfg.radius.value);
  }

  /** Sticks are independent: reconfiguring or reloading any other stick
      leaves this stick's placement unchanged. */
  lemma SticksIndependent(s: Session, axes: seq<real>, name: string, other: string, cfg: StickConfig, sprite: Surface)
    requires other != name
    requires StickReadable(s, axes, name)
    ensures var s' := s.(stickCfgs := s.stickCfgs[other := cfg], stickSurfaces := s.stickSurfaces[other := sprite]);
            StickReadable(s', axes, name) && GetStickRect(s', axes, name) == GetStickRect(s, axes, name)
  {
    var s' := s.(stickCfgs := s.stickCfgs[other := cfg], stickSurfaces := s.stickSurfaces[other := sprite]);
    assert StickShown(s', name) == StickShown(s, name);
    if StickShown(s, name) {
      assert s'.stickCfgs[name] == s.stickCfgs[name];
      assert s'.stickSurfaces[name] == s.stickSurfaces[name];
    }
  }

  // ---------------------------------------------------------------------
  // The evidently intended c-button wiring
  // ---------------------------------------------------------------------

  predicate IntendedReadable(s: Session, axes: seq<real>) {
    && DpadReadable(axes, s.dpadCfg, s.dpadSurfaces)
    && (CButtonsGate(s) ==> CButtonsReadable(axes, s.cbuttonCfg, s.cbuttonSurfaces))
  }

  /** get_active_overlays with the c-button resolver reading the same
      "axes" c_buttons config that the constructor loaded surfaces for. */
  function ActiveOverlaysIntended(s: Session, snap: Snapshot): (r: seq<Surface>)
    requires IntendedReadable(s, snap.axes)
    ensures CButtonsGate(s) ==>
              var b := ButtonOverlays(snap.buttons, s.buttonSurfaces);
              var d := DpadPart(s, snap);
              var c := CButtonOverlays(snap.axes, s.cbuttonCfg, s.cbuttonSurfaces);
              |b| + |d| + |c| <= |r| && r[|b| + |d|..|b| + |d| + |c|] == c
    // the whole frame, in the same order as get_active_overlays
    ensures r == ButtonOverlays(snap.buttons, s.buttonSurfaces) + DpadPart(s, snap)
                 + (if CButtonsGate(s) then CButtonOverlays(snap.axes, s.cbuttonCfg, s.cbuttonSurfaces) else [])
                 + HatPart(s, snap)
  {
    var b := ButtonOverlays(snap.buttons, s.buttonSurfaces);
    var d := DpadPart(s, snap);
    var c := if CButtonsGate(s) then CButtonOverlays(snap.axes, s.cbuttonCfg, s.cbuttonSurfaces) else [];
    var h := HatPart(s, snap);
    Stack4(b, d, c, h)
  }

  /** With the intended wiring every active c-button entry of the "axes"
      block is drawn. */
  lemma IntendedDrawsAxesCButtons(s: Session, snap: Snapshot, i: int)
    requires IntendedReadable(s, snap.axes) && CButtonsGate(s)
    requires 0 <= i < |s.cbuttonCfg.value.entries| && CEntryActive(snap.axes, s.cbuttonCfg.value, i)
    ensures s.cbuttonSurfaces[s.cbuttonCfg.value.entries[i].0] in ActiveOverlaysIntended(s, snap)
  {
    var g := s.cbuttonCfg.value;
    var o := s.cbuttonSurfaces[g.entries[i].0];
    var c := CButtonOverlays(snap.axes, s.cbuttonCfg, s.cbuttonSurfaces);
    ActiveEntryIsDrawn(snap.axes, g, s.cbuttonSurfaces, i);
    var bd := ButtonOverlays(snap.buttons, s.buttonSurfaces) + DpadPart(s, snap);
    assert o in bd + c;
    assert ActiveOverlaysIntended(s, snap) == bd + c + HatPart(s, snap);
  }
}
