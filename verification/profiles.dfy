/**
 Two profiles from profiles.py transcribed as constants, and the concrete
 scenarios that pin the engine's behaviour on them.
 */
module Profiles {
  import opened Types
  import opened OverlayLogic
  import opened ProfileSchema
  import opened ControllerProfile
  import ControllerOverlay

  const N64CButtons := CButtonGroup(
    [("up", CButtonEntry(4, -1, "n64/c_up.png")),
     ("down", CButtonEntry(4, 1, "n64/c_down.png")),
     ("left", CButtonEntry(3, -1, "n64/c_left.png")),
     ("right", CButtonEntry(3, 1, "n64/c_right.png"))],
    Some(0.5))

  const N64Stick := StickConfig(Some(0), Some(1), Some("n64/stick.png"), Some((203.0, 92.0)), Some(20.0), Some(0.2), false)

  const N64Buttons: map<int, Surface> :=
    map[0 := "n64/a.png", 1 := "n64/b.png", 8 := "n64/z.png", 9 := "n64/z.png",
        11 := "n64/start.png", 6 := "n64/l.png", 7 := "n64/r.png"]

  const N64Hats: map<Key, Surface> :=
    map[TupleKey([0, 1]) := "n64/up.png", TupleKey([0, -1]) := "n64/down.png",
        TupleKey([-1, 0]) := "n64/left.png", TupleKey([1, 0]) := "n64/right.png"]

  /** profiles.py "N64": the c-buttons live inside the "axes" block. */
  const N64: Profile := Profile(
    Some(N64Buttons),
    Some(N64Hats),
    Some(Axes(None, Some(N64CButtons), map["l_stick" := Dict(N64Stick)])),
    None, None, None, None, None, None)

  const N64CSurfaces: map<string, Surface> :=
    map["up" := "n64/c_up.png", "down" := "n64/c_down.png", "left" := "n64/c_left.png", "right" := "n64/c_right.png"]

  /** Every N64 asset present on disk. */
  const N64Assets := Assets(N64Buttons, N64Hats, map[], N64CSurfaces, map["l_stick" := "n64/stick.png"])

  /** The "axes" block of profiles.py "PSX": two sticks and a triggers dict. */
  const PSXAxes := Axes(None, None, map[
    "l_stick" := Dict(StickConfig(Some(0), Some(1), Some("psx/stick.png"), Some((199.0, 121.0)), Some(15.0), Some(0.2), false)),
    "r_stick" := Dict(StickConfig(Some(2), Some(3), Some("psx/stick.png"), Some((315.0, 121.0)), Some(15.0), Some(0.2), false)),
    "triggers" := Dict(StickConfig(Some(4), Some(5), None, None, None, None, true))])

  lemma TriggersIsNotAStick()
    ensures EndsWith("l_stick", "_stick") && EndsWith("r_stick", "_stick")
    ensures !EndsWith("triggers", "_stick")
  {
    assert "l_stick"[|"l_stick"| - |"_stick"|..] == "_stick";
    assert "r_stick"[|"r_stick"| - |"_stick"|..] == "_stick";
    assert "triggers"[|"triggers"| - |"_stick"|..][0] == 'i';
  }

  /** Only the "*_stick" dicts are sticks; "triggers" is not. */
  lemma PSXStickSelection()
    ensures StickConfigs(PSXAxes).Keys == {"l_stick", "r_stick"}
  {
    TriggersIsNotAStick();
    var others := PSXAxes.others;
    assert others.Keys == {"l_stick", "r_stick", "triggers"};
    assert others["l_stick"].Dict? && others["r_stick"].Dict?;
    var r := StickConfigs(PSXAxes);
    assert "l_stick" in r && "r_stick" in r && "triggers" !in r;
    assert r.Keys <= others.Keys;
  }

  /** What ControllerProfile(N64) holds once every asset is loaded. */
  lemma N64Session()
    ensures var s := NewSession(N64, N64Assets);
            && s.profile == N64
            && s.buttonSurfaces == N64Buttons && s.hatSurfaces == N64Hats
            && s.dpadCfg == None && s.dpadSurfaces == map[]
            && s.cbuttonCfg == Some(N64CButtons) && s.cbuttonSurfaces == N64CSurfaces
            && CButtonsGate(s)
            && "l_stick" in s.stickCfgs && s.stickCfgs["l_stick"] == N64Stick
            && "l_stick" in s.stickSurfaces && s.stickSurfaces["l_stick"] == "n64/stick.png"
  {
    TriggersIsNotAStick();
    var s := NewSession(N64, N64Assets);
    assert "up" in s.cbuttonSurfaces;
    assert IsStickEntry(AxesOf(N64), "l_stick");
  }

  predicate IsN64CButtonSurface(o: Surface) {
    o == "n64/c_up.png" || o == "n64/c_down.png" || o == "n64/c_left.png" || o == "n64/c_right.png"
  }

  /** No N64 button or hat image is a c-button image. */
  lemma N64TablesDisjoint()
    ensures forall o :: o in N64Buttons.Values ==> !IsN64CButtonSurface(o)
    ensures forall o :: o in N64Hats.Values ==> !IsN64CButtonSurface(o)
  {
    forall i | i in N64Buttons ensures !IsN64CButtonSurface(N64Buttons[i]) {
      assert i == 0 || i == 1 || i == 8 || i == 9 || i == 11 || i == 6 || i == 7;
    }
    forall k | k in N64Hats ensures !IsN64CButtonSurface(N64Hats[k]) {
      assert k == TupleKey([0, 1]) || k == TupleKey([0, -1]) || k == TupleKey([-1, 0]) || k == TupleKey([1, 0]);
    }
  }

  /** As written, no N64 c-button is ever drawn, whatever the joystick
      reads (c-up fully pushed included): the gate passes on the "axes"
      config but the resolver looks for a top-level "c_buttons". */
  lemma N64CButtonsNeverDrawn(snap: Snapshot)
    ensures ActiveReadable(NewSession(N64, N64Assets), snap.axes)
    ensures forall o :: o in ActiveOverlays(NewSession(N64, N64Assets), snap) ==> !IsN64CButtonSurface(o)
  {
    N64Session();
    N64TablesDisjoint();
    var s := NewSession(N64, N64Assets);
    var b := ButtonOverlays(snap.buttons, s.buttonSurfaces);
    var h := HatPart(s, snap);
    assert ActiveOverlays(s, snap) == b + h by {
      assert DpadPart(s, snap) == [] && CButtonPart(s, snap) == [];
    }
  }

  /** The N64 c-cluster as the intended wiring reads it. */
  lemma N64CButtonsReadable(axes: seq<real>)
    requires |axes| >= 5
    ensures CGroupReadable(axes, N64CButtons, N64CSurfaces)
  {
    var g := N64CButtons;
    forall i | 0 <= i < |g.entries|
      ensures CEntryReadable(axes, g, N64CSurfaces, i)
    {
      assert g.entries[i].0 in N64CSurfaces;
    }
  }

  /** A session holding the N64 c-cluster and no d-pad draws c-up under the
      intended wiring once axis 4 is past -0.5. */
  lemma CUpDrawnIntended(s: Session, snap: Snapshot)
    requires s.dpadCfg == None && s.cbuttonCfg == Some(N64CButtons) && s.cbuttonSurfaces == N64CSurfaces
    requires |snap.axes| >= 5 && snap.axes[4] < -0.5
    ensures IntendedReadable(s, snap.axes)
    ensures "n64/c_up.png" in ActiveOverlaysIntended(s, snap)
  {
    N64CButtonsReadable(snap.axes);
    assert N64CButtons.entries[0].0 == "up" && N64CSurfaces["up"] == "n64/c_up.png";
    assert CButtonsGate(s);
    assert CEntryActive(snap.axes, N64CButtons, 0);
    IntendedDrawsAxesCButtons(s, snap, 0);
  }

  /** With the intended wiring, pushing axis 4 past -0.5 draws c-up. */
  lemma N64CUpDrawnIntended(snap: Snapshot)
    requires |snap.axes| >= 5 && snap.axes[4] < -0.5
    ensures IntendedReadable(NewSession(N64, N64Assets), snap.axes)
    ensures "n64/c_up.png" in ActiveOverlaysIntended(NewSession(N64, N64Assets), snap)
  {
    N64Session();
    CUpDrawnIntended(NewSession(N64, N64Assets), snap);
  }

  /** The N64 stick at rest sits on its centre (203, 92). */
  lemma N64StickAtRest()
    ensures StickReadable(NewSession(N64, N64Assets), [0.1, -0.1], "l_stick")
    ensures GetStickRect(NewSession(N64, N64Assets), [0.1, -0.1], "l_stick") == Rect("n64/stick.png", (203, 92))
  {
    N64Session();
    StickAtRestIsCentred(NewSession(N64, N64Assets), [0.1, -0.1], "l_stick");
  }

  /** A stick with centre (100, 100), radius 20, deadzone 0.2 read at
      (0.1, 0.9): x is dead-zoned, y moves 18 pixels. */
  lemma StickDeadzoneExample()
    ensures var cfg := StickConfig(None, None, Some("stick"), Some((100.0, 100.0)), Some(20.0), Some(0.2), false);
            var s := NewSession(Profile(None, None, Some(Axes(None, None, map["l_stick" := Dict(cfg)])), None, None, None, None, None, None),
                                Assets(map[], map[], map[], map[], map["l_stick" := "stick"]));
            StickReadable(s, [0.1, 0.9], "l_stick")
            && GetStickRect(s, [0.1, 0.9], "l_stick") == Rect("stick", (100, 118))
  {
    var cfg := StickConfig(None, None, Some("stick"), Some((100.0, 100.0)), Some(20.0), Some(0.2), false);
    var s := NewSession(Profile(None, None, Some(Axes(None, None, map["l_stick" := Dict(cfg)])), None, None, None, None, None, None),
                        Assets(map[], map[], map[], map[], map["l_stick" := "stick"]));
    assert EndsWith("l_stick", "_stick");
    assert s.stickCfgs["l_stick"] == cfg;
    assert DeadZone(0.1, 0.2) == 0.0 && DeadZone(0.9, 0.2) == 0.9;
    assert Place(100.0, 0.9, 20.0) == 118;
  }

  /** The two stick placements agree once configured alike: the inline
      stick of controller_overlay.py is get_stick_rect for a stick on axes
      0 and 1 whose deadzone and radius are the legacy defaults when absent. */
  lemma LegacyStickAgreesWithSession(p: Profile, sprite: Surface, axes: seq<real>, s: Session, name: string)
    requires ControllerOverlay.LegacyStickReadable(p, axes) && ControllerOverlay.StickCentreShown(p)
    requires StickReadable(s, axes, name) && StickShown(s, name)
    requires var cfg := s.stickCfgs[name];
             var c := p.stickCenter.value.items;
             && cfg.X() == 0 && cfg.Y() == 1 && cfg.center == Some((c[0], c[1]))
             && cfg.radius == Some(p.stickRadius.GetOr(0.0))
             && cfg.Deadzone() == p.deadzone.GetOr(ControllerOverlay.LegacyDeadzone)
    ensures ControllerOverlay.LegacyStick(p, Some(sprite), axes).at == GetStickRect(s, axes, name).center
  {
    var cfg := s.stickCfgs[name];
    var dz := cfg.Deadzone();
    var x := DeadZone(axes[0], dz);
    var y := DeadZone(axes[1], dz);
    assert GetStickRect(s, axes, name).center
           == (Place(cfg.center.value.0, x, cfg.radius.value), Place(cfg.center.value.1, y, cfg.radius.value));
  }

  /** End to end: one mapped button, pressed then released. */
  lemma SingleButtonEndToEnd()
    ensures var s := NewSession(Profile(Some(map[0 := "a"]), None, None, None, None, None, None, None, None),
                                Assets(map[0 := "a"], map[], map[], map[], map[]));
            && ActiveReadable(s, [])
            && ActiveOverlays(s, Snapshot([true], [], [])) == ["a"]
            && ActiveOverlays(s, Snapshot([false], [], [])) == []
  {
    var s := NewSession(Profile(Some(map[0 := "a"]), None, None, None, None, None, None, None, None),
                        Assets(map[0 := "a"], map[], map[], map[], map[]));
    assert ButtonOverlaysUpTo([true], map[0 := "a"], 1) == ["a"];
  }

  /** A profile with one hat surface and a c-up entry configured at both
      the top level and inside "axes", so both front ends see both. */
  const Both := CButtonGroup([("up", CButtonEntry(0, -1, "c_up"))], Some(0.5))
  const BothHats: map<Key, Surface> := map[TupleKey([0, 1]) := "hat_up"]
  const BothCSurfaces: map<string, Surface> := map["up" := "c_up"]
  const BothProfile: Profile := Profile(
    None, Some(BothHats), Some(Axes(None, Some(Both), map[])),
    Some(Both), None, None, None, None, None)
  const BothAssets := Assets(map[], BothHats, map[], BothCSurfaces, map[])

  /** With no mapped buttons nothing is drawn for buttons. */
  lemma NoButtonTable(buttons: seq<bool>)
    ensures ButtonOverlays(buttons, map[]) == []
  {
    var idx := PressedMapped(buttons, map[], |buttons|);
    assert |idx| > 0 ==> ButtonActive(buttons, map[], idx[0]);
  }

  /** What each resolver makes of hat up and axis 0 at -1. */
  lemma BothResolved(axes: seq<real>)
    requires axes == [-1.0]
    ensures HatOverlays([(0, 1)], HatTable(BothHats)) == ["hat_up"]
    ensures CGroupReadable(axes, Both, BothCSurfaces)
    ensures CButtonOverlays(axes, Some(Both), BothCSurfaces) == ["c_up"]
  {
    var t := HatTable(BothHats);
    assert HatKey((0, 1)) == TupleKey([0, 1]);
    assert (0, 1) in t && t[(0, 1)] == "hat_up";
    assert [(0, 1)][..0] == [];
    assert CEntryReadable(axes, Both, BothCSurfaces, 0);
    assert CButtonOverlaysUpTo(axes, Both, BothCSurfaces, 1) == ["c_up"];
  }

  lemma Stack4Pair<T>(x: seq<T>, y: seq<T>)
    ensures Stack4([], x, [], y) == x + y
    ensures Stack4([], [], x, y) == x + y
  {
    assert [] + x + [] + y == x + y;
    assert [] + [] + x + y == x + y;
  }

  /** In controller_overlay.py's frame without buttons or d-pad, the hats
      come first and the c-buttons after them. */
  lemma LegacyHatsThenCButtons(p: Profile, assets: Assets, snap: Snapshot)
    requires ControllerOverlay.FrameReadable(p, assets, snap.axes)
    requires assets.buttons == map[] && p.axisDpad.None?
    ensures ControllerOverlay.FrameOverlays(p, assets, snap)
            == HatOverlays(snap.hats, HatTable(assets.hats)) + CButtonOverlays(snap.axes, p.cButtons, assets.cButtons)
  {
    NoButtonTable(snap.buttons);
    Stack4Pair(HatOverlays(snap.hats, HatTable(assets.hats)), CButtonOverlays(snap.axes, p.cButtons, assets.cButtons));
  }

  /** In controller_profile.py's frame without buttons or d-pad, the
      c-buttons come first and the hats after them. */
  lemma SessionCButtonsThenHats(s: Session, snap: Snapshot)
    requires ActiveReadable(s, snap.axes)
    requires s.buttonSurfaces == map[] && s.dpadCfg.None?
    ensures ActiveOverlays(s, snap) == CButtonPart(s, snap) + HatPart(s, snap)
  {
    NoButtonTable(snap.buttons);
    assert DpadPart(s, snap) == [];
    Stack4Pair(CButtonPart(s, snap), HatPart(s, snap));
  }

  /** The two front ends draw the same surfaces in different orders.
      controller_overlay.py's frame, for any profile and assets holding
      only the hat and c-up tables: hats, then c-buttons. */
  lemma LegacyFrameOrder(p: Profile, assets: Assets, snap: Snapshot)
    requires assets.buttons == map[] && assets.hats == BothHats && assets.cButtons == BothCSurfaces
    requires p.axisDpad.None? && p.cButtons == Some(Both)
    requires snap.hats == [(0, 1)] && snap.axes == [-1.0]
    ensures ControllerOverlay.FrameReadable(p, assets, snap.axes)
    ensures ControllerOverlay.FrameOverlays(p, assets, snap) == ["hat_up", "c_up"]
  {
    BothResolved(snap.axes);
    LegacyHatsThenCButtons(p, assets, snap);
  }

  /** controller_profile.py's frame on the same input: c-buttons, then
      hats. */
  lemma SessionFrameOrder(s: Session, snap: Snapshot)
    requires s.buttonSurfaces == map[] && s.hatSurfaces == BothHats && s.cbuttonSurfaces == BothCSurfaces
    requires s.dpadCfg.None? && s.cbuttonCfg == Some(Both) && s.profile.cButtons == Some(Both)
    requires snap.hats == [(0, 1)] && snap.axes == [-1.0]
    ensures ActiveReadable(s, snap.axes)
    ensures ActiveOverlays(s, snap) == ["c_up", "hat_up"]
  {
    BothResolved(snap.axes);
    assert CButtonsGate(s) by {
      assert "up" in s.cbuttonSurfaces;
    }
    assert CButtonPart(s, snap) == ["c_up"];
    assert HatPart(s, snap) == ["hat_up"] by {
      assert s.hatSurfaces != map[] by {
        assert TupleKey([0, 1]) in s.hatSurfaces;
      }
    }
    SessionCButtonsThenHats(s, snap);
  }

  /** ControllerProfile built from BothProfile meets SessionFrameOrder. */
  lemma BothSession()
    ensures var s := NewSession(BothProfile, BothAssets);
            && s.buttonSurfaces == map[] && s.hatSurfaces == BothHats && s.cbuttonSurfaces == BothCSurfaces
            && s.dpadCfg.None? && s.cbuttonCfg == Some(Both) && s.profile.cButtons == Some(Both)
  {
  }
}
