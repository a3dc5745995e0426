/**
 The in-memory shape of one controller profile, shared by both front ends
 (controller_profile.py and controller_overlay.py), and the per-block
 surface tables the asset loader hands back.

 Python dicts become records whose absent keys are None. A dict's
 truthiness matters to the code (an empty dict is false), so config records
 carry an otherKeys flag for keys that no reader looks at.
 */
module ProfileSchema {
  import opened Types
  import opened OverlayLogic

  /** An entry of the "axes" block read as a stick config: x_axis, y_axis,
      overlay, center, radius, deadzone. */
  datatype StickConfig = StickConfig(
    xAxis: Option<int>,
    yAxis: Option<int>,
    overlay: Option<Surface>,
    center: Option<(real, real)>,
    radius: Option<real>,
    deadzone: Option<real>,
    otherKeys: bool)
  {
    predicate Truthy() {
      xAxis.Some? || yAxis.Some? || overlay.Some? || center.Some? || radius.Some? || deadzone.Some? || otherKeys
    }
    function X(): int { xAxis.GetOr(0) }
    function Y(): int { yAxis.GetOr(1) }
    function Deadzone(): real { deadzone.GetOr(0.0) }
  }

  /** A value in the "axes" block other than "dpad" and "c_buttons": either a
      dict (seen through the stick reader's keys) or something else. */
  datatype AxisValue = Dict(cfg: StickConfig) | NotDict

  /** The "axes" block. */
  datatype Axes = Axes(dpad: Option<DpadConfig>, cButtons: Option<CButtonGroup>, others: map<string, AxisValue>)

  /** stick_center as a JSON list or a Python tuple. */
  datatype Center = ListCenter(items: seq<real>) | TupleCenter(items: seq<real>) {
    predicate Truthy() { |items| > 0 }
  }

  /** A profile whose button and hat tables have key types B and H: the JSON
      text gives lists of (string key, file) pairs, the normalised profile
      gives maps. */
  datatype ProfileOf<B, H> = Profile(
    buttonOverlays: Option<B>,
    hatOverlays: Option<H>,
    axes: Option<Axes>,
    cButtons: Option<CButtonGroup>,   // top-level "c_buttons"
    axisDpad: Option<DpadConfig>,     // top-level "axis_dpad"
    stickCenter: Option<Center>,
    stickOverlay: Option<Surface>,
    stickRadius: Option<real>,
    deadzone: Option<real>)

  type Profile = ProfileOf<map<int, Surface>, map<Key, Surface>>

  /** The axes block of a profile, or an empty one when it is absent. */
  function AxesOf<B, H>(p: ProfileOf<B, H>): Axes {
    p.axes.GetOr(Axes(None, None, map[]))
  }

  /** What the asset loader returned for each block: the entries whose image
      file exists, keyed as in the profile. */
  datatype Assets = Assets(
    buttons: map<int, Surface>,
    hats: map<Key, Surface>,
    dpad: map<string, Surface>,
    cButtons: map<string, Surface>,
    sticks: map<string, Surface>)

  /** The hat table as Python's `hat in hat_surfaces` sees it when hat is an
      (x, y) tuple: only 2-element tuple keys can ever match. */
  function HatTable(m: map<Key, Surface>): (t: map<Hat, Surface>)
    ensures forall h: Hat :: h in t <==> HatKey(h) in m
    ensures forall h: Hat :: h in t ==> t[h] == m[HatKey(h)]
  {
    var pairs := set k | k in m && k.TupleKey? && |k.items| == 2 :: (k.items[0], k.items[1]);
    assert forall h: Hat :: h in pairs <==> HatKey(h) in m by {
      forall h: Hat ensures h in pairs <==> HatKey(h) in m {
        if h in pairs {
          var k :| k in m && k.TupleKey? && |k.items| == 2 && (k.items[0], k.items[1]) == h;
          assert k.items == [k.items[0], k.items[1]];
          assert HatKey(h) == k;
        }
        if HatKey(h) in m {
          var k := HatKey(h);
          assert (k.items[0], k.items[1]) == h;
        }
      }
    }
    map h | h in pairs :: m[HatKey(h)]
  }

  /** Applies the deadzone to one axis reading: zeroed iff strictly inside. */
  function DeadZone(v: real, dz: real): (r: real)
    ensures Abs(v) < dz ==> r == 0.0
    ensures Abs(v) >= dz ==> r == v
  {
    if Abs(v) < dz then 0.0 else v
  }

  /** One pixel coordinate of a stick sprite: int(centre + reading * radius).
      A zero reading or a zero radius leaves it on the truncated centre. */
  function Place(c: real, v: real, radius: real): (r: int)
    ensures v == 0.0 || radius == 0.0 ==> r == Trunc(c)
  {
    Trunc(c + v * radius)
  }

  /** One coordinate of a stick after the deadzone: a reading inside it
      stays on the centre, any other one is scaled by the radius. */
  function StickCoordinate(c: real, v: real, dz: real, radius: real): (r: int)
    ensures Abs(v) < dz ==> r == Trunc(c)
    ensures Abs(v) >= dz ==> r == Trunc(c + v * radius)
    ensures radius == 0.0 ==> r == Trunc(c)
  {
    Place(c, DeadZone(v, dz), radius)
  }
}
