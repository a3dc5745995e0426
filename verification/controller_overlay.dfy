/**
 The earlier front end (controller_overlay.py): profile-key normalisation
 after JSON loading, and the pure part of one frame of the main loop, which
 reads a top-level "c_buttons" / "axis_dpad" layout, composes the resolvers
 in the order buttons, hats, axis d-pad, c-buttons, and places a single
 stick from axes 0 and 1.
 */
module ControllerOverlay {
  import opened Types
  import opened Decimal
  import opened OverlayLogic
  import opened ProfileSchema

  // ---------------------------------------------------------------------
  // parse_tuple_key
  // ---------------------------------------------------------------------

  /** The key starts with an opening and ends with a closing parenthesis;
      both can only hold for two or more characters. */
  predicate Wrapped(s: string) {
    |s| >= 2 && s[0] == '(' && s[|s| - 1] == ')'
  }

  function Inner(s: string): string
    requires Wrapped(s)
  {
    s[1..|s| - 1]
  }

  /** Every comma-separated piece of the text is an int literal. This
      excludes "()" and "(1,)", on which int("") raises. */
  predicate TupleText(body: string) {
    forall p :: p in Split(body, ',') ==> IsDecimal(p)
  }

  predicate KeyParsable(k: Key) {
    k.StrKey? && Wrapped(k.s) ==> TupleText(Inner(k.s))
  }

  /** parse_tuple_key: a parenthesised string becomes the tuple of its
      comma-separated ints; every other key is returned as it is. */
  function ParseTupleKey(k: Key): (r: Key)
    requires KeyParsable(k)
    ensures !(k.StrKey? && Wrapped(k.s)) ==> r == k
    ensures k.StrKey? && Wrapped(k.s) ==>
              var parts := Split(Inner(k.s), ',');
              r.TupleKey? && |r.items| == |parts|
              && forall i :: 0 <= i < |parts| ==> IsDecimal(parts[i]) && r.items[i] == ParseInt(parts[i])
  {
    if k.StrKey? && Wrapped(k.s) then
      var parts := Split(Inner(k.s), ',');
      TupleKey(seq(|parts|, i requires 0 <= i < |parts| => ParseInt(parts[i])))
    else k
  }

  /** Parsing a parsed key changes nothing more: tuples and non-parenthesised
      keys pass through. */
  lemma ParseTupleKeyIdempotent(k: Key)
    requires KeyParsable(k)
    ensures KeyParsable(ParseTupleKey(k))
    ensures ParseTupleKey(ParseTupleKey(k)) == ParseTupleKey(k)
  {
  }

  /** The text a profile author writes for a tuple key: "(a,b,...)". */
  function FormatTupleKey(t: seq<int>): string
    requires |t| >= 1
  {
    "(" + Join(seq(|t|, i requires 0 <= i < |t| => IntToString(t[i])), ',') + ")"
  }

  /** Parsing the written form of a non-empty tuple gives the tuple back. */
  lemma TupleKeyRoundTrip(t: seq<int>)
    requires |t| >= 1
    ensures KeyParsable(StrKey(FormatTupleKey(t)))
    ensures ParseTupleKey(StrKey(FormatTupleKey(t))) == TupleKey(t)
  {
    var texts := seq(|t|, i requires 0 <= i < |t| => IntToString(t[i]));
    var s := FormatTupleKey(t);
    assert Inner(s) == Join(texts, ',');
    SplitJoin(texts, ',');
    forall i | 0 <= i < |t| ensures ParseInt(texts[i]) == t[i] {
      ParseIntToString(t[i]);
    }
  }

  /** How the hat keys (0, 1) and (-1, 0) are written in a JSON profile. */
  lemma FormatTupleKeyExamples()
    ensures FormatTupleKey([0, 1]) == "(0,1)"
    ensures FormatTupleKey([-1, 0]) == "(-1,0)"
  {
    assert IntToString(0) == "0" && IntToString(1) == "1" && IntToString(-1) == "-1";
    assert seq(2, i requires 0 <= i < 2 => IntToString([0, 1][i])) == ["0", "1"];
    assert seq(2, i requires 0 <= i < 2 => IntToString([-1, 0][i])) == ["-1", "0"];
    assert Join(["0", "1"], ',') == "0,1";
    assert Join(["-1", "0"], ',') == "-1,0";
  }

  /** The documented examples: "(0,1)" and "(-1,0)" become tuples, other
      strings and non-strings pass through. */
  lemma ParseTupleKeyExamples()
    ensures KeyParsable(StrKey("(0,1)")) && KeyParsable(StrKey("(-1,0)"))
    ensures ParseTupleKey(StrKey("(0,1)")) == TupleKey([0, 1])
    ensures ParseTupleKey(StrKey("(-1,0)")) == TupleKey([-1, 0])
    ensures ParseTupleKey(StrKey("up")) == StrKey("up")
    ensures ParseTupleKey(IntKey(3)) == IntKey(3)
  {
    FormatTupleKeyExamples();
    TupleKeyRoundTrip([0, 1]);
    TupleKeyRoundTrip([-1, 0]);
  }

  // ---------------------------------------------------------------------
  // load_profiles key normalisation
  // ---------------------------------------------------------------------

  /** A dict comprehension over (key, value) pairs: a key repeated later
      overwrites the earlier value. */
  function PairsToMap<K(==), V>(ps: seq<(K, V)>): (m: map<K, V>)
    ensures m.Keys == set i | 0 <= i < |ps| :: ps[i].0
    // the value kept is the one of the last pair carrying the key
    ensures forall i :: 0 <= i < |ps| && LastWithKey(ps, i) ==> m[ps[i].0] == ps[i].1
  {
    if |ps| == 0 then map[]
    else
      var n := |ps| - 1;
      var init := ps[..n];
      var m' := PairsToMap(init);
      var m := m'[ps[n].0 := ps[n].1];
      assert m.Keys == set i | 0 <= i < |ps| :: ps[i].0 by {
        assert forall i :: 0 <= i < n ==> init[i] == ps[i];
        assert (set i | 0 <= i < |ps| :: ps[i].0) == (set i | 0 <= i < n :: init[i].0) + {ps[n].0};
      }
      assert forall i :: 0 <= i < |ps| && LastWithKey(ps, i) ==> m[ps[i].0] == ps[i].1 by {
        forall i | 0 <= i < |ps| && LastWithKey(ps, i) ensures m[ps[i].0] == ps[i].1 {
          if i < n {
            assert init[i] == ps[i];
            assert LastWithKey(init, i);
            assert ps[n].0 != ps[i].0;
          }
        }
      }
      m
  }

  /** No later pair carries the key of pair i. */
  predicate LastWithKey<K(==), V>(ps: seq<(K, V)>, i: int)
    requires 0 <= i < |ps|
  {
    forall j :: i < j < |ps| ==> ps[j].0 != ps[i].0
  }

  /** A profile as json.load produces it: object keys are strings, kept in
      file order. */
  type RawProfile = ProfileOf<seq<(string, Surface)>, seq<(string, Surface)>>

  predicate RawReadable(raw: RawProfile) {
    && (raw.buttonOverlays.Some? ==>
          forall i :: 0 <= i < |raw.buttonOverlays.value| ==> IsDecimal(raw.buttonOverlays.value[i].0))
    && (raw.hatOverlays.Some? ==>
          forall i :: 0 <= i < |raw.hatOverlays.value| ==> KeyParsable(StrKey(raw.hatOverlays.value[i].0)))
  }

  function ButtonPairs(ps: seq<(string, Surface)>): (qs: seq<(int, Surface)>)
    requires forall i :: 0 <= i < |ps| ==> IsDecimal(ps[i].0)
    ensures |qs| == |ps|
    ensures forall i :: 0 <= i < |ps| ==> qs[i] == (ParseInt(ps[i].0), ps[i].1)
  {
    seq(|ps|, i requires 0 <= i < |ps| => (ParseInt(ps[i].0), ps[i].1))
  }

  function HatPairs(ps: seq<(string, Surface)>): (qs: seq<(Key, Surface)>)
    requires forall i :: 0 <= i < |ps| ==> KeyParsable(StrKey(ps[i].0))
    ensures |qs| == |ps|
    ensures forall i :: 0 <= i < |ps| ==> qs[i] == (ParseTupleKey(StrKey(ps[i].0)), ps[i].1)
  {
    seq(|ps|, i requires 0 <= i < |ps| => (ParseTupleKey(StrKey(ps[i].0)), ps[i].1))
  }

  function NormalizeCenter(c: Option<Center>): (r: Option<Center>)
    ensures r.Some? <==> c.Some?
    ensures r.Some? ==> r.value.TupleCenter? && r.value.items == c.value.items
  {
    match c
    case Some(ListCenter(xs)) => Some(TupleCenter(xs))
    case _ => c
  }

  /** The per-profile body of load_profiles. */
  function NormalizeProfile(raw: RawProfile): (p: Profile)
    requires RawReadable(raw)
    // the three converted fields keep their presence
    ensures p.buttonOverlays.Some? <==> raw.buttonOverlays.Some?
    ensures p.hatOverlays.Some? <==> raw.hatOverlays.Some?
    ensures p.stickCenter.Some? <==> raw.stickCenter.Some?
    // button keys are int(k) of the raw keys, each value the last one given
    ensures p.buttonOverlays.Some? ==>
              var ps := raw.buttonOverlays.value;
              && (forall i :: 0 <= i < |ps| ==> ParseInt(ps[i].0) in p.buttonOverlays.value)
              && (forall n :: n in p.buttonOverlays.value ==> exists i :: 0 <= i < |ps| && ParseInt(ps[i].0) == n)
    // and the value under int(k) is the one of the last raw key with that int
    ensures p.buttonOverlays.Some? ==>
              var ps := raw.buttonOverlays.value;
              forall i :: 0 <= i < |ps| && (forall j :: i < j < |ps| ==> ParseInt(ps[j].0) != ParseInt(ps[i].0)) ==>
                p.buttonOverlays.value[ParseInt(ps[i].0)] == ps[i].1
    // hat keys are parse_tuple_key(k) of the raw keys
    ensures p.hatOverlays.Some? ==>
              var ps := raw.hatOverlays.value;
              && (forall i :: 0 <= i < |ps| ==> ParseTupleKey(StrKey(ps[i].0)) in p.hatOverlays.value)
              && (forall k :: k in p.hatOverlays.value ==> exists i :: 0 <= i < |ps| && ParseTupleKey(StrKey(ps[i].0)) == k)
    // and the value under a parsed key is the one of the last raw key parsing to it
    ensures p.hatOverlays.Some? ==>
              var ps := raw.hatOverlays.value;
              forall i :: 0 <= i < |ps| && (forall j :: i < j < |ps| ==> ParseTupleKey(StrKey(ps[j].0)) != ParseTupleKey(StrKey(ps[i].0))) ==>
                p.hatOverlays.value[ParseTupleKey(StrKey(ps[i].0))] == ps[i].1
    // a list centre becomes a tuple with the same items
    ensures p.stickCenter.Some? ==> p.stickCenter.value.TupleCenter? && p.stickCenter.value.items == raw.stickCenter.value.items
    // everything else is untouched
    ensures p.axes == raw.axes && p.cButtons == raw.cButtons && p.axisDpad == raw.axisDpad
    ensures p.stickOverlay == raw.stickOverlay && p.stickRadius == raw.stickRadius && p.deadzone == raw.deadzone
  {
    Profile(
      if raw.buttonOverlays.Some? then Some(PairsToMap(ButtonPairs(raw.buttonOverlays.value))) else None,
      if raw.hatOverlays.Some? then Some(PairsToMap(HatPairs(raw.hatOverlays.value))) else None,
      raw.axes,
      raw.cButtons,
      raw.axisDpad,
      NormalizeCenter(raw.stickCenter),
      raw.stickOverlay,
      raw.stickRadius,
      raw.deadzone)
  }

  /** When the raw button keys denote distinct ints, every raw entry
      survives normalisation with its value. */
  lemma NormalizedButtonValues(raw: RawProfile, i: int)
    requires RawReadable(raw) && raw.buttonOverlays.Some?
    requires 0 <= i < |raw.buttonOverlays.value|
    requires forall j :: 0 <= j < |raw.buttonOverlays.value| && j != i ==>
               ParseInt(raw.buttonOverlays.value[j].0) != ParseInt(raw.buttonOverlays.value[i].0)
    ensures var ps := raw.buttonOverlays.value;
            NormalizeProfile(raw).buttonOverlays.value[ParseInt(ps[i].0)] == ps[i].1
  {
    var qs := ButtonPairs(raw.buttonOverlays.value);
    assert LastWithKey(qs, i);
  }

  /** A JSON hat key "(x,y)" is found by the hat resolver under (x, y). */
  lemma NormalizedHatKeyIsFound(raw: RawProfile, i: int, h: Hat)
    requires RawReadable(raw) && raw.hatOverlays.Some?
    requires 0 <= i < |raw.hatOverlays.value|
    requires raw.hatOverlays.value[i].0 == FormatTupleKey([h.0, h.1])
    ensures h in HatTable(NormalizeProfile(raw).hatOverlays.value)
  {
    TupleKeyRoundTrip([h.0, h.1]);
    assert ParseTupleKey(StrKey(raw.hatOverlays.value[i].0)) == HatKey(h);
  }

  // ---------------------------------------------------------------------
  // One frame of main()
  // ---------------------------------------------------------------------

  predicate FrameReadable(p: Profile, assets: Assets, axes: seq<real>) {
    DpadReadable(axes, p.axisDpad, assets.dpad) && CButtonsReadable(axes, p.cButtons, assets.cButtons)
  }

  /** The overlay list of one frame: buttons, hats, axis d-pad, c-buttons,
      and nothing else. */
  function FrameOverlays(p: Profile, assets: Assets, snap: Snapshot): (r: seq<Surface>)
    requires FrameReadable(p, assets, snap.axes)
    ensures r == ButtonOverlays(snap.buttons, assets.buttons) + HatOverlays(snap.hats, HatTable(assets.hats))
                 + AxisDpadOverlays(snap.axes, p.axisDpad, assets.dpad)
                 + CButtonOverlays(snap.axes, p.cButtons, assets.cButtons)
  {
    Stack4(ButtonOverlays(snap.buttons, assets.buttons), HatOverlays(snap.hats, HatTable(assets.hats)),
           AxisDpadOverlays(snap.axes, p.axisDpad, assets.dpad), CButtonOverlays(snap.axes, p.cButtons, assets.cButtons))
  }

  /** What the frame draws for the stick: nothing, the sprite, or the
      fallback circle marker, each at a pixel point. */
  datatype StickDraw = NoStick | Sprite(sprite: Surface, at: (int, int)) | Marker(at: (int, int))

  predicate StickCentreShown(p: Profile) {
    p.stickCenter.Some? && p.stickCenter.value.Truthy()
  }

  /** A shown stick reads stick_center[0], stick_center[1] and axes 0, 1. */
  predicate LegacyStickReadable(p: Profile, axes: seq<real>) {
    StickCentreShown(p) ==> |p.stickCenter.value.items| >= 2 && |axes| >= 2
  }

  const LegacyDeadzone: real := 0.15

  /** The point main() computes for a shown stick: axis 0 drives x and axis
      1 drives y, the radius defaults to 0 and the deadzone to 0.15. */
  function LegacyPoint(p: Profile, axes: seq<real>): (at: (int, int))
    requires StickCentreShown(p) && LegacyStickReadable(p, axes)
    // a reading inside the deadzone stays on the centre, any other one is
    // scaled by the radius
    ensures var c, dz, radius := p.stickCenter.value.items, p.deadzone.GetOr(LegacyDeadzone), p.stickRadius.GetOr(0.0);
            && (Abs(axes[0]) < dz ==> at.0 == Trunc(c[0]))
            && (Abs(axes[0]) >= dz ==> at.0 == Trunc(c[0] + axes[0] * radius))
            && (Abs(axes[1]) < dz ==> at.1 == Trunc(c[1]))
            && (Abs(axes[1]) >= dz ==> at.1 == Trunc(c[1] + axes[1] * radius))
    // with no "stick_radius" the point is the truncated centre whatever the axes say
    ensures p.stickRadius.None? ==> at == (Trunc(p.stickCenter.value.items[0]), Trunc(p.stickCenter.value.items[1]))
  {
    var c := p.stickCenter.value.items;
    var dz := p.deadzone.GetOr(LegacyDeadzone);
    var radius := p.stickRadius.GetOr(0.0);
    (StickCoordinate(c[0], axes[0], dz, radius), StickCoordinate(c[1], axes[1], dz, radius))
  }

  /** The inline stick computation of main(): the sprite when one was
      loaded, the fallback marker otherwise, both at the same point. */
  function LegacyStick(p: Profile, sprite: Option<Surface>, axes: seq<real>): (d: StickDraw)
    requires LegacyStickReadable(p, axes)
    ensures d.NoStick? <==> !StickCentreShown(p)
    ensures d.Sprite? <==> StickCentreShown(p) && sprite.Some?
    ensures d.Marker? <==> StickCentreShown(p) && sprite.None?
    ensures d.Sprite? ==> d.sprite == sprite.value
    ensures !d.NoStick? ==> d.at == LegacyPoint(p, axes)
  {
    if !StickCentreShown(p) then NoStick
    else if sprite.Some? then Sprite(sprite.value, LegacyPoint(p, axes))
    else Marker(LegacyPoint(p, axes))
  }

  /** The marker is drawn exactly where the sprite would have been. */
  lemma MarkerAtSpritePoint(p: Profile, s: Surface, axes: seq<real>)
    requires LegacyStickReadable(p, axes) && StickCentreShown(p)
    ensures LegacyStick(p, None, axes).at == LegacyStick(p, Some(s), axes).at
  {
  }

  /** Without a "deadzone" key readings below 0.15 in magnitude are zeroed. */
  lemma LegacyDefaultDeadzone(p: Profile, axes: seq<real>, sprite: Option<Surface>)
    requires LegacyStickReadable(p, axes) && StickCentreShown(p)
    requires p.deadzone.None? && p.stickRadius.Some?
    requires Abs(axes[0]) < 0.15 && Abs(axes[1]) < 0.15
    ensures LegacyStick(p, sprite, axes).at
            == (Trunc(p.stickCenter.value.items[0]), Trunc(p.stickCenter.value.items[1]))
  {
    var c := p.stickCenter.value.items;
    var r := p.stickRadius.value;
    assert DeadZone(axes[0], LegacyDeadzone) == 0.0 && DeadZone(axes[1], LegacyDeadzone) == 0.0;
    assert Place(c[0], 0.0, r) == Trunc(c[0]) && Place(c[1], 0.0, r) == Trunc(c[1]);
  }
}
