# controller-spy overlay resolution, modelled in Dafny

controller-spy draws a picture of a game controller and layers sprites on
top of it for whatever the player is pressing. The core decides, for one
profile and one snapshot of joystick state, which overlay surfaces are
active and in what order to draw them. It also decides where each
analog-stick sprite goes. This project models that core and proves
properties of it:

- the four resolvers of `overlay_logic.py`:
  - buttons;
  - POV hats, with their diagonal fallback;
  - the axis-emulated d-pad, with diagonal precedence;
  - c-buttons, which treat axis threshold crossings as virtual buttons;
- `ControllerProfile` (`controller_profile.py`):
  - block selection in the constructor, including the `*_stick` loop;
  - per-frame composition in `get_active_overlays`;
  - the stick placement of `get_stick_rect`;
- the older front end (`controller_overlay.py`):
  - `parse_tuple_key`;
  - the key normalisation of `load_profiles`;
  - the per-frame overlay order of `main`;
  - the inline single-stick placement of `main`.

Surfaces are opaque identifiers. The asset loader is a parameter
(`Assets`): any five tables are accepted, and no lemma assumes anything
about which entries they hold beyond what it states in its own
preconditions.

Python dictionaries become records whose absent keys are `None`. An empty
dict is false in Python, and the code tests configs for truth. So config
records carry an `otherKeys` flag for keys that no reader looks at.

Python's `int()` on a float truncates toward zero; `Types.Trunc` models
that. A call that raises in Python appears as a precondition. Examples are
a missing axis, a missing c-button `threshold`, and a non-integer tuple
key. The preconditions are named `...Readable`.

Modules:

- `Types`: shared vocabulary.
- `Decimal`: int text and `str.split` / `join`.
- `OverlayLogic`: the four resolvers.
- `ProfileSchema`: the profile and loader records shared by both front ends.
- `ControllerProfile`: the session front end.
- `ControllerOverlay`: the older front end.
- `Profiles`: the N64 profile and the PSX axes from `profiles.py`, with
  concrete scenarios.

Facts about the code that a reader might not expect:

- A stick whose readings fall inside the deadzone is still placed, on its
  centre (`StickAtRestIsCentred`); `get_stick_rect` returns no rect only
  when the config is missing or empty (an empty `"x_stick": {}` entry is
  still selected by the constructor) or the sprite is missing.
- Thresholds are not validated when a profile is loaded. Any real is
  accepted, including zero and negative ones.
- `controller_profile.py` knows one axis button group, `c_buttons`. The
  `triggers` block of the PSX profile is never read.
- The two front ends draw in different orders. `controller_profile.py`
  draws buttons, d-pad, c-buttons, hats. `controller_overlay.py` draws
  buttons, hats, d-pad, c-buttons (`LegacyFrameOrder`,
  `SessionFrameOrder`).

## Model

| member | source | states |
|---|---|---|
| OverlayLogic.PressedMapped | overlay_logic.py:17-18 | reference set for the button loop: exactly the indices that are pressed and have a surface, each once, in increasing order |
| OverlayLogic.ButtonOverlaysUpTo | overlay_logic.py:16-19 | after n iterations the list holds, position by position, the surface of the k-th pressed and mapped index below n |
| OverlayLogic.ButtonOverlays | overlay_logic.py:15-20 | the output is the surfaces of the pressed, mapped buttons in increasing index order, at most one per button; nothing pressed gives an empty list; only table surfaces appear |
| OverlayLogic.PressedButtonIsDrawn | overlay_logic.py:17-19 | every pressed button that has a surface is drawn |
| OverlayLogic.UnmappedButtonIgnoredUpTo | overlay_logic.py:17-19 | pressing or releasing a button without a surface leaves every prefix of the loop unchanged |
| OverlayLogic.UnmappedButtonIgnored | overlay_logic.py:18 | pressing or releasing a button without a surface never changes the output |
| OverlayLogic.HatOverlay | overlay_logic.py:25-33 | a centred hat draws nothing; an exact key draws only its own surface; otherwise (0, y) is drawn when y is not 0 and mapped, then (x, 0) when x is not 0 and mapped, and nothing else; so an unmapped cardinal draws nothing and an unmapped diagonal draws two surfaces iff both its cardinals are mapped |
| OverlayLogic.HatOverlays | overlay_logic.py:22-34 | a single hat draws exactly what the per-hat resolution gives (with HatOverlaysAppend this fixes the output for every hat list); at most two surfaces per hat; all hats centred, or an empty table, draws nothing; only table surfaces appear |
| OverlayLogic.HatOverlaysAppend | overlay_logic.py:24-33 | hats are resolved independently: the output for two hat lists joined is the two outputs joined |
| OverlayLogic.HatDiagonalDecomposes | overlay_logic.py:29-33 | an unmapped (1, 1) with both cardinals mapped draws up, then right |
| OverlayLogic.CardinalUnion | overlay_logic.py:59-67 | the cardinal branch: each of up, down, left, right is drawn exactly when its direction is active and it has a surface, in the order up, down, left, right, with no diagonal and nothing twice |
| OverlayLogic.DpadKeys | overlay_logic.py:51-67 | the precedence chain: up_left exactly when up, left and its surface hold; up_right exactly when that fails and up, right and its surface hold; then down_left, then down_right; when no diagonal applies, the cardinal union |
| OverlayLogic.AxisDpadOverlays | overlay_logic.py:36-68 | a missing or empty config, or no surfaces, draws nothing; otherwise the surfaces of the chosen keys, key by key, for the flags read from the configured axes; at most four, only table surfaces |
| OverlayLogic.Flags | overlay_logic.py:45-50 | left iff x <= -th, right iff x >= th, up iff y' <= -th, down iff y' >= th, where y' is y negated under invert_y; with a positive threshold, left and right are never both active, nor up and down |
| OverlayLogic.DpadConfigDefaults | overlay_logic.py:39-42 | a d-pad config uses each key it has; an absent x_axis, y_axis, threshold or invert_y means 0, 1, 0.5 and no flip |
| OverlayLogic.DpadAtMostTwo | overlay_logic.py:47-67 | with a positive threshold, opposite directions exclude each other, so at most two surfaces are drawn |
| OverlayLogic.DpadHorizontalBoundary | overlay_logic.py:47-48 | the comparisons are inclusive: x = -th is left and x = th is right; x strictly inside (-th, th) is neither |
| OverlayLogic.DpadVerticalBoundary | overlay_logic.py:45-50 | after invert_y, y = -th is up and y = th is down; y strictly inside (-th, th) is neither |
| OverlayLogic.DpadPushedUpDrawsUp | overlay_logic.py:47-67 | a stick pushed straight up past the threshold, x at rest, draws exactly the up surface |
| OverlayLogic.DpadRestingIsEmpty | overlay_logic.py:47-50 | a stick resting strictly inside the threshold square draws nothing |
| OverlayLogic.DpadInvertYNegates | overlay_logic.py:45-46 | invert_y is exactly a negation of the y reading: an inverting config sees what a plain config sees on the negated axis |
| OverlayLogic.DpadUpLeftFirst | overlay_logic.py:51-52 | when up and left are both active and up_left has a surface, the keys are exactly [up_left], whatever else is active |
| OverlayLogic.DpadCardinalOnlyIsUnion | overlay_logic.py:51-67 | with no diagonal surfaces, diagonal precedence and cardinal union coincide |
| OverlayLogic.ActiveEntries | overlay_logic.py:73-80 | reference set for the c-button loop: exactly the entries that are a direction and cross the threshold on their side, in dict order |
| OverlayLogic.CButtonOverlaysUpTo | overlay_logic.py:73-80 | after n items the list holds the surfaces of the active entries among them, in dict order |
| OverlayLogic.CButtonOverlays | overlay_logic.py:70-81 | no c_buttons key draws nothing; otherwise exactly the active entries' surfaces in dict order, at most one per entry, only table surfaces |
| OverlayLogic.CButtonsIndependent | overlay_logic.py:73-80 | two active entries are both drawn, in dict order: entries are independent virtual buttons, not one 2-D stick |
| OverlayLogic.ActiveEntryIsDrawn | overlay_logic.py:76-80 | every active entry is drawn |
| OverlayLogic.CButtonBoundaryIsInactive | overlay_logic.py:77-79 | the comparisons are strict: a reading whose magnitude is at most the threshold activates nothing |
| OverlayLogic.CButtonNonDirectionSkipped | overlay_logic.py:74-75 | items other than up/down/left/right, such as the group's own threshold, are never active |
| ProfileSchema.HatTable | overlay_logic.py:27-32 | a hat (x, y) is found in a loaded hat table exactly when the table has the tuple key (x, y), with that key's surface |
| ProfileSchema.DeadZone | controller_profile.py:73-77 | a reading is zeroed exactly when its magnitude is strictly below the deadzone, and kept otherwise |
| ProfileSchema.Place | controller_profile.py:80-81 | a zero reading or a zero radius leaves a coordinate on the truncated centre |
| ProfileSchema.StickCoordinate | controller_profile.py:73-81 | a reading strictly inside the deadzone leaves the coordinate on the truncated centre; any other reading moves it by reading times radius before truncation |
| Types.Trunc | controller_profile.py:80-81 | int() on a float: the integer between 0 and the value that is less than 1 away from it |
| ControllerProfile.StickConfigs | controller_profile.py:47-50 | the selected sticks are exactly the axes entries whose name ends in "_stick" and whose value is a dict, each with its own config |
| ControllerProfile.NewSession | controller_profile.py:30-51 | the button and hat tables are the loader's; d-pad and c-button configs come from the axes block; a true config gets the loader's table and a false one none; the sticks are exactly the "*_stick" dict entries; the sprites are the selected sticks' loaded images |
| ControllerProfile.NewSessionSticks | controller_profile.py:44-51 | a new session keeps a sprite exactly for each "*_stick" dict entry whose image loaded, and it is that image |
| ControllerProfile.StickSprites | controller_profile.py:49-51 | a selected stick keeps the sprite the loader found for it, and no other sprite is kept |
| ControllerProfile.DpadPart | controller_profile.py:56-57 | the session's own truth test adds nothing: the contribution is exactly the d-pad resolver on the session's config and table |
| ControllerProfile.CButtonPart | controller_profile.py:58-59 | empty unless the axes config and its table pass the gate; past the gate, the c-button resolver run on the top-level c_buttons value, so empty when the profile has none |
| ControllerProfile.HatPart | controller_profile.py:60-61 | skipping an empty table changes nothing: the contribution is exactly the hat resolver on the loaded table |
| ControllerProfile.ActiveOverlays | controller_profile.py:53-62 | the frame is the buttons, then the d-pad, then the c-buttons, then the hats, with nothing added; with no top-level c_buttons it is buttons, d-pad, hats |
| ControllerProfile.ActiveOverlaysAreLoaded | controller_profile.py:53-62 | nothing but loaded surfaces is ever drawn |
| ControllerProfile.GetStickRect | controller_profile.py:64-82 | no placement iff the config is missing or empty or the sprite is missing; otherwise the stick's own sprite, each coordinate on the truncated centre when its reading is inside the deadzone and at int(centre + reading * radius) otherwise |
| ControllerProfile.NoDeadzoneKeyMeansRawReading | controller_profile.py:73-81 | without a deadzone key the placement follows the raw readings |
| ControllerProfile.StickAtRestIsCentred | controller_profile.py:73-81 | both readings inside the deadzone place the sprite exactly on an integer centre |
| ControllerProfile.CoordinateWithinRadius | controller_profile.py:80-81 | for an integer centre and radius and a reading in [-1, 1], a coordinate never leaves [c - radius, c + radius] |
| ControllerProfile.StickWithinRadius | controller_profile.py:69-82 | with integer centre and radius and readings in [-1, 1], the sprite stays inside the square of that radius around the centre |
| ControllerProfile.SticksIndependent | controller_profile.py:64-66 | reconfiguring or reloading another stick never changes this stick's placement |
| ControllerProfile.ActiveOverlaysIntended | controller_profile.py:58-59 | corrected composition: buttons, d-pad, then the active entries of the axes c_buttons block the constructor loaded surfaces for, then hats |
| ControllerProfile.IntendedDrawsAxesCButtons | controller_profile.py:41-42 | under the corrected composition every active entry of the axes c_buttons block is drawn |
| ControllerOverlay.ParseTupleKey | controller_overlay.py:31-41 | a parenthesised string becomes the tuple of the ints of its comma-separated pieces, one per piece; every other key is returned unchanged |
| ControllerOverlay.TupleKeyRoundTrip | controller_overlay.py:39-40 | parsing the written form "(a,b,...)" of a non-empty tuple gives the tuple back |
| ControllerOverlay.ParseTupleKeyIdempotent | controller_overlay.py:39-41 | a second application changes nothing |
| ControllerOverlay.ParseTupleKeyExamples | controller_overlay.py:33 | "(0,1)" gives (0, 1) and "(-1,0)" gives (-1, 0); "up" and 3 pass through |
| ControllerOverlay.PairsToMap | controller_overlay.py:59 | a dict comprehension: the keys are exactly the pairs' keys, and each value is the one of the last pair with that key |
| ControllerOverlay.NormalizeCenter | controller_overlay.py:64-65 | a list centre becomes a tuple with the same items; presence is kept |
| ControllerOverlay.NormalizeProfile | controller_overlay.py:55-72 | button keys are exactly int(k) of the raw keys and hat keys exactly parse_tuple_key(k), each holding the value of the last raw key that converts to it; a list centre becomes a tuple; each field keeps its presence; every other field is untouched |
| ControllerOverlay.NormalizedButtonValues | controller_overlay.py:58-59 | a raw button entry whose int key is not repeated keeps its value after normalisation |
| ControllerOverlay.NormalizedHatKeyIsFound | controller_overlay.py:61-62 | a JSON hat key "(x,y)" is found by the hat resolver under (x, y) |
| ControllerOverlay.FrameOverlays | controller_overlay.py:131-135 | the frame is the buttons, then the hats, then the axis d-pad, then the c-buttons read from the top-level keys, with nothing added |
| ControllerOverlay.LegacyStick | controller_overlay.py:142-155 | no stick iff stick_center is missing or empty; the sprite when loaded, else the circle marker, both at the point main() computes |
| ControllerOverlay.LegacyPoint | controller_overlay.py:142-150 | axis 0 drives x and axis 1 drives y; a coordinate whose reading is inside the deadzone (default 0.15) stays on the truncated centre, any other is int(centre + reading * radius) with radius defaulting to 0; with no stick_radius the point is the truncated centre |
| ControllerOverlay.MarkerAtSpritePoint | controller_overlay.py:149-155 | the fallback marker is drawn exactly where the sprite would have been |
| ControllerOverlay.LegacyDefaultDeadzone | controller_overlay.py:120 | without a deadzone key, readings below 0.15 in magnitude leave the stick on its centre |
| Decimal.ParseIntToString | controller_overlay.py:40 | int() reads back the decimal text of any integer |
| Decimal.SplitJoin | controller_overlay.py:40 | split(",") undoes joining comma-free pieces with "," |
| Profiles.PSXStickSelection | profiles.py:145-171 | of the PSX axes entries only l_stick and r_stick are sticks; triggers is not |
| Profiles.N64Session | controller_profile.py:30-51 | the session built from the N64 profile holds the axes c_buttons config and its four surfaces, passes the c-button gate, and selects l_stick with its sprite |
| Profiles.N64CButtonsNeverDrawn | controller_profile.py:58-59 | as written, no N64 c-button surface is drawn for any snapshot, c-up pushed fully included |
| Profiles.N64CUpDrawnIntended | profiles.py:110-116 | under the corrected composition, axis 4 below -0.5 draws n64/c_up.png |
| Profiles.N64StickAtRest | profiles.py:102-109 | the N64 stick at rest sits on its centre (203, 92) |
| Profiles.StickDeadzoneExample | controller_profile.py:73-82 | centre (100, 100), radius 20, deadzone 0.2, readings (0.1, 0.9): x is zeroed and the sprite is centred on (100, 118) |
| Profiles.LegacyStickAgreesWithSession | controller_overlay.py:142-150 | the inline stick of the older front end is placed where get_stick_rect places a stick on axes 0 and 1 with the same centre, radius and deadzone |
| Profiles.SingleButtonEndToEnd | controller_profile.py:53-55 | a profile mapping button 0 draws its surface while the button is held and nothing once it is released |
| Profiles.LegacyHatsThenCButtons | controller_overlay.py:133-135 | without buttons or d-pad the older frame is exactly the hats followed by the c-buttons |
| Profiles.SessionCButtonsThenHats | controller_profile.py:58-61 | without buttons or d-pad the session frame is exactly the c-buttons followed by the hats |
| Profiles.LegacyFrameOrder | controller_overlay.py:133-135 | hat up with c-up pushed draws hat_up under c_up in the older front end |
| Profiles.SessionFrameOrder | controller_profile.py:58-61 | the same input draws c_up under hat_up in the session front end |

## Left out

- Everything pygame does is left out: window, blitting, clock, event loop, image loading and `joy` itself. A joystick is a `Snapshot`, and the loader result is the `Assets` parameter.
- The asset loaders in `overlay_assets.py` are left out. `controller_profile.py` imports `load_axis_cbutton_overlays` and `load_axis_stick_overlay`, which that file does not define. The older `load_cbutton_overlays` reads an `"image"` key, while the profiles name the file under `"overlay"`. Neither can be expressed with the loader as a parameter.
- `handle_debug_events`, `joystick_utils.py`, `inspect_controller.py` and argparse are left out because they hold no overlay logic.
- The JSON file read is left out. A raw profile is the parsed value, with objects as ordered (key, value) lists.
- The `triggers` block and the `base`, `console` and `controller_name` keys are left out, because no resolver reads them.
- Floating point is left out. Axis readings, thresholds, centres and radii are exact reals, so rounding of `center + x * radius` before `int()` is not modelled.
- ControllerOverlay.ParseTupleKey: Python's `int()` also accepts surrounding spaces, `+` and `_` digit separators. The model accepts `-?[0-9]+` only and calls anything else unparsable (the `ValueError` path).
- ControllerOverlay.NormalizeProfile: the `float()` of the c_buttons threshold and the copy of the axis_dpad overlays are identities on exact reals. A `stick_center` that is neither a list nor a tuple is not modelled. Button keys are converted with the same `int()` as tuple pieces: Python also accepts surrounding spaces, `+` and `_` digit separators there, but the model requires `-?[0-9]+` of every button key (`RawReadable`), so a profile with such a key is outside the model rather than normalised.
- ControllerOverlay.LegacyStick: a `stick_center` with fewer than two items, or fewer than two axes, raises in Python. That case is a precondition.
- OverlayLogic.CButtonOverlays: a missing `threshold` in a group that has a signed direction entry is a `KeyError` in Python. That case is a precondition (`CGroupReadable`). So are a missing axis and an active direction without a loaded surface.
- ControllerProfile.GetStickRect: the rect itself is reduced to the point it is centred on.
- Repeated calls with an unchanged snapshot give identical results because every operation is a pure function. No separate lemma states it.

## Findings

| source | as written | input that shows it | evidently intended | confidence | as-written member | corrected member |
|---|---|---|---|---|---|---|
| controller_profile.py:59 | `get_cbutton_overlays` receives the whole profile, so it reads a top-level `c_buttons` key. The gate and the loaded surfaces come from `profile["axes"]["c_buttons"]`. | the N64 profile of profiles.py with axis 4 at -1.0 (c-up fully pushed): no c-button surface is drawn | pass the axes c_buttons config the constructor selected | high (not executed) | Profiles.N64CButtonsNeverDrawn | ControllerProfile.ActiveOverlaysIntended |
