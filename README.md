# AICP gear: preference constraints, device helpers and theme overlays in Dafny

This project models the parts of the AICP "gear" support library that hold logic of
their own, and proves properties of that model. Everything the Android platform
provides is replaced by abstract state or inputs.

- **Preference constraints** (`constraints_helper.dfy`, over `preference_tree.dfy`).
  A preference that must disappear is queued by key in the graveyard's death row.
  The reaper hides every queued preference it can find. It also hides the group
  holding that preference once nothing in the group is visible. Keys not found stay
  queued. Around this sit the per-preference availability flag, the intent check
  ("some handler is a system application"), the recursive search for a
  preference's group, and the theme attribute fallback.
  - The preference hierarchy is modelled as heap objects. A preference's key and
    children are `const`, because the hierarchy's shape is fixed once inflated; only
    the visibility flag changes.
  - `Valid()` states the hierarchy's shape: no cycles, and only groups have children.
    `Exact()` states that each preference's ghost set of nodes is exactly itself and
    the preferences below it. The two constructors establish both, and the reap,
    which may change any node of the screen, requires both.
  - The graveyard, each `ConstraintsHelper`, and the overlay manager are classes
    whose methods change their fields.
  - `ConstraintsHelper.IsAvailable` is the field read and carries no contract of its
    own. What it returns is fixed by the constructor (true at first) and by
    `SetAvailable`, `CheckIntent` and `OnAttached`.
- **Device utilities** (`device_utils.dfy`):
  - filtering a list preference's entries and values down to the features the
    device supports;
  - classifying the screen as phone, hybrid or tablet from its short side in dp,
    using Java's 32-bit int arithmetic;
  - locating the display cutout;
  - detecting a back-facing camera with a flash.
- **Theme overlays** (`theme_overlay_helper.dfy`):
  - the overlay manager is modelled as a map from overlay package to its enabled
    flag, where every remote call may fail;
  - `setOverlayEnabled` only sends a request when the state differs, and
    `isOverlayEnabled` reads a failed or missing lookup as "disabled";
  - the dark-theme predicates, the accent table, and the three members whose real
    bodies are commented out.

Platform decisions that the source does not show:
- **Finding a preference.** `findPreference` is taken to search the screen itself
  first, then its descendants in depth-first order, ignoring visibility.
  - If a queued key is the screen's own key, `hidePreference` would dereference a
    null group and crash (see "Left out").
- **Overlay requests.** `setEnabled` on an overlay that is not installed changes
  nothing. The service replies false in that case, but `setOverlayEnabled` ignores
  the reply and still answers true.
- **ActionConstants.** That class is not part of this model. Its three action names
  are passed in as an `ActionNames` value.
- **Platform constants.** The model uses Android's public values:
  - `DisplayCutout.BOUNDS_POSITION_LEFT = 0` and `BOUNDS_POSITION_RIGHT = 2`;
  - `CameraCharacteristics.LENS_FACING_BACK = 1`;
  - `DisplayMetrics.DENSITY_DEFAULT = 160`;
  - `ApplicationInfo.FLAG_SYSTEM = 1`.

## Model

| member | source | states |
|---|---|---|
| `PreferenceTree.FindPreference` | preference/src/com/aicp/gear/preference/ConstraintsHelper.java:233 | a preference found for a key carries that key and lies in the screen's hierarchy |
| `PreferenceTree.Lookup` | preference/src/com/aicp/gear/preference/ConstraintsHelper.java:233 | the manager's findPreference: nothing when there is no screen, otherwise FindPreference on the screen; a result lies under the screen and carries the key |
| `PreferenceConstraints.GetParent` | preference/src/com/aicp/gear/preference/ConstraintsHelper.java:199-211 | an answer is a group of the hierarchy that directly holds `p` |
| `PreferenceConstraints.ParentFrom` | preference/src/com/aicp/gear/preference/ConstraintsHelper.java:200-210 | the loop from child `i` on answers only with a group of the hierarchy that directly holds `p` |
| `PreferenceConstraints.GetParentIsFirstLink` | preference/src/com/aicp/gear/preference/ConstraintsHelper.java:199-211 | getParent returns the parent of the first link to `p` in depth-first child order, and null exactly when no preference in the tree has `p` as a child |
| `PreferenceConstraints.FoundHasParent` | preference/src/com/aicp/gear/preference/ConstraintsHelper.java:216-218 | a preference found by key, other than the screen, has a group, so hidePreference's unchecked dereference is safe |
| `PreferenceConstraints.Graveyard.constructor` | preference/src/com/aicp/gear/preference/ConstraintsHelper.java:172 | death row starts empty |
| `PreferenceConstraints.Graveyard.AddTombstone` | preference/src/com/aicp/gear/preference/ConstraintsHelper.java:189-193 | death row becomes old death row plus the key; queuing a queued key changes nothing |
| `PreferenceConstraints.Graveyard.HidePreference` | preference/src/com/aicp/gear/preference/ConstraintsHelper.java:213-227 | the preference is hidden; its group ends visible iff it was visible and some child is still visible; no other preference changes |
| `PreferenceConstraints.Graveyard.SummonReaper` | preference/src/com/aicp/gear/preference/ConstraintsHelper.java:229-242 | death row becomes exactly the queued keys not found; every found preference is hidden; only found preferences and their groups change, and only to hidden; a reap when no queued key is found changes nothing, so a second reap over the same screen is a no-op; in any order of death row, a preference hidden only as a group ends with no child visible, and the group of a found preference ends hidden when each of its children was hidden at the start or is found with that group as its parent |
| `PreferenceConstraints.ResolveIntent` | preference/src/com/aicp/gear/preference/ConstraintsHelper.java:116-133 | true iff some handler's application flags have the FLAG_SYSTEM bit set |
| `PreferenceConstraints.GetAttr` | preference/src/com/aicp/gear/preference/ConstraintsHelper.java:139-146 | `attr` when the theme resolves it to a non-zero resource id, `fallbackAttr` otherwise |
| `PreferenceConstraints.ConstraintsHelper.IsAvailable` | preference/src/com/aicp/gear/preference/ConstraintsHelper.java:81-83 | the availability flag as last set by the constructor, SetAvailable, CheckIntent or OnAttached |
| `PreferenceConstraints.ConstraintsHelper.constructor` | preference/src/com/aicp/gear/preference/ConstraintsHelper.java:59-72 | a new helper is available and keeps the replaced key from the attributes |
| `PreferenceConstraints.ConstraintsHelper.SetAvailable` | preference/src/com/aicp/gear/preference/ConstraintsHelper.java:74-79 | availability becomes the argument; false queues the preference's key, true queues nothing |
| `PreferenceConstraints.ConstraintsHelper.CheckIntent` | preference/src/com/aicp/gear/preference/ConstraintsHelper.java:103-111 | an intent with no system handler queues the key and makes the preference unavailable; no intent or a resolving one changes nothing |
| `PreferenceConstraints.ConstraintsHelper.OnAttached` | preference/src/com/aicp/gear/preference/ConstraintsHelper.java:148-156 | after the intent check, the replaced key is queued if still available; then a reap always runs, with SummonReaper's outcome over all keys queued by then, including both group clauses |
| `DeviceUtils.JavaDiv` | util/src/com/aicp/gear/util/DeviceUtils.java:161-162 | Java int division, equal to mathematical division on non-negative operands |
| `DeviceUtils.DeviceSupportsTorch` | util/src/com/aicp/gear/util/DeviceUtils.java:111-114 | always true: every device is taken to support the torch |
| `DeviceUtils.IsSupportedFeature` | util/src/com/aicp/gear/util/DeviceUtils.java:139-149 | false exactly when the action is the torch on a device without one, or either vibration action on a device without a vibrator |
| `DeviceUtils.UnsupportedOnlyVibration` | util/src/com/aicp/gear/util/DeviceUtils.java:111-114 | a value is unsupported iff it is a vibration action on a device without a vibrator; the torch is never dropped |
| `DeviceUtils.Kept` | util/src/com/aicp/gear/util/DeviceUtils.java:126-127 | every kept index is a position of `valuesArray` |
| `DeviceUtils.Pick` | util/src/com/aicp/gear/util/DeviceUtils.java:128-135 | the picked array has one element per kept index, the element at that index |
| `DeviceUtils.KeptExactly` | util/src/com/aicp/gear/util/DeviceUtils.java:126-131 | the kept indices are strictly increasing, no more than the values, and are exactly the supported positions |
| `DeviceUtils.FilterUnsupportedDeviceFeatures` | util/src/com/aicp/gear/util/DeviceUtils.java:116-137 | null iff an argument is null; otherwise entries and values at the kept indices, paired and in order; an out-of-bounds exception exactly when a kept index lies past the end of `entriesArray`, at the first such index |
| `DeviceUtils.ShortSizeDp` | util/src/com/aicp/gear/util/DeviceUtils.java:160-162 | min(h, w) * 160 / dpi in wrapping, truncating int arithmetic; ArithmeticException exactly when the density is zero |
| `DeviceUtils.ShortSizeDpExact` | util/src/com/aicp/gear/util/DeviceUtils.java:160-162 | on a realistic display the int arithmetic equals min(h, w) * 160 / dpi |
| `DeviceUtils.Classify` | util/src/com/aicp/gear/util/DeviceUtils.java:163-169 | DEVICE_PHONE below 600 dp, DEVICE_HYBRID below 720 dp, DEVICE_TABLET otherwise |
| `DeviceUtils.GetScreenType` | util/src/com/aicp/gear/util/DeviceUtils.java:156-170 | Classify of the short side in dp; the zero-density exception propagates |
| `DeviceUtils.ScreenTypeIs` | util/src/com/aicp/gear/util/DeviceUtils.java:172-182 | whether getScreenType answers the given type; the exception propagates |
| `DeviceUtils.IsPhone` | util/src/com/aicp/gear/util/DeviceUtils.java:172-174 | getScreenType is DEVICE_PHONE |
| `DeviceUtils.IsHybrid` | util/src/com/aicp/gear/util/DeviceUtils.java:176-178 | getScreenType is DEVICE_HYBRID |
| `DeviceUtils.IsTablet` | util/src/com/aicp/gear/util/DeviceUtils.java:180-182 | getScreenType is DEVICE_TABLET |
| `DeviceUtils.ExactlyOneScreenType` | util/src/com/aicp/gear/util/DeviceUtils.java:156-182 | a zero density makes isPhone, isHybrid and isTablet all throw; otherwise phone below 600 dp, hybrid below 720 dp, tablet from 720 dp, and exactly one of the three is true |
| `DeviceUtils.ClassifyMonotone` | util/src/com/aicp/gear/util/DeviceUtils.java:163-169 | a larger short side never gives a smaller device class |
| `DeviceUtils.RectPosition` | util/src/com/aicp/gear/util/DeviceUtils.java:242-248 | BOUNDS_POSITION_LEFT for a rectangle from the left edge with positive right; else BOUNDS_POSITION_RIGHT for one ending at the display width with a positive wrapped width; else NO_CUTOUT |
| `DeviceUtils.GetCutoutType` | util/src/com/aicp/gear/util/DeviceUtils.java:227-252 | NO_CUTOUT iff no cutout, no rectangle list, or no rectangle on an edge; otherwise the position of the first such rectangle, with the left test first |
| `DeviceUtils.DeviceSupportsFlashLight` | util/src/com/aicp/gear/util/DeviceUtils.java:205-225 | true iff the id list is read and some camera is reached, every earlier one answering without a back flash, whose flash is available and whose lens faces back; the exception propagates iff the first camera that stops the search fails with an exception other than CameraAccessException or AssertionError; false otherwise |
| `ThemeOverlayHelper.OverlayManager.GetOverlayInfo` | util/src/com/aicp/gear/util/ThemeOverlayHelper.java:259 | a lookup that does not throw reports the installed overlay's flag, or null when it is not installed |
| `ThemeOverlayHelper.OverlayManager.SetEnabled` | util/src/com/aicp/gear/util/ThemeOverlayHelper.java:247 | a request that does not throw sets an installed overlay's flag and touches nothing else; a failed one changes nothing |
| `ThemeOverlayHelper.AccentOverlaysDistinct` | util/src/com/aicp/gear/util/ThemeOverlayHelper.java:64-86 | the 21 accent packages are pairwise different |
| `ThemeOverlayHelper.AccentMap` | util/src/com/aicp/gear/util/ThemeOverlayHelper.java:122-146 | the keys are exactly 1 to 21 and key k maps to ACCENT_OVERLAYS[k - 1] |
| `ThemeOverlayHelper.IsOverlayEnabled` | util/src/com/aicp/gear/util/ThemeOverlayHelper.java:256-264 | false when the lookup throws or the overlay is not installed, otherwise the overlay's enabled flag |
| `ThemeOverlayHelper.SetOverlayEnabled` | util/src/com/aicp/gear/util/ThemeOverlayHelper.java:241-254 | when the looked-up state equals the request, no request is sent, nothing changes and the answer is false; otherwise one request is sent, the answer is true iff it did not throw, and then the overlay alone takes the requested state |
| `ThemeOverlayHelper.IsUsingDarkTheme` | util/src/com/aicp/gear/util/ThemeOverlayHelper.java:266-269 | true iff the first dark overlay or the first black overlay is read as enabled |
| `ThemeOverlayHelper.UpdateOverlays` | util/src/com/aicp/gear/util/ThemeOverlayHelper.java:168-239 | reports no change and touches no overlay |
| `ThemeOverlayHelper.IsDarkBaseTheme` | util/src/com/aicp/gear/util/ThemeOverlayHelper.java:271-273 | the base theme is between 1 and 6 |
| `ThemeOverlayHelper.HasThemedNotifications` | util/src/com/aicp/gear/util/ThemeOverlayHelper.java:275-277 | the base theme is between 3 and 6 |
| `ThemeOverlayHelper.ThemedNotificationsAreDark` | util/src/com/aicp/gear/util/ThemeOverlayHelper.java:271-277 | themed notifications (3 to 6) imply a dark base theme (1 to 6); the dark themes without them are exactly 1 and 2 |
| `ThemeOverlayHelper.IsThemeSystemSetting` | util/src/com/aicp/gear/util/ThemeOverlayHelper.java:148-166 | never true, since the set of theming settings is never filled |
| `ThemeOverlayHelper.DoesThemeChangeRequireSystemUIRestart` | util/src/com/aicp/gear/util/ThemeOverlayHelper.java:283-316 | never true as the body stands |

## Left out

- SummonReaper: the contract does not decide every group. Death row is an ArraySet, walked in the order of its keys' hash codes, which the model does not compute; it picks queued keys in arbitrary order, and every contract holds for every order. It states a necessary condition for a group hidden as a group (no child visible) and a sufficient one (every child hidden at the start or found with that group as its parent). Between the two a group's fate depends on the order. Example: group G holds found `a` and group H, and H holds only found `b`. G ends hidden if `b` is reaped first, and visible if `a` is.
- SummonReaper, OnAttached: both require that the screen's own key is not queued. With that key queued, findPreference returns the screen itself, getParent finds no group, and hidePreference throws NullPointerException at ConstraintsHelper.java:216-218. That crash is not modelled.
- IsOverlayEnabled, SetOverlayEnabled, IsUsingDarkTheme: remote failures are nondeterministic. Ghost out-parameters report which calls failed, so the contracts are exact given those reports.
- Preference keys are strings. A preference without a key, and queuing a null key, are not modelled.
- An action value that is null in `valuesArray` would throw in `isSupportedFeature`; it is not modelled, because values are strings.
- The graveyard's lazy singleton creation and its `synchronized` blocks are not modelled. There is one shared graveyard object, used sequentially.
- Logging and `printStackTrace` are left out; they have no effect on results.
- `onBindViewHolder` is left out; it returns on both paths without effect.
- The outer class's unused duplicate `getParent` (ConstraintsHelper.java:85-101) is left out; it mirrors `GetParent`.
- The `resolveIntent(Context, String)` overload is left out. It resolves a new intent for the action, which is `ResolveIntent` on that intent's handlers.
- The platform queries are inputs or left out: the vibrator (`Device.hasVibrator`), the display sizes and cutout, the camera list, the package manager's handler list and the theme's attribute table. Bluetooth, NFC, GPS, fingerprint, the ADB setting, Wi-Fi display and voice capability are single platform calls and are left out.
- The overlay manager holds one user's overlays, so the `userId` arguments are dropped.
- The context arguments of the theme functions are dropped, because those bodies do not use them.
- Commented-out bodies are left out: the per-setting overlay selection in `updateOverlays`, the restart rules, `updateNightMode`, and the USB tether, mobile data, LTE and Wi-Fi-only checks.
- The overlay package lists used only by that dead code are left out: dark common, notification, transparent, round and non-round, old icons, and QS shapes.
- OverlayPreference, OverlayColorMatrixListPreference, ColorMatrixListPreference and SelfRemovingPreferenceCategory are not part of this model. They are constructor and attribute plumbing over the platform's Preference classes. Two of them call ThemeOverlayHelper members that do not appear in ThemeOverlayHelper.java.
