/**
 * DeviceUtils: the device-feature helpers whose logic does not live in the platform.
 * Platform answers (the vibrator, the display's size and cutout, the camera list) are
 * inputs; Java's 32-bit int arithmetic is written out where it can wrap.
 */
module DeviceUtils {
  import opened Wrappers

  // ---------------------------------------------------------------------------
  // Java int arithmetic
  // ---------------------------------------------------------------------------

  const INT_MIN: int := -0x8000_0000
  const INT_MAX: int := 0x7fff_ffff

  type Int32 = x: int | INT_MIN <= x <= INT_MAX

  /** The value a Java int holds after an arithmetic result `x` wraps around. */
  function Wrap32(x: int): (r: Int32)
    ensures INT_MIN <= x <= INT_MAX ==> r == x
    ensures (r - x) % 0x1_0000_0000 == 0
  {
    (x - INT_MIN) % 0x1_0000_0000 + INT_MIN
  }

  /** Java's `/` on ints: truncates toward zero (the one overflow, MIN / -1, wraps to MIN). */
  function JavaDiv(a: Int32, b: Int32): (r: Int32)
    requires b != 0
    ensures a >= 0 && b > 0 ==> r == a / b
  {
    var q: int := (if a < 0 then -(a as int) else a as int) / (if b < 0 then -(b as int) else b as int);
    Wrap32(if (a < 0) != (b < 0) then -q else q)
  }

  // ---------------------------------------------------------------------------
  // Filtering a list preference's entries by device support
  // ---------------------------------------------------------------------------

  /** The ActionConstants names the filter tests against (ActionConstants is not part of this model). */
  datatype ActionNames = ActionNames(torch: string, vib: string, vibSilent: string)

  /** What the context tells about the device. */
  datatype Device = Device(hasVibrator: bool)

  /** deviceSupportsTorch: the torch API is not adapted yet, so every device reports support. */
  function DeviceSupportsTorch(device: Device): bool
  {
    true
  }

  /** isSupportedFeature: false only for the torch without torch support or a vibration action without a vibrator. */
  predicate IsSupportedFeature(names: ActionNames, device: Device, action: string)
  {
    !((action == names.torch && !DeviceSupportsTorch(device))
      || (action == names.vib && !device.hasVibrator)
      || (action == names.vibSilent && !device.hasVibrator))
  }

  /** Only the two vibration actions can be unsupported, and only on a device without a vibrator. */
  lemma UnsupportedOnlyVibration(names: ActionNames, device: Device, action: string)
    ensures !IsSupportedFeature(names, device, action) <==>
      !device.hasVibrator && (action == names.vib || action == names.vibSilent)
  {
  }

  /** The indices of the supported values in `values`, in increasing order. */
  function Kept(names: ActionNames, device: Device, values: seq<string>): (r: seq<nat>)
    ensures forall j :: 0 <= j < |r| ==> r[j] < |values|
  {
    if values == [] then []
    else
      var n := |values| - 1;
      Kept(names, device, values[..n]) + (if IsSupportedFeature(names, device, values[n]) then [n] else [])
  }

  /** The elements of `s` at the positions `idx`, in that order. */
  function Pick(s: seq<string>, idx: seq<nat>): (r: seq<string>)
    requires forall j :: 0 <= j < |idx| ==> idx[j] < |s|
    ensures |r| == |idx|
    ensures forall j :: 0 <= j < |idx| ==> r[j] == s[idx[j]]
  {
    if idx == [] then [] else Pick(s, idx[..|idx| - 1]) + [s[idx[|idx| - 1]]]
  }

  lemma {:induction false} KeptLength(names: ActionNames, device: Device, values: seq<string>)
    ensures |Kept(names, device, values)| <= |values|
    decreases |values|
  {
    if values != [] {
      KeptLength(names, device, values[..|values| - 1]);
    }
  }

  lemma {:induction false} KeptIncreasing(names: ActionNames, device: Device, values: seq<string>)
    ensures forall j, j' :: 0 <= j < j' < |Kept(names, device, values)| ==>
      Kept(names, device, values)[j] < Kept(names, device, values)[j']
    decreases |values|
  {
    if values != [] {
      var n := |values| - 1;
      var keep := Kept(names, device, values[..n]);
      KeptIncreasing(names, device, values[..n]);
      var all := Kept(names, device, values);
      assert all == keep + (if IsSupportedFeature(names, device, values[n]) then [n] else []);
      forall j, j' | 0 <= j < j' < |all| ensures all[j] < all[j'] {
        assert all[j] == keep[j];
        if j' < |keep| {
          assert all[j'] == keep[j'];
        }
      }
    }
  }

  lemma {:induction false} KeptSupported(names: ActionNames, device: Device, values: seq<string>)
    ensures forall j :: 0 <= j < |Kept(names, device, values)| ==>
      IsSupportedFeature(names, device, values[Kept(names, device, values)[j]])
    decreases |values|
  {
    if values != [] {
      var n := |values| - 1;
      var prefix := values[..n];
      var keep := Kept(names, device, prefix);
      KeptSupported(names, device, prefix);
      var all := Kept(names, device, values);
      assert all == keep + (if IsSupportedFeature(names, device, values[n]) then [n] else []);
      forall j | 0 <= j < |all| ensures IsSupportedFeature(names, device, values[all[j]]) {
        if j < |keep| {
          assert all[j] == keep[j];
          assert values[keep[j]] == prefix[keep[j]];
        }
      }
    }
  }

  lemma {:induction false} KeptComplete(names: ActionNames, device: Device, values: seq<string>)
    ensures forall i :: 0 <= i < |values| && IsSupportedFeature(names, device, values[i]) ==>
      i in Kept(names, device, values)
    decreases |values|
  {
    if values != [] {
      var n := |values| - 1;
      KeptComplete(names, device, values[..n]);
      assert forall i :: 0 <= i < n ==> values[..n][i] == values[i];
    }
  }

  /**
   * Kept lists exactly the supported positions, strictly increasing: filtering keeps the
   * order of the input and drops nothing that is supported.
   */
  lemma KeptExactly(names: ActionNames, device: Device, values: seq<string>)
    ensures |Kept(names, device, values)| <= |values|
    ensures forall j :: 0 <= j < |Kept(names, device, values)| ==>
      IsSupportedFeature(names, device, values[Kept(names, device, values)[j]])
    ensures forall j, j' :: 0 <= j < j' < |Kept(names, device, values)| ==>
      Kept(names, device, values)[j] < Kept(names, device, values)[j']
    ensures forall i :: 0 <= i < |values| ==>
      (IsSupportedFeature(names, device, values[i]) <==> i in Kept(names, device, values))
  {
    KeptLength(names, device, values);
    KeptIncreasing(names, device, values);
    KeptSupported(names, device, values);
    KeptComplete(names, device, values);
  }

  /** The two arrays of FilteredDeviceFeaturesArray. */
  datatype FilteredDeviceFeatures = FilteredDeviceFeatures(entries: seq<string>, values: seq<string>)

  /** What filterUnsupportedDeviceFeatures produces: null, the filtered arrays, or an exception. */
  datatype FilterOutcome =
    | NullResult
    | Filtered(result: FilteredDeviceFeatures)
    /** ArrayIndexOutOfBoundsException on `entriesArray[index]`. */
    | IndexOutOfBounds(index: nat)

  /**
   * filterUnsupportedDeviceFeatures: null when an argument is null; otherwise the entries
   * and values at the supported positions, pairs kept together and in order. A supported
   * position past the end of `entriesArray` throws, on the first such position.
   */
  method FilterUnsupportedDeviceFeatures(names: ActionNames, context: Option<Device>,
                                         valuesArray: Option<seq<string>>, entriesArray: Option<seq<string>>)
    returns (r: FilterOutcome)
    ensures r.NullResult? <==> valuesArray.None? || entriesArray.None? || context.None?
    ensures r.IndexOutOfBounds? ==>
      FirstOutOfBoundsAt(Kept(names, context.value, valuesArray.value), |entriesArray.value|, r.index)
    ensures r.Filtered? ==>
      var keep := Kept(names, context.value, valuesArray.value);
      AllInBounds(keep, |entriesArray.value|) &&
      r.result == FilteredDeviceFeatures(Pick(entriesArray.value, keep), Pick(valuesArray.value, keep))
  {
    if valuesArray.None? || entriesArray.None? || context.None? {
      return NullResult;
    }
    var values, entries, device := valuesArray.value, entriesArray.value, context.value;
    var finalEntries: seq<string> := [];
    var finalValues: seq<string> := [];
    ghost var keep: seq<nat> := [];
    for i := 0 to |values|
      invariant keep == Kept(names, device, values[..i])
      invariant AllInBounds(keep, |entries|)
      invariant finalEntries == Pick(entries, keep)
      invariant finalValues == Pick(values, keep)
    {
      KeptStep(names, device, values, i);
      if IsSupportedFeature(names, device, values[i]) {
        if i >= |entries| {
          FirstOutOfBounds(names, device, values, |entries|, i);
          return IndexOutOfBounds(i);
        }
        PickStep(entries, keep, i);
        PickStep(values, keep, i);
        finalEntries := finalEntries + [entries[i]];
        finalValues := finalValues + [values[i]];
        keep := keep + [i];
      }
    }
    assert values[..|values|] == values;
    return Filtered(FilteredDeviceFeatures(finalEntries, finalValues));
  }

  /** Every kept position is a valid index into an array of length n. */
  predicate AllInBounds(keep: seq<nat>, n: nat)
  {
    forall j :: 0 <= j < |keep| ==> keep[j] < n
  }

  /** idx is the first kept position that is not a valid index into an array of length n. */
  predicate FirstOutOfBoundsAt(keep: seq<nat>, n: nat, idx: nat)
  {
    exists j :: 0 <= j < |keep| && keep[j] == idx && idx >= n && AllInBounds(keep[..j], n)
  }

  /** One more position: Kept grows by that position exactly when its value is supported. */
  lemma KeptStep(names: ActionNames, device: Device, values: seq<string>, i: nat)
    requires i < |values|
    ensures Kept(names, device, values[..i + 1]) ==
      Kept(names, device, values[..i]) + (if IsSupportedFeature(names, device, values[i]) then [i] else [])
  {
    assert values[..i + 1][..i] == values[..i];
  }

  lemma PickStep(s: seq<string>, idx: seq<nat>, x: nat)
    requires forall j :: 0 <= j < |idx| ==> idx[j] < |s|
    requires x < |s|
    ensures Pick(s, idx + [x]) == Pick(s, idx) + [s[x]]
  {
    assert (idx + [x])[..|idx|] == idx;
  }

  /**
   * The first supported position past the end of `entriesArray`, reached with every
   * earlier kept position in bounds, is the first kept index that is out of bounds.
   */
  lemma FirstOutOfBounds(names: ActionNames, device: Device, values: seq<string>, entriesLength: nat, i: nat)
    requires i < |values| && IsSupportedFeature(names, device, values[i]) && i >= entriesLength
    requires AllInBounds(Kept(names, device, values[..i]), entriesLength)
    ensures FirstOutOfBoundsAt(Kept(names, device, values), entriesLength, i)
  {
    var before := Kept(names, device, values[..i]);
    KeptStep(names, device, values, i);
    KeptPrefix(names, device, values, i + 1);
    var keep := Kept(names, device, values);
    assert keep[|before|] == i;
    assert keep[..|before|] == before;
  }

  /** Kept of a prefix is a prefix of Kept. */
  lemma {:induction false} KeptPrefix(names: ActionNames, device: Device, values: seq<string>, i: nat)
    requires i <= |values|
    ensures Kept(names, device, values[..i]) <= Kept(names, device, values)
    decreases |values| - i
  {
    if i < |values| {
      KeptPrefix(names, device, values, i + 1);
      assert values[..i + 1][..i] == values[..i];
    } else {
      assert values[..i] == values;
    }
  }

  // ---------------------------------------------------------------------------
  // Screen classification
  // ---------------------------------------------------------------------------

  const DEVICE_PHONE: int := 0
  const DEVICE_HYBRID: int := 1
  const DEVICE_TABLET: int := 2

  /** DisplayMetrics.DENSITY_DEFAULT, the density of a density-independent pixel. */
  const DENSITY_DEFAULT: Int32 := 160

  /**
   * The shorter side of the display in dp, computed in Java int arithmetic; a density of
   * zero makes the division throw ArithmeticException.
   */
  function ShortSizeDp(logicalHeight: Int32, logicalWidth: Int32, logicalDensityDpi: Int32): (r: Result<Int32>)
    ensures r.Thrown? <==> logicalDensityDpi == 0
  {
    if logicalDensityDpi == 0 then Thrown
    else
      var shortSize := if logicalHeight < logicalWidth then logicalHeight else logicalWidth;
      Success(JavaDiv(Wrap32(shortSize * DENSITY_DEFAULT), logicalDensityDpi))
  }

  /** On any real display the int arithmetic is exact: min(h, w) * 160 / dpi. */
  lemma ShortSizeDpExact(logicalHeight: Int32, logicalWidth: Int32, logicalDensityDpi: Int32)
    requires 0 <= logicalHeight && 0 <= logicalWidth && 0 < logicalDensityDpi
    requires logicalHeight <= INT_MAX / 160 || logicalWidth <= INT_MAX / 160
    ensures ShortSizeDp(logicalHeight, logicalWidth, logicalDensityDpi) ==
      Success((if logicalHeight < logicalWidth then logicalHeight else logicalWidth) * 160 / logicalDensityDpi)
  {
  }

  /** The thresholds of getScreenType: below 600 dp a phone, below 720 dp a hybrid, otherwise a tablet. */
  function Classify(shortSizeDp: int): int
  {
    if shortSizeDp < 600 then DEVICE_PHONE
    else if shortSizeDp < 720 then DEVICE_HYBRID
    else DEVICE_TABLET
  }

  /** getScreenType; the ArithmeticException of a zero density propagates. */
  function GetScreenType(logicalHeight: Int32, logicalWidth: Int32, logicalDensityDpi: Int32): Result<int>
  {
    match ShortSizeDp(logicalHeight, logicalWidth, logicalDensityDpi)
    case Thrown => Thrown
    case Success(shortSizeDp) => Success(Classify(shortSizeDp))
  }

  /** Whether getScreenType answers `screenType`; its exception propagates. */
  function ScreenTypeIs(h: Int32, w: Int32, dpi: Int32, screenType: int): Result<bool>
  {
    match GetScreenType(h, w, dpi)
    case Thrown => Thrown
    case Success(t) => Success(t == screenType)
  }

  function IsPhone(h: Int32, w: Int32, dpi: Int32): Result<bool> { ScreenTypeIs(h, w, dpi, DEVICE_PHONE) }
  function IsHybrid(h: Int32, w: Int32, dpi: Int32): Result<bool> { ScreenTypeIs(h, w, dpi, DEVICE_HYBRID) }
  function IsTablet(h: Int32, w: Int32, dpi: Int32): Result<bool> { ScreenTypeIs(h, w, dpi, DEVICE_TABLET) }

  /**
   * A zero density makes all three queries throw; any other display is exactly one of
   * phone, hybrid and tablet, decided by its short side in dp.
   */
  lemma ExactlyOneScreenType(h: Int32, w: Int32, dpi: Int32)
    ensures dpi == 0 <==> IsPhone(h, w, dpi).Thrown?
    ensures dpi == 0 ==> IsPhone(h, w, dpi) == IsHybrid(h, w, dpi) == IsTablet(h, w, dpi) == Thrown
    ensures dpi != 0 ==>
      var s := ShortSizeDp(h, w, dpi).value;
      IsPhone(h, w, dpi) == Success(s < 600) &&
      IsHybrid(h, w, dpi) == Success(600 <= s < 720) &&
      IsTablet(h, w, dpi) == Success(720 <= s)
    ensures dpi != 0 ==>
      var phone, hybrid, tablet := IsPhone(h, w, dpi).value, IsHybrid(h, w, dpi).value, IsTablet(h, w, dpi).value;
      (phone || hybrid || tablet) && !(phone && hybrid) && !(phone && tablet) && !(hybrid && tablet)
  {
  }

  /** A larger short side never gives a smaller device class (phone < hybrid < tablet). */
  lemma ClassifyMonotone(a: int, b: int)
    requires a <= b
    ensures Classify(a) <= Classify(b)
  {
  }

  // ---------------------------------------------------------------------------
  // Display cutout
  // ---------------------------------------------------------------------------

  const NO_CUTOUT: int := -1
  /** DisplayCutout.BOUNDS_POSITION_LEFT and BOUNDS_POSITION_RIGHT. */
  const BOUNDS_POSITION_LEFT: int := 0
  const BOUNDS_POSITION_RIGHT: int := 2

  datatype Rect = Rect(left: Int32, top: Int32, right: Int32, bottom: Int32)

  /** A display cutout; its list of bounding rectangles may be null. */
  datatype DisplayCutout = DisplayCutout(boundingRects: Option<seq<Rect>>)

  /** Where one bounding rectangle puts the cutout: the left test is tried first. */
  function RectPosition(rect: Rect, displayWidth: Int32): int
  {
    if rect.left == 0 && rect.right > 0 then BOUNDS_POSITION_LEFT
    else if rect.right == displayWidth && Wrap32(displayWidth - rect.left) > 0 then BOUNDS_POSITION_RIGHT
    else NO_CUTOUT
  }

  /**
   * getCutoutType: the position of the first bounding rectangle that lies on the left or
   * the right edge; NO_CUTOUT when there is no cutout, no rectangle list, or no such rectangle.
   */
  method GetCutoutType(cutout: Option<DisplayCutout>, displayWidth: Int32) returns (r: int)
    ensures r in {NO_CUTOUT, BOUNDS_POSITION_LEFT, BOUNDS_POSITION_RIGHT}
    ensures r == NO_CUTOUT <==>
      cutout.None? || cutout.value.boundingRects.None? ||
      forall i :: 0 <= i < |cutout.value.boundingRects.value| ==>
        RectPosition(cutout.value.boundingRects.value[i], displayWidth) == NO_CUTOUT
    ensures r != NO_CUTOUT ==>
      var rects := cutout.value.boundingRects.value;
      exists i :: 0 <= i < |rects| && RectPosition(rects[i], displayWidth) == r &&
                  forall j :: 0 <= j < i ==> RectPosition(rects[j], displayWidth) == NO_CUTOUT
  {
    if cutout.None? {
      return NO_CUTOUT;
    }
    var cutOutBounds := cutout.value.boundingRects;
    if cutOutBounds.Some? {
      var rects := cutOutBounds.value;
      for i := 0 to |rects|
        invariant forall j :: 0 <= j < i ==> RectPosition(rects[j], displayWidth) == NO_CUTOUT
      {
        var rect := rects[i];
        if rect.left == 0 && rect.right > 0 {
          return BOUNDS_POSITION_LEFT;
        } else if rect.right == displayWidth && Wrap32(displayWidth - rect.left) > 0 {
          return BOUNDS_POSITION_RIGHT;
        }
      }
    }
    return NO_CUTOUT;
  }

  // ---------------------------------------------------------------------------
  // Flash light
  // ---------------------------------------------------------------------------

  /** CameraCharacteristics.LENS_FACING_BACK. */
  const LENS_FACING_BACK: Int32 := 1

  /** The two characteristics the check reads; either may be absent (null). */
  datatype CameraCharacteristics = CameraCharacteristics(flashAvailable: Option<bool>, lensFacing: Option<Int32>)

  /**
   * The camera service's answer to one getCameraCharacteristics call: the characteristics,
   * an exception the check catches (CameraAccessException or AssertionError), or one it
   * does not catch (such as IllegalArgumentException for an unknown id).
   */
  datatype CameraQuery = Answered(value: CameraCharacteristics) | CaughtFailure | UncaughtFailure

  predicate HasBackFlash(c: CameraCharacteristics)
  {
    c.flashAvailable == Some(true) && c.lensFacing == Some(LENS_FACING_BACK)
  }

  /** Every camera before index `i` answered its characteristics query without a back flash. */
  predicate NoFlashBefore(cameras: seq<CameraQuery>, i: nat)
    requires i <= |cameras|
  {
    forall j :: 0 <= j < i ==> cameras[j].Answered? && !HasBackFlash(cameras[j].value)
  }

  /**
   * deviceSupportsFlashLight: `cameraIds` is the camera service's answer to getCameraIdList
   * (Thrown for the exceptions the check catches), each element the answer for that id.
   * The search stops at the first camera with an available flash facing back (true), at
   * a caught exception (false), or at an uncaught one, which propagates (Thrown).
   */
  method DeviceSupportsFlashLight(cameraIds: Result<seq<CameraQuery>>) returns (r: Result<bool>)
    ensures r == Success(true) <==> (cameraIds.Success? &&
      exists i :: 0 <= i < |cameraIds.value| && NoFlashBefore(cameraIds.value, i) &&
                  cameraIds.value[i].Answered? && HasBackFlash(cameraIds.value[i].value))
    ensures r.Thrown? <==> (cameraIds.Success? &&
      exists i :: 0 <= i < |cameraIds.value| && NoFlashBefore(cameraIds.value, i) &&
                  cameraIds.value[i].UncaughtFailure?)
  {
    if cameraIds.Thrown? {
      return Success(false);
    }
    var ids := cameraIds.value;
    for i := 0 to |ids|
      invariant NoFlashBefore(ids, i)
    {
      match ids[i]
      case UncaughtFailure =>
        return Thrown;
      case CaughtFailure =>
        return Success(false);
      case Answered(c) =>
        var flashAvailable, lensFacing := c.flashAvailable, c.lensFacing;
        if flashAvailable.Some? && flashAvailable.value && lensFacing.Some? && lensFacing.value == LENS_FACING_BACK {
          return Success(true);
        }
    }
    return Success(false);
  }
}
