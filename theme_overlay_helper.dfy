/**
 * ThemeOverlayHelper: switching runtime resource overlays on and off through the
 * system overlay manager, the theme predicates and the accent table.
 */
module ThemeOverlayHelper {
  import opened Wrappers

  // ---------------------------------------------------------------------------
  // The overlay manager service
  // ---------------------------------------------------------------------------

  /** What getOverlayInfo reports about an installed overlay. */
  datatype OverlayInfo = OverlayInfo(enabled: bool)

  /**
   * The overlay manager as seen by one user: the installed overlays and whether each is
   * enabled. Every remote call may fail (RemoteException) without any effect.
   */
  class OverlayManager {
    var overlays: map<string, bool>
    /** Every setEnabled request that was sent, failed or not. */
    ghost var requests: seq<(string, bool)>

    constructor (overlays: map<string, bool>)
      ensures this.overlays == overlays && requests == []
    {
      this.overlays := overlays;
      requests := [];
    }

    /** getOverlayInfo: None (null) for a package that is not installed. */
    method GetOverlayInfo(overlay: string) returns (r: Result<Option<OverlayInfo>>)
      ensures r.Success? ==>
        r.value == if overlay in overlays then Some(OverlayInfo(overlays[overlay])) else None
    {
      var fails: bool :| true;
      if fails {
        return Thrown;
      }
      return Success(if overlay in overlays then Some(OverlayInfo(overlays[overlay])) else None);
    }

    /** setEnabled: changes an installed overlay; a package that is not installed is left alone. */
    method SetEnabled(overlay: string, enabled: bool) returns (r: Result<bool>)
      modifies this
      ensures requests == old(requests) + [(overlay, enabled)]
      ensures overlays == if r.Success? then Apply(old(overlays), overlay, enabled) else old(overlays)
      ensures r.Success? ==> r.value == (overlay in old(overlays))
    {
      requests := requests + [(overlay, enabled)];
      var fails: bool :| true;
      if fails {
        return Thrown;
      }
      var installed := overlay in overlays;
      overlays := Apply(overlays, overlay, enabled);
      return Success(installed);
    }
  }

  /** The overlay table after a successful setEnabled. */
  function Apply(overlays: map<string, bool>, overlay: string, enabled: bool): (r: map<string, bool>)
    ensures r.Keys == overlays.Keys
    ensures overlay in overlays ==> r[overlay] == enabled
    ensures forall o :: o in overlays && o != overlay ==> r[o] == overlays[o]
  {
    if overlay in overlays then overlays[overlay := enabled] else overlays
  }

  /** The overlay is installed and enabled. */
  predicate Enabled(overlays: map<string, bool>, overlay: string)
  {
    overlay in overlays && overlays[overlay]
  }

  // ---------------------------------------------------------------------------
  // Package names
  // ---------------------------------------------------------------------------

  const DARK_OVERLAYS: seq<string> := [
    "com.aicp.overlay.defaultdark.android",
    "com.aicp.overlay.defaultdark.com.android.systemui"
  ]

  const BLACK_OVERLAYS: seq<string> := [
    "com.aicp.overlay.defaultblack.android",
    "com.aicp.overlay.defaultblack.com.android.systemui"
  ]

  const ACCENT_OVERLAYS: seq<string> := [
    "com.aicp.overlay.accent.amber.android",
    "com.aicp.overlay.accent.greenlight.android",
    "com.aicp.overlay.accent.lime.android",
    "com.aicp.overlay.accent.bluelight.android",
    "com.aicp.overlay.accent.cyan.android",
    "com.aicp.overlay.accent.denim.android",
    "com.aicp.overlay.accent.gold.android",
    "com.aicp.overlay.accent.orange.android",
    "com.aicp.overlay.accent.oxygen.android",
    "com.aicp.overlay.accent.pink.android",
    "com.aicp.overlay.accent.pixel.android",
    "com.aicp.overlay.accent.purple.android",
    "com.aicp.overlay.accent.red.android",
    "com.aicp.overlay.accent.teal.android",
    "com.aicp.overlay.accent.turquoise.android",
    "com.aicp.overlay.accent.yellow.android",
    "com.aicp.overlay.accent.grey.android",
    "com.aicp.overlay.accent.carnation.android",
    "com.aicp.overlay.accent.whiteblack.android",
    "com.aicp.overlay.accent.indigo.android",
    "com.aicp.overlay.accent.lava.android"
  ]

  /**
   * The 21 accent packages are pairwise different, so ACCENT_MAP, which sends setting k
   * to ACCENT_OVERLAYS[k - 1], gives each setting its own package.
   */
  lemma AccentOverlaysDistinct()
    ensures |ACCENT_OVERLAYS| == 21
    ensures forall i, j :: 0 <= i < j < |ACCENT_OVERLAYS| ==> ACCENT_OVERLAYS[i] != ACCENT_OVERLAYS[j]
  {
  }

  /** The static initializer of ACCENT_MAP: accent setting k selects ACCENT_OVERLAYS[k - 1]. */
  method AccentMap() returns (m: map<int, string>)
    ensures forall k :: k in m <==> 1 <= k <= 21
    ensures forall k :: k in m ==> m[k] == ACCENT_OVERLAYS[k - 1]
  {
    m := map[];
    m := m[1 := ACCENT_OVERLAYS[0]];   // amber
    m := m[2 := ACCENT_OVERLAYS[1]];   // green light
    m := m[3 := ACCENT_OVERLAYS[2]];   // lime
    m := m[4 := ACCENT_OVERLAYS[3]];   // blue light
    m := m[5 := ACCENT_OVERLAYS[4]];   // cyan
    m := m[6 := ACCENT_OVERLAYS[5]];   // denim
    m := m[7 := ACCENT_OVERLAYS[6]];   // gold
    m := m[8 := ACCENT_OVERLAYS[7]];   // orange
    m := m[9 := ACCENT_OVERLAYS[8]];   // oxygen
    m := m[10 := ACCENT_OVERLAYS[9]];  // pink
    m := m[11 := ACCENT_OVERLAYS[10]]; // pixel
    m := m[12 := ACCENT_OVERLAYS[11]]; // purple
    m := m[13 := ACCENT_OVERLAYS[12]]; // red
    m := m[14 := ACCENT_OVERLAYS[13]]; // teal
    m := m[15 := ACCENT_OVERLAYS[14]]; // turquoise
    m := m[16 := ACCENT_OVERLAYS[15]]; // yellow
    m := m[17 := ACCENT_OVERLAYS[16]]; // grey
    m := m[18 := ACCENT_OVERLAYS[17]]; // carnation
    m := m[19 := ACCENT_OVERLAYS[18]]; // white black
    m := m[20 := ACCENT_OVERLAYS[19]]; // indigo
    m := m[21 := ACCENT_OVERLAYS[20]]; // lava
  }

  // ---------------------------------------------------------------------------
  // Querying and switching overlays
  // ---------------------------------------------------------------------------

  /**
   * isOverlayEnabled: false when the lookup throws (reported in `failed`) or the overlay
   * is not installed, otherwise the overlay's enabled flag.
   */
  method IsOverlayEnabled(om: OverlayManager, overlay: string) returns (r: bool, ghost failed: bool)
    ensures r == (!failed && Enabled(om.overlays, overlay))
  {
    var info := om.GetOverlayInfo(overlay);
    failed := info.Thrown?;
    r := info.Success? && info.value.Some? && info.value.value.enabled;
  }

  /**
   * setOverlayEnabled: when the looked-up state already is `enabled` nothing is sent and
   * the answer is false, so asking again for the state just reached changes nothing.
   * Otherwise one setEnabled request is sent and the answer is whether it did not throw;
   * the service's own reply (false for an overlay that is not installed) is ignored.
   */
  method SetOverlayEnabled(om: OverlayManager, overlay: string, enabled: bool)
    returns (changed: bool, ghost lookupFailed: bool, ghost setFailed: bool)
    modifies om
    ensures var current := !lookupFailed && Enabled(old(om.overlays), overlay);
      if current == enabled then
        !changed && om.overlays == old(om.overlays) && om.requests == old(om.requests)
      else
        om.requests == old(om.requests) + [(overlay, enabled)] &&
        changed == !setFailed &&
        om.overlays == if changed then Apply(old(om.overlays), overlay, enabled) else old(om.overlays)
  {
    var currentlyEnabled;
    currentlyEnabled, lookupFailed := IsOverlayEnabled(om, overlay);
    setFailed := false;
    if currentlyEnabled != enabled {
      var reply := om.SetEnabled(overlay, enabled);
      if reply.Success? {
        return true, lookupFailed, setFailed;
      }
      setFailed := true;
    }
    return false, lookupFailed, setFailed;
  }

  /** isUsingDarkTheme: the first dark or the first black overlay is enabled (the second is asked only if needed). */
  method IsUsingDarkTheme(om: OverlayManager) returns (r: bool, ghost darkFailed: bool, ghost blackFailed: bool)
    ensures r == ((!darkFailed && Enabled(om.overlays, DARK_OVERLAYS[0])) ||
                  (!blackFailed && Enabled(om.overlays, BLACK_OVERLAYS[0])))
  {
    r, darkFailed := IsOverlayEnabled(om, DARK_OVERLAYS[0]);
    blackFailed := false;
    if !r {
      r, blackFailed := IsOverlayEnabled(om, BLACK_OVERLAYS[0]);
    }
  }

  /**
   * updateOverlays as it stands: the per-setting selection is commented out, so it
   * reports no change and touches no overlay.
   */
  method UpdateOverlays(om: OverlayManager) returns (changed: bool)
    ensures !changed
  {
    changed := false;
  }

  // ---------------------------------------------------------------------------
  // Theme settings
  // ---------------------------------------------------------------------------

  /** The base-theme settings 1 to 6 are the dark variants. */
  predicate IsDarkBaseTheme(baseTheme: int)
  {
    baseTheme > 0 && baseTheme <= 6
  }

  /** The base-theme settings 3 to 6 also theme the notifications. */
  predicate HasThemedNotifications(baseTheme: int)
  {
    baseTheme >= 3 && baseTheme <= 6
  }

  /** Themed notifications come only with a dark base theme, and the dark themes 1 and 2 have none. */
  lemma ThemedNotificationsAreDark(baseTheme: int)
    ensures HasThemedNotifications(baseTheme) ==> IsDarkBaseTheme(baseTheme)
    ensures IsDarkBaseTheme(baseTheme) && !HasThemedNotifications(baseTheme) <==> baseTheme == 1 || baseTheme == 2
  {
  }

  /** The settings whose change needs re-theming; the additions are commented out, so it stays empty. */
  const THEMING_SYSTEM_SETTINGS: set<string> := {}

  /** isThemeSystemSetting: membership in THEMING_SYSTEM_SETTINGS, never true as things stand. */
  function IsThemeSystemSetting(uri: string): (r: bool)
    ensures !r
  {
    uri in THEMING_SYSTEM_SETTINGS
  }

  /** doesThemeChangeRequireSystemUIRestart as it stands: its rules are commented out, so never. */
  function DoesThemeChangeRequireSystemUIRestart(preferenceKey: string, previousValue: Option<int>, newValue: int): (r: bool)
    ensures !r
  {
    false
  }
}
