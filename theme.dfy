/** The theme preference: the chosen mode, its encoding in the preference
    store, and how a mode is applied to the application's theme. */
module Theme {
  import opened Wrappers

  /** The modes, stored as 0, 1 and 2. */
  datatype AppThemeMode = System | Light | Dark

  /** The application's theme (`AppTheme`): left to the platform, light or dark. */
  datatype AppTheme = Unspecified | LightTheme | DarkTheme

  /** The preference key of the mode. */
  const ThemeKey: string := "theme.mode"

  /** `(int)mode`. */
  function ModeValue(m: AppThemeMode): int {
    match m
    case System => 0
    case Light => 1
    case Dark => 2
  }

  /** `Enum.IsDefined` followed by the cast: the mode a stored number stands
      for, if any. */
  function ModeOf(v: int): (r: Option<AppThemeMode>)
    ensures r.Some? <==> 0 <= v <= 2
    ensures r.Some? ==> ModeValue(r.value) == v
  {
    if v == 0 then Some(System) else if v == 1 then Some(Light) else if v == 2 then Some(Dark) else None
  }

  /** Every mode is read back as itself. */
  lemma ModeRoundTrip(m: AppThemeMode)
    ensures ModeOf(ModeValue(m)) == Some(m)
  {
  }

  /** The mode `InitializeAsync` reads from the preferences: the stored mode,
      or System when nothing is stored or the stored number is no mode. */
  function StoredMode(prefs: map<string, int>): (r: AppThemeMode)
    ensures ThemeKey in prefs && 0 <= prefs[ThemeKey] <= 2 ==> ModeValue(r) == prefs[ThemeKey]
    ensures ThemeKey !in prefs || prefs[ThemeKey] < 0 || prefs[ThemeKey] > 2 ==> r == System
  {
    var stored := if ThemeKey in prefs then prefs[ThemeKey] else ModeValue(System);
    ModeOf(stored).GetOr(System)
  }

  /** Saving a mode and reading the preferences back restores the mode,
      whatever else they hold. */
  lemma SaveThenLoad(prefs: map<string, int>, m: AppThemeMode)
    ensures StoredMode(prefs[ThemeKey := ModeValue(m)]) == m
  {
    ModeRoundTrip(m);
  }

  /** `ApplyModeToMaui`'s mapping: the platform decides for System. */
  function MauiTheme(m: AppThemeMode): (t: AppTheme)
    ensures t == Unspecified <==> m == System
    ensures t == DarkTheme <==> m == Dark
  {
    match m
    case Light => LightTheme
    case Dark => DarkTheme
    case System => Unspecified
  }

  /** `IsDarkMode`, with `requested` the platform's theme when there is an
      application: a fixed mode decides, and System follows the platform. */
  function IsDark(m: AppThemeMode, requested: Option<AppTheme>): (r: bool)
    ensures m == Dark ==> r
    ensures m == Light ==> !r
    ensures m == System ==> (r <==> requested == Some(DarkTheme))
  {
    match m
    case Dark => true
    case Light => false
    case System => requested == Some(DarkTheme)
  }

  /** The mode is dark exactly when the theme it applies is dark, or, for the
      theme left to the platform, when the platform's is. */
  lemma DarkAgreesWithApplied(m: AppThemeMode, requested: Option<AppTheme>)
    ensures IsDark(m, requested) <==>
      MauiTheme(m) == DarkTheme || (MauiTheme(m) == Unspecified && requested == Some(DarkTheme))
  {
  }

  /** The theme service. `app` is `Application.Current`'s `UserAppTheme`,
      `None` when there is no application; `changed` counts the `Changed`
      notifications. */
  class ThemeService {
    var mode: AppThemeMode
    var prefs: map<string, int>
    var app: Option<AppTheme>
    var changed: nat

    /** A service over the preferences `prefs` and application `app`; the
        mode starts as System. */
    constructor(prefs: map<string, int>, app: Option<AppTheme>)
      ensures mode == System && this.prefs == prefs && this.app == app && changed == 0
    {
      mode := System;
      this.prefs := prefs;
      this.app := app;
      changed := 0;
    }

    /** `IsDarkMode`: the Dark mode is dark, the Light mode is not, and the
        System mode follows the platform's theme. */
    function IsDarkMode(requested: Option<AppTheme>): (r: bool)
      reads this
      ensures mode == Dark ==> r
      ensures mode == Light ==> !r
      ensures mode == System ==> (r <==> requested == Some(DarkTheme))
    {
      IsDark(mode, requested)
    }

    /** `ApplyModeToMaui`: sets the application's theme to the mode's, and
        does nothing when there is no application. */
    method ApplyModeToMaui()
      modifies this
      ensures app == if old(app).None? then None else Some(MauiTheme(mode))
      ensures mode == old(mode) && prefs == old(prefs) && changed == old(changed)
    {
      if app.None? {
        return;
      }
      app := Some(MauiTheme(mode));
    }

    /** `InitializeAsync`. When reading the preferences fails (`readFails`)
        the mode becomes System and nothing else happens; otherwise the
        stored mode is taken, applied and announced. */
    method Initialize(readFails: bool)
      modifies this
      ensures prefs == old(prefs)
      ensures readFails ==> mode == System && app == old(app) && changed == old(changed)
      ensures !readFails ==> mode == StoredMode(prefs) && changed == old(changed) + 1
      ensures !readFails ==> app == if old(app).None? then None else Some(MauiTheme(mode))
    {
      if readFails {
        mode := System;
        return;
      }
      var stored := if ThemeKey in prefs then prefs[ThemeKey] else ModeValue(System);
      mode := ModeOf(stored).GetOr(System);
      ApplyModeToMaui();
      changed := changed + 1;
    }

    /** `SetModeAsync`. The mode is set first; when writing the preference
        fails (`writeFails`) the failure is reported and nothing else
        changes; otherwise the mode is saved, applied and announced. */
    method SetMode(m: AppThemeMode, writeFails: bool) returns (r: Outcome<string>)
      modifies this
      ensures mode == m
      ensures writeFails ==> r.Fail? && prefs == old(prefs) && app == old(app) && changed == old(changed)
      ensures !writeFails ==> r == Pass && prefs == old(prefs)[ThemeKey := ModeValue(m)]
      ensures !writeFails ==> app == (if old(app).None? then None else Some(MauiTheme(m))) && changed == old(changed) + 1
      ensures !writeFails ==> StoredMode(prefs) == m
    {
      mode := m;
      if writeFails {
        return Fail("Failed to set theme mode");
      }
      prefs := prefs[ThemeKey := ModeValue(m)];
      ApplyModeToMaui();
      changed := changed + 1;
      SaveThenLoad(old(prefs), m);
      r := Pass;
    }
  }
}
