/** The dark-mode filter settings: four percentages read from the account's
    loosely typed settings, each clamped into [0, 100], with brightness and
    contrast never below 20. */
module DarkMode {
  import opened Wrappers
  import opened JsText
  import opened JsValue

  /** `dark_mode_mins`. */
  const MinBrightness := 20
  const MinContrast := 20
  const MinSepia := 0
  const MinGrayscale := 0

  datatype Config = Config(brightness: int, contrast: int, sepia: int, grayscale: int)

  /** `to_number(x, default_value)`: the integer `parseInt` reads from `x`,
      clamped into [0, 100], or the default when `x` is null, undefined or
      has no leading integer. */
  function ToNumber(x: Value, defaultValue: int): (r: int)
    ensures 0 <= defaultValue <= 100 ==> 0 <= r <= 100
  {
    if IsNullish(x) then defaultValue
    else
      match ParseInt(ToStr(x))
      case None => defaultValue
      case Some(n) => Clamp(n)
  }

  /** The default stands in exactly for a missing setting or one with no
      leading integer; a number read is always within [0, 100]. */
  lemma ToNumberCases(x: Value, defaultValue: int)
    ensures IsNullish(x) || ParseInt(ToStr(x)).None? ==> ToNumber(x, defaultValue) == defaultValue
    ensures !IsNullish(x) && ParseInt(ToStr(x)).Some? ==>
              ToNumber(x, defaultValue) == Clamp(ParseInt(ToStr(x)).value) && 0 <= ToNumber(x, defaultValue) <= 100
  {
  }

  /** `n` clamped into [0, 100]. */
  function Clamp(n: int): int
  {
    if n < 0 then 0 else if n > 100 then 100 else n
  }

  /** A number setting is clamped into [0, 100]. */
  lemma ToNumberOfNumber(n: int, defaultValue: int)
    ensures ToNumber(Num(n), defaultValue) == Clamp(n)
  {
    ParseIntOfIntToString(n);
  }

  /** `other_settings?.field`. */
  function Setting(settings: Option<map<string, Value>>, field: string): Value
  {
    if settings.None? then Undefined else Get(settings.value, field)
  }

  function Max(a: int, b: int): int
  {
    if a < b then b else a
  }

  /** `get_dark_mode_config(other_settings)`. */
  function GetDarkModeConfig(settings: Option<map<string, Value>>): (c: Config)
    ensures MinBrightness <= c.brightness <= 100 && MinContrast <= c.contrast <= 100
    ensures 0 <= c.sepia <= 100 && 0 <= c.grayscale <= 100
    ensures settings.None? ==> c == Config(100, 90, 0, 0)
  {
    Config(
      Max(MinBrightness, ToNumber(Setting(settings, "dark_mode_brightness"), 100)),
      Max(MinContrast, ToNumber(Setting(settings, "dark_mode_contrast"), 90)),
      ToNumber(Setting(settings, "dark_mode_sepia"), MinSepia),
      ToNumber(Setting(settings, "dark_mode_grayscale"), MinGrayscale))
  }

  /** The settings that store a configuration. */
  function AsSettings(c: Config): map<string, Value>
  {
    map["dark_mode_brightness" := Num(c.brightness), "dark_mode_contrast" := Num(c.contrast),
        "dark_mode_sepia" := Num(c.sepia), "dark_mode_grayscale" := Num(c.grayscale)]
  }

  /** Each stored field holds its number. */
  lemma StoredFields(c: Config)
    ensures Setting(Some(AsSettings(c)), "dark_mode_brightness") == Num(c.brightness)
    ensures Setting(Some(AsSettings(c)), "dark_mode_contrast") == Num(c.contrast)
    ensures Setting(Some(AsSettings(c)), "dark_mode_sepia") == Num(c.sepia)
    ensures Setting(Some(AsSettings(c)), "dark_mode_grayscale") == Num(c.grayscale)
  {
  }

  /** A configuration within the bounds reads back from the settings that
      store it. */
  lemma ReadStored(c: Config)
    requires MinBrightness <= c.brightness <= 100 && MinContrast <= c.contrast <= 100
    requires 0 <= c.sepia <= 100 && 0 <= c.grayscale <= 100
    ensures GetDarkModeConfig(Some(AsSettings(c))) == c
  {
    StoredFields(c);
    ToNumberOfNumber(c.brightness, 100);
    ToNumberOfNumber(c.contrast, 90);
    ToNumberOfNumber(c.sepia, MinSepia);
    ToNumberOfNumber(c.grayscale, MinGrayscale);
  }

  /** Storing the configuration read from any settings and reading it back
      gives the same configuration. */
  lemma ConfigRoundTrip(settings: Option<map<string, Value>>)
    ensures GetDarkModeConfig(Some(AsSettings(GetDarkModeConfig(settings)))) == GetDarkModeConfig(settings)
  {
    ReadStored(GetDarkModeConfig(settings));
  }
}
