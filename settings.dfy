/** The settings resolver: a field definition's `entity_progress`
    configuration laid over a record of seven defaults. */
module Settings {
  import opened PhpValues
  import opened Entities

  type SettingsMap = map<string, Value>

  /** The seven recognised options and their defaults. */
  const Defaults: SettingsMap := map[
    "enable" := Bool(false),
    "dependency" := Null,
    "optional" := Bool(false),
    "zero" := Bool(false),
    "zero_one" := Bool(false),
    "negate" := Bool(false),
    "all" := Bool(false)]

  /** The configuration the definition itself carries (empty when none). */
  function OwnSettings(d: Definition): SettingsMap {
    match d.source
    case BaseFieldSource(setting) => if setting.Some? then setting.value else map[]
    case ThirdPartySource(m) => m
    case OtherSource => map[]
  }

  /** `getDefinitionSettings`: PHP's array union `$field_settings + $settings`,
      taken only when the definition's configuration is a non-empty array. */
  function GetDefinitionSettings(d: Definition): SettingsMap {
    match d.source
    case BaseFieldSource(setting) =>
      if setting.Some? && |setting.value| > 0 then Defaults + setting.value else Defaults
    case ThirdPartySource(m) =>
      if |m| > 0 then Defaults + m else Defaults
    case OtherSource => Defaults
  }

  /** The resolved record holds exactly the default keys and the configured
      ones; a configured key takes the configured value, every other key its
      default. */
  lemma SettingsUnion(d: Definition)
    ensures forall k :: k in GetDefinitionSettings(d) <==> k in Defaults || k in OwnSettings(d)
    ensures forall k :: k in OwnSettings(d) ==> GetDefinitionSettings(d)[k] == OwnSettings(d)[k]
    ensures forall k :: k in Defaults && k !in OwnSettings(d) ==> GetDefinitionSettings(d)[k] == Defaults[k]
  {
  }

  /** `$settings[$key]`, null when the key is missing. */
  function Setting(s: SettingsMap, key: string): Value {
    if key in s then s[key] else Null
  }

  /** `!empty($settings[$key])`. */
  predicate Flag(s: SettingsMap, key: string) {
    Truthy(Setting(s, key))
  }

  /** The configured dependency counts only when it is not empty. */
  predicate HasDependency(s: SettingsMap) {
    Flag(s, "dependency")
  }

  /** The field name the dependency setting names; a non-string value is
      taken to name no field of the entity. */
  function DependencyName(s: SettingsMap): Option<string> {
    match Setting(s, "dependency")
    case Str(n) => Some(n)
    case _ => None
  }

  /** The dependency's own dependency names the field `name` (line 362). */
  predicate PointsBack(ds: SettingsMap, name: string) {
    HasDependency(ds) && Setting(ds, "dependency") == Str(name)
  }

  /** All seven options are present in every resolved record. */
  lemma SettingsComplete(d: Definition)
    ensures forall k :: k in Defaults ==> k in GetDefinitionSettings(d)
    ensures "enable" in GetDefinitionSettings(d) && "dependency" in GetDefinitionSettings(d)
    ensures "optional" in GetDefinitionSettings(d) && "zero" in GetDefinitionSettings(d)
    ensures "zero_one" in GetDefinitionSettings(d) && "negate" in GetDefinitionSettings(d)
    ensures "all" in GetDefinitionSettings(d)
  {
    SettingsUnion(d);
  }

  /** An absent or empty configuration, or a definition class without one,
      yields exactly the defaults. */
  lemma EmptyConfigurationGivesDefaults(d: Definition)
    requires d.source.OtherSource? || d.source == BaseFieldSource(None) || OwnSettings(d) == map[]
    ensures GetDefinitionSettings(d) == Defaults
  {
  }

  /** A key the configuration sets replaces that key's default and no other:
      every other option keeps its value from the configuration without it. */
  lemma OverrideReplacesOnlyThatKey(d: Definition, d': Definition, key: string)
    requires key in OwnSettings(d)
    requires OwnSettings(d') == map k | k in OwnSettings(d) && k != key :: OwnSettings(d)[k]
    ensures Setting(GetDefinitionSettings(d), key) == OwnSettings(d)[key]
    ensures forall k :: k != key ==> Setting(GetDefinitionSettings(d), k) == Setting(GetDefinitionSettings(d'), k)
  {
    SettingsUnion(d);
    SettingsUnion(d');
  }
}
