/**
 * The records the store keeps and the converter reads: mapping rules and
 * mapping configurations, with and without their id, and the partial
 * records an update merges in.  A nullable or optional column is an
 * `Option`; `None` stands for both `null` and `undefined`.
 */
module Schema {
  import opened Wrappers

  /** JavaScript truthiness of a nullable boolean column. */
  predicate Truthy(b: Option<bool>) {
    b == Some(true)
  }

  datatype MappingRule = MappingRule(
    id: string,
    sourceChar: string,
    targetChar: string,
    caseSensitive: Option<bool>,
    isActive: Option<bool>)
  {
    /** The rule without its id. */
    function Insert(): InsertMappingRule {
      InsertMappingRule(sourceChar, targetChar, caseSensitive, isActive)
    }

    /**
     * `{ ...existing, ...updateData }`: the fields the patch supplies are
     * replaced, the others and the id are kept.
     */
    function Patched(p: RulePatch): (r: MappingRule)
      ensures r.id == id
      ensures p.sourceChar.Some? ==> r.sourceChar == p.sourceChar.value
      ensures p.sourceChar.None? ==> r.sourceChar == sourceChar
      ensures p.targetChar.Some? ==> r.targetChar == p.targetChar.value
      ensures p.targetChar.None? ==> r.targetChar == targetChar
      ensures p.caseSensitive.Some? ==> r.caseSensitive == p.caseSensitive.value
      ensures p.caseSensitive.None? ==> r.caseSensitive == caseSensitive
      ensures p.isActive.Some? ==> r.isActive == p.isActive.value
      ensures p.isActive.None? ==> r.isActive == isActive
    {
      MappingRule(id, Override(sourceChar, p.sourceChar), Override(targetChar, p.targetChar),
                  Override(caseSensitive, p.caseSensitive), Override(isActive, p.isActive))
    }
  }

  /** A rule without its id, as `createMappingRule` receives it. */
  datatype InsertMappingRule = InsertMappingRule(
    sourceChar: string,
    targetChar: string,
    caseSensitive: Option<bool>,
    isActive: Option<bool>)
  {
    /** `{ ...insertRule, id }`. */
    function WithId(id: string): (r: MappingRule)
      ensures r.id == id && r.Insert() == this
    {
      MappingRule(id, sourceChar, targetChar, caseSensitive, isActive)
    }
  }

  /**
   * `Partial<InsertMappingRule>`: each field is either absent (`None`) or
   * given; a nullable field can be given as `null` (`Some(None)`).
   */
  datatype RulePatch = RulePatch(
    sourceChar: Option<string>,
    targetChar: Option<string>,
    caseSensitive: Option<Option<bool>>,
    isActive: Option<Option<bool>>)
  {
    /** The patch that applies this one and then `q`: each field `q` gives wins. */
    function Then(q: RulePatch): RulePatch {
      RulePatch(Latest(sourceChar, q.sourceChar), Latest(targetChar, q.targetChar),
                Latest(caseSensitive, q.caseSensitive), Latest(isActive, q.isActive))
    }
  }

  /** The update `{}`. */
  const NoRuleChange := RulePatch(None, None, None, None)

  /** The later of two supplied values: `second` if it is given, else `first`. */
  function Latest<T>(first: Option<T>, second: Option<T>): Option<T> {
    if second.Some? then second else first
  }

  /** The value of a patched field: the patch's if it has the field, else the current one. */
  function Override<T>(current: T, patch: Option<T>): (r: T)
    ensures patch.Some? ==> r == patch.value
    ensures patch.None? ==> r == current
  {
    match patch
    case Some(v) => v
    case None => current
  }

  datatype MappingConfiguration = MappingConfiguration(
    id: string,
    name: string,
    description: Option<string>,
    caseSensitivity: Option<string>,
    mappingMode: Option<string>,
    outputFormat: Option<string>,
    isDefault: Option<bool>)
  {
    /** The configuration without its id. */
    function Insert(): InsertMappingConfiguration {
      InsertMappingConfiguration(name, description, caseSensitivity, mappingMode, outputFormat, isDefault)
    }

    /**
     * `{ ...existing, ...updateData }`: the fields the patch supplies are
     * replaced, the others and the id are kept.
     */
    function Patched(p: ConfigurationPatch): (r: MappingConfiguration)
      ensures r.id == id
      ensures p.name.Some? ==> r.name == p.name.value
      ensures p.name.None? ==> r.name == name
      ensures p.description.Some? ==> r.description == p.description.value
      ensures p.description.None? ==> r.description == description
      ensures p.caseSensitivity.Some? ==> r.caseSensitivity == p.caseSensitivity.value
      ensures p.caseSensitivity.None? ==> r.caseSensitivity == caseSensitivity
      ensures p.mappingMode.Some? ==> r.mappingMode == p.mappingMode.value
      ensures p.mappingMode.None? ==> r.mappingMode == mappingMode
      ensures p.outputFormat.Some? ==> r.outputFormat == p.outputFormat.value
      ensures p.outputFormat.None? ==> r.outputFormat == outputFormat
      ensures p.isDefault.Some? ==> r.isDefault == p.isDefault.value
      ensures p.isDefault.None? ==> r.isDefault == isDefault
    {
      MappingConfiguration(id, Override(name, p.name), Override(description, p.description),
                           Override(caseSensitivity, p.caseSensitivity), Override(mappingMode, p.mappingMode),
                           Override(outputFormat, p.outputFormat), Override(isDefault, p.isDefault))
    }
  }

  /** A configuration without its id, as `createMappingConfiguration` receives it. */
  datatype InsertMappingConfiguration = InsertMappingConfiguration(
    name: string,
    description: Option<string>,
    caseSensitivity: Option<string>,
    mappingMode: Option<string>,
    outputFormat: Option<string>,
    isDefault: Option<bool>)
  {
    /** `{ ...insertConfig, id }`. */
    function WithId(id: string): (r: MappingConfiguration)
      ensures r.id == id && r.Insert() == this
    {
      MappingConfiguration(id, name, description, caseSensitivity, mappingMode, outputFormat, isDefault)
    }
  }

  /** `Partial<InsertMappingConfiguration>`. */
  datatype ConfigurationPatch = ConfigurationPatch(
    name: Option<string>,
    description: Option<Option<string>>,
    caseSensitivity: Option<Option<string>>,
    mappingMode: Option<Option<string>>,
    outputFormat: Option<Option<string>>,
    isDefault: Option<Option<bool>>)
  {
    /** The patch that applies this one and then `q`: each field `q` gives wins. */
    function Then(q: ConfigurationPatch): ConfigurationPatch {
      ConfigurationPatch(Latest(name, q.name), Latest(description, q.description),
                         Latest(caseSensitivity, q.caseSensitivity), Latest(mappingMode, q.mappingMode),
                         Latest(outputFormat, q.outputFormat), Latest(isDefault, q.isDefault))
    }
  }

  /** The update `{}`. */
  const NoConfigurationChange := ConfigurationPatch(None, None, None, None, None, None)

  // ---------------------------------------------------------------------------
  // The algebra of `{ ...existing, ...updateData }`
  // ---------------------------------------------------------------------------

  /** Overriding twice is overriding once with the later supplied value. */
  lemma {:induction false} OverrideThen<T>(current: T, p: Option<T>, q: Option<T>)
    ensures Override(Override(current, p), q) == Override(current, Latest(p, q))
  {
  }

  /** Overriding again with the same value changes nothing. */
  lemma {:induction false} OverrideIdempotent<T>(current: T, p: Option<T>)
    ensures Override(Override(current, p), p) == Override(current, p)
  {
  }

  /** An empty update leaves a rule as it is. */
  lemma {:induction false} RuleNoChange(rule: MappingRule)
    ensures rule.Patched(NoRuleChange) == rule
  {
  }

  /** Applying the same update twice is applying it once. */
  lemma {:induction false} RulePatchIdempotent(rule: MappingRule, p: RulePatch)
    ensures rule.Patched(p).Patched(p) == rule.Patched(p)
  {
    OverrideIdempotent(rule.sourceChar, p.sourceChar);
    OverrideIdempotent(rule.targetChar, p.targetChar);
    OverrideIdempotent(rule.caseSensitive, p.caseSensitive);
    OverrideIdempotent(rule.isActive, p.isActive);
  }

  /** Two updates in a row are one update in which the second one's fields win. */
  lemma {:induction false} RulePatchThen(rule: MappingRule, p: RulePatch, q: RulePatch)
    ensures rule.Patched(p).Patched(q) == rule.Patched(p.Then(q))
  {
    OverrideThen(rule.sourceChar, p.sourceChar, q.sourceChar);
    OverrideThen(rule.targetChar, p.targetChar, q.targetChar);
    OverrideThen(rule.caseSensitive, p.caseSensitive, q.caseSensitive);
    OverrideThen(rule.isActive, p.isActive, q.isActive);
  }

  /** An empty update leaves a configuration as it is. */
  lemma {:induction false} ConfigurationNoChange(config: MappingConfiguration)
    ensures config.Patched(NoConfigurationChange) == config
  {
  }

  /** Applying the same update twice is applying it once. */
  lemma {:induction false} ConfigurationPatchIdempotent(config: MappingConfiguration, p: ConfigurationPatch)
    ensures config.Patched(p).Patched(p) == config.Patched(p)
  {
    OverrideIdempotent(config.name, p.name);
    OverrideIdempotent(config.description, p.description);
    OverrideIdempotent(config.caseSensitivity, p.caseSensitivity);
    OverrideIdempotent(config.mappingMode, p.mappingMode);
    OverrideIdempotent(config.outputFormat, p.outputFormat);
    OverrideIdempotent(config.isDefault, p.isDefault);
  }

  /** Two updates in a row are one update in which the second one's fields win. */
  lemma {:induction false} ConfigurationPatchThen(config: MappingConfiguration, p: ConfigurationPatch,
                                                  q: ConfigurationPatch)
    ensures config.Patched(p).Patched(q) == config.Patched(p.Then(q))
  {
    OverrideThen(config.name, p.name, q.name);
    OverrideThen(config.description, p.description, q.description);
    OverrideThen(config.caseSensitivity, p.caseSensitivity, q.caseSensitivity);
    OverrideThen(config.mappingMode, p.mappingMode, q.mappingMode);
    OverrideThen(config.outputFormat, p.outputFormat, q.outputFormat);
    OverrideThen(config.isDefault, p.isDefault, q.isDefault);
  }
}
