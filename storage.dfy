/**
 * The server's in-memory store: two insertion-ordered tables, mapping rules
 * and mapping configurations, keyed by id.  The ids `randomUUID` would draw
 * are parameters that must be fresh, and every call runs to completion
 * before the next one starts.
 */
module Storage {
  import opened Wrappers
  import opened Schema
  import opened JsMap
  import MappingUtils

  /** The configuration `initializeDefaults` creates. */
  const DefaultConfiguration := InsertMappingConfiguration(
    "Default Configuration", Some("Default character mapping configuration"),
    Some("sensitive"), Some("character"), Some("plain"), Some(true))

  /** The rules `initializeDefaults` creates, in order: s to ક, a to અ, k to ક. */
  const DefaultRules := [
    InsertMappingRule("s", "\U{0A95}", Some(true), Some(true)),
    InsertMappingRule("a", "\U{0A85}", Some(true), Some(true)),
    InsertMappingRule("k", "\U{0A95}", Some(true), Some(true))]

  /** `Array.from(...values()).find(config => config.isDefault)`. */
  function FindDefault(configs: seq<MappingConfiguration>): Option<MappingConfiguration> {
    if configs == [] then None
    else if Truthy(configs[0].isDefault) then Some(configs[0])
    else FindDefault(configs[1..])
  }

  /** `FindDefault` yields the first configuration marked default, and nothing when none is. */
  lemma {:induction false} FindDefaultSpec(configs: seq<MappingConfiguration>)
    ensures match FindDefault(configs)
      case Some(c) => exists k :: 0 <= k < |configs| && configs[k] == c && Truthy(c.isDefault)
                                 && forall j :: 0 <= j < k ==> !Truthy(configs[j].isDefault)
      case None => forall j :: 0 <= j < |configs| ==> !Truthy(configs[j].isDefault)
  {
    if configs != [] {
      FindDefaultSpec(configs[1..]);
      if !Truthy(configs[0].isDefault) {
        assert forall j :: 1 <= j < |configs| ==> configs[j] == configs[1..][j - 1];
        match FindDefault(configs[1..])
        case Some(c) => {
          var k :| 0 <= k < |configs| - 1 && configs[1..][k] == c && Truthy(c.isDefault)
                   && forall j :: 0 <= j < k ==> !Truthy(configs[1..][j].isDefault);
          assert configs[k + 1] == c;
        }
        case None =>
      }
    }
  }

  /** Adding configurations after a default one does not change which one is found. */
  lemma {:induction false} FindDefaultPrefix(a: seq<MappingConfiguration>, b: seq<MappingConfiguration>)
    requires FindDefault(a).Some?
    ensures FindDefault(a + b) == FindDefault(a)
  {
    assert a != [];
    assert (a + b)[0] == a[0];
    if !Truthy(a[0].isDefault) {
      assert (a + b)[1..] == a[1..] + b;
      FindDefaultPrefix(a[1..], b);
    }
  }

  class MemStorage {
    var mappingRules: OrderedMap<MappingRule>
    var mappingConfigurations: OrderedMap<MappingConfiguration>

    /** Both tables are valid maps, and every record is stored under its own id. */
    ghost predicate Valid()
      reads this
    {
      mappingRules.Valid() && mappingConfigurations.Valid()
      && (forall id :: id in mappingRules.entries ==> mappingRules.entries[id].id == id)
      && (forall id :: id in mappingConfigurations.entries ==> mappingConfigurations.entries[id].id == id)
    }

    /**
     * `new MemStorage()`, with `initializeDefaults` run to completion; the
     * ids are the ones it draws, in order.
     */
    constructor (configId: string, ruleIds: seq<string>)
      requires |ruleIds| == 3 && Distinct(ruleIds)
      ensures Valid()
      ensures GetMappingConfigurations() == [DefaultConfiguration.WithId(configId)]
      ensures GetMappingRules() == [DefaultRules[0].WithId(ruleIds[0]), DefaultRules[1].WithId(ruleIds[1]),
                                    DefaultRules[2].WithId(ruleIds[2])]
      ensures GetDefaultConfiguration() == Some(DefaultConfiguration.WithId(configId))
    {
      mappingRules := Empty();
      mappingConfigurations := Empty();
      new;
      InitializeDefaults(configId, ruleIds);
      var e: OrderedMap<MappingConfiguration> := Empty();
      SetFreshAppends(e, configId, DefaultConfiguration.WithId(configId));
      DefaultRulesListed(ruleIds);
    }

    /** `initializeDefaults`: the default configuration, then the three default rules. */
    method InitializeDefaults(configId: string, ruleIds: seq<string>)
      requires Valid()
      requires configId !in mappingConfigurations.entries
      requires |ruleIds| == 3 && Distinct(ruleIds)
      requires forall k :: 0 <= k < 3 ==> ruleIds[k] !in mappingRules.entries
      modifies this
      ensures Valid()
      ensures mappingConfigurations == old(mappingConfigurations).Set(configId, DefaultConfiguration.WithId(configId))
      ensures mappingRules == old(mappingRules).Set(ruleIds[0], DefaultRules[0].WithId(ruleIds[0]))
                                               .Set(ruleIds[1], DefaultRules[1].WithId(ruleIds[1]))
                                               .Set(ruleIds[2], DefaultRules[2].WithId(ruleIds[2]))
    {
      var defaultConfig := CreateMappingConfiguration(DefaultConfiguration, configId);
      CreateDefaultRules(ruleIds);
    }

    /** The second half of `initializeDefaults`: the three default rules, in order. */
    method CreateDefaultRules(ruleIds: seq<string>)
      requires Valid()
      requires |ruleIds| == 3 && Distinct(ruleIds)
      requires forall k :: 0 <= k < 3 ==> ruleIds[k] !in mappingRules.entries
      modifies this
      ensures Valid()
      ensures mappingConfigurations == old(mappingConfigurations)
      ensures mappingRules == old(mappingRules).Set(ruleIds[0], DefaultRules[0].WithId(ruleIds[0]))
                                               .Set(ruleIds[1], DefaultRules[1].WithId(ruleIds[1]))
                                               .Set(ruleIds[2], DefaultRules[2].WithId(ruleIds[2]))
    {
      var id0, id1, id2 := ruleIds[0], ruleIds[1], ruleIds[2];
      assert id0 != id1 && id0 != id2 && id1 != id2;
      assert id0 !in mappingRules.entries && id1 !in mappingRules.entries && id2 !in mappingRules.entries;
      var r0 := CreateMappingRule(DefaultRules[0], id0);
      var r1 := CreateMappingRule(DefaultRules[1], id1);
      var r2 := CreateMappingRule(DefaultRules[2], id2);
    }

    // -------------------------------------------------------------------------
    // Mapping rules
    // -------------------------------------------------------------------------

    /** `getMappingRules`: every rule, in insertion order. */
    function GetMappingRules(): (r: seq<MappingRule>)
      requires Valid()
      reads this
      ensures |r| == |mappingRules.keys|
      ensures forall i :: 0 <= i < |r| ==> r[i].id == mappingRules.keys[i] && GetMappingRule(r[i].id) == Some(r[i])
    {
      mappingRules.Values()
    }

    /** `getMappingRule`. */
    function GetMappingRule(id: string): (r: Option<MappingRule>)
      reads this
      ensures r.Some? <==> id in mappingRules.entries
    {
      mappingRules.Get(id)
    }

    /** Looking an id up finds exactly the listed record that carries that id. */
    lemma {:induction false} GetMappingRuleListed(id: string, rule: MappingRule)
      requires Valid()
      ensures GetMappingRule(id) == Some(rule) <==> rule in GetMappingRules() && rule.id == id
    {
      GetListed(mappingRules, id, rule);
      if rule in GetMappingRules() && rule.id == id {
        var i :| 0 <= i < |GetMappingRules()| && GetMappingRules()[i] == rule;
        assert mappingRules.keys[i] == id;
      }
    }

    /** `createMappingRule`, with `id` the fresh id `randomUUID` returns. */
    method CreateMappingRule(insertRule: InsertMappingRule, id: string) returns (rule: MappingRule)
      requires Valid() && id !in mappingRules.entries
      modifies this
      ensures Valid()
      ensures rule == insertRule.WithId(id)
      ensures mappingRules == old(mappingRules).Set(id, rule)
      ensures mappingConfigurations == old(mappingConfigurations)
      ensures GetMappingRule(id) == Some(rule)
      ensures forall other :: other != id ==> GetMappingRule(other) == old(GetMappingRule(other))
      ensures GetMappingRules() == old(GetMappingRules()) + [rule]
    {
      rule := insertRule.WithId(id);
      SetValid(mappingRules, id, rule);
      SetFreshAppends(mappingRules, id, rule);
      mappingRules := mappingRules.Set(id, rule);
    }

    /** `updateMappingRule`: merge the patch into an existing rule, in place. */
    method UpdateMappingRule(id: string, updateData: RulePatch) returns (updated: Option<MappingRule>)
      requires Valid()
      modifies this
      ensures Valid()
      ensures mappingConfigurations == old(mappingConfigurations)
      ensures old(GetMappingRule(id)).None? ==> updated.None? && mappingRules == old(mappingRules)
      ensures old(GetMappingRule(id)).Some? ==>
        updated == Some(old(GetMappingRule(id)).value.Patched(updateData))
        && mappingRules == old(mappingRules).Set(id, updated.value)
        && GetMappingRule(id) == updated
        && |GetMappingRules()| == |old(GetMappingRules())|
        && forall i :: 0 <= i < |mappingRules.keys| ==>
             GetMappingRules()[i] == if mappingRules.keys[i] == id then updated.value else old(GetMappingRules())[i]
      ensures forall other :: other != id ==> GetMappingRule(other) == old(GetMappingRule(other))
    {
      var existing := mappingRules.Get(id);
      if existing.None? {
        return None;
      }
      var rule := existing.value.Patched(updateData);
      SetValid(mappingRules, id, rule);
      SetExistingListed(mappingRules, id, rule);
      mappingRules := mappingRules.Set(id, rule);
      updated := Some(rule);
    }

    /** `deleteMappingRule`: whether the id was present; afterwards it is not. */
    method DeleteMappingRule(id: string) returns (deleted: bool)
      requires Valid()
      modifies this
      ensures Valid()
      ensures deleted <==> old(GetMappingRule(id)).Some?
      ensures mappingRules == old(mappingRules).Delete(id)
      ensures mappingConfigurations == old(mappingConfigurations)
      ensures GetMappingRule(id) == None
      ensures forall other :: other != id ==> GetMappingRule(other) == old(GetMappingRule(other))
      ensures !deleted ==> GetMappingRules() == old(GetMappingRules())
      ensures deleted ==> (exists i :: 0 <= i < |old(GetMappingRules())| && old(GetMappingRules())[i].id == id
                             && GetMappingRules() == old(GetMappingRules())[..i] + old(GetMappingRules())[i + 1..])
    {
      deleted := id in mappingRules.entries;
      DeleteValid(mappingRules, id);
      if !deleted {
        DeleteAbsent(mappingRules, id);
        mappingRules := mappingRules.Delete(id);
      } else {
        DeleteListed(mappingRules, id);
        ghost var i :| 0 <= i < |mappingRules.keys| && mappingRules.Values()[i] == mappingRules.entries[id]
                       && mappingRules.Delete(id).Values() == mappingRules.Values()[..i] + mappingRules.Values()[i + 1..];
        mappingRules := mappingRules.Delete(id);
        assert old(GetMappingRules())[i].id == id;
      }
    }

    // -------------------------------------------------------------------------
    // Mapping configurations
    // -------------------------------------------------------------------------

    /** `getMappingConfigurations`: every configuration, in insertion order. */
    function GetMappingConfigurations(): (r: seq<MappingConfiguration>)
      requires Valid()
      reads this
      ensures |r| == |mappingConfigurations.keys|
      ensures forall i :: 0 <= i < |r| ==> r[i].id == mappingConfigurations.keys[i] && GetMappingConfiguration(r[i].id) == Some(r[i])
    {
      mappingConfigurations.Values()
    }

    /** `getMappingConfiguration`. */
    function GetMappingConfiguration(id: string): (r: Option<MappingConfiguration>)
      reads this
      ensures r.Some? <==> id in mappingConfigurations.entries
    {
      mappingConfigurations.Get(id)
    }

    /** Looking an id up finds exactly the listed record that carries that id. */
    lemma {:induction false} GetMappingConfigurationListed(id: string, config: MappingConfiguration)
      requires Valid()
      ensures GetMappingConfiguration(id) == Some(config) <==> config in GetMappingConfigurations() && config.id == id
    {
      GetListed(mappingConfigurations, id, config);
      if config in GetMappingConfigurations() && config.id == id {
        var i :| 0 <= i < |GetMappingConfigurations()| && GetMappingConfigurations()[i] == config;
        assert mappingConfigurations.keys[i] == id;
      }
    }

    /** `createMappingConfiguration`, with `id` the fresh id `randomUUID` returns. */
    method CreateMappingConfiguration(insertConfig: InsertMappingConfiguration, id: string)
      returns (config: MappingConfiguration)
      requires Valid() && id !in mappingConfigurations.entries
      modifies this
      ensures Valid()
      ensures config == insertConfig.WithId(id)
      ensures mappingConfigurations == old(mappingConfigurations).Set(id, config)
      ensures mappingRules == old(mappingRules)
      ensures GetMappingConfiguration(id) == Some(config)
      ensures forall other :: other != id ==> GetMappingConfiguration(other) == old(GetMappingConfiguration(other))
      ensures GetMappingConfigurations() == old(GetMappingConfigurations()) + [config]
    {
      config := insertConfig.WithId(id);
      SetValid(mappingConfigurations, id, config);
      SetFreshAppends(mappingConfigurations, id, config);
      mappingConfigurations := mappingConfigurations.Set(id, config);
    }

    /** `updateMappingConfiguration`: merge the patch into an existing configuration, in place. */
    method UpdateMappingConfiguration(id: string, updateData: ConfigurationPatch)
      returns (updated: Option<MappingConfiguration>)
      requires Valid()
      modifies this
      ensures Valid()
      ensures mappingRules == old(mappingRules)
      ensures old(GetMappingConfiguration(id)).None? ==> updated.None? && mappingConfigurations == old(mappingConfigurations)
      ensures old(GetMappingConfiguration(id)).Some? ==>
        updated == Some(old(GetMappingConfiguration(id)).value.Patched(updateData))
        && mappingConfigurations == old(mappingConfigurations).Set(id, updated.value)
        && GetMappingConfiguration(id) == updated
        && |GetMappingConfigurations()| == |old(GetMappingConfigurations())|
        && forall i :: 0 <= i < |mappingConfigurations.keys| ==>
             GetMappingConfigurations()[i]
             == if mappingConfigurations.keys[i] == id then updated.value else old(GetMappingConfigurations())[i]
      ensures forall other :: other != id ==> GetMappingConfiguration(other) == old(GetMappingConfiguration(other))
    {
      var existing := mappingConfigurations.Get(id);
      if existing.None? {
        return None;
      }
      var config := existing.value.Patched(updateData);
      SetValid(mappingConfigurations, id, config);
      SetExistingListed(mappingConfigurations, id, config);
      mappingConfigurations := mappingConfigurations.Set(id, config);
      updated := Some(config);
    }

    /** `deleteMappingConfiguration`: whether the id was present; afterwards it is not. */
    method DeleteMappingConfiguration(id: string) returns (deleted: bool)
      requires Valid()
      modifies this
      ensures Valid()
      ensures deleted <==> old(GetMappingConfiguration(id)).Some?
      ensures mappingConfigurations == old(mappingConfigurations).Delete(id)
      ensures mappingRules == old(mappingRules)
      ensures GetMappingConfiguration(id) == None
      ensures forall other :: other != id ==> GetMappingConfiguration(other) == old(GetMappingConfiguration(other))
      ensures !deleted ==> GetMappingConfigurations() == old(GetMappingConfigurations())
      ensures deleted ==> (exists i :: 0 <= i < |old(GetMappingConfigurations())| && old(GetMappingConfigurations())[i].id == id
                             && GetMappingConfigurations() == old(GetMappingConfigurations())[..i] + old(GetMappingConfigurations())[i + 1..])
    {
      deleted := id in mappingConfigurations.entries;
      DeleteValid(mappingConfigurations, id);
      if !deleted {
        DeleteAbsent(mappingConfigurations, id);
        mappingConfigurations := mappingConfigurations.Delete(id);
      } else {
        DeleteListed(mappingConfigurations, id);
        ghost var i :| 0 <= i < |mappingConfigurations.keys| && mappingConfigurations.Values()[i] == mappingConfigurations.entries[id]
                       && mappingConfigurations.Delete(id).Values() == mappingConfigurations.Values()[..i] + mappingConfigurations.Values()[i + 1..];
        mappingConfigurations := mappingConfigurations.Delete(id);
        assert old(GetMappingConfigurations())[i].id == id;
      }
    }

    /** `getDefaultConfiguration`: the first configuration, in insertion order, marked default. */
    function GetDefaultConfiguration(): (r: Option<MappingConfiguration>)
      requires Valid()
      reads this
      ensures match r
        case Some(c) => exists k :: 0 <= k < |GetMappingConfigurations()| && GetMappingConfigurations()[k] == c
                                   && Truthy(c.isDefault)
                                   && forall j :: 0 <= j < k ==> !Truthy(GetMappingConfigurations()[j].isDefault)
        case None => forall j :: 0 <= j < |GetMappingConfigurations()| ==> !Truthy(GetMappingConfigurations()[j].isDefault)
    {
      FindDefaultSpec(GetMappingConfigurations());
      FindDefault(GetMappingConfigurations())
    }
  }

  /** The rule table `initializeDefaults` builds from an empty one lists the three default rules in order. */
  lemma {:induction false} DefaultRulesListed(ids: seq<string>)
    requires |ids| == 3 && Distinct(ids)
    ensures var m := Empty<MappingRule>().Set(ids[0], DefaultRules[0].WithId(ids[0]))
                                          .Set(ids[1], DefaultRules[1].WithId(ids[1]))
                                          .Set(ids[2], DefaultRules[2].WithId(ids[2]));
            m.Valid() && m.Values() == [DefaultRules[0].WithId(ids[0]), DefaultRules[1].WithId(ids[1]),
                                        DefaultRules[2].WithId(ids[2])]
  {
    var r0, r1, r2 := DefaultRules[0].WithId(ids[0]), DefaultRules[1].WithId(ids[1]), DefaultRules[2].WithId(ids[2]);
    var m0 := Empty<MappingRule>();
    assert ids[0] != ids[1] && ids[0] != ids[2] && ids[1] != ids[2];
    SetFreshAppends(m0, ids[0], r0);
    var m1 := m0.Set(ids[0], r0);
    SetFreshAppends(m1, ids[1], r1);
    var m2 := m1.Set(ids[1], r1);
    SetFreshAppends(m2, ids[2], r2);
  }

  /**
   * The default rules, as the converter applies them: "s" and "k" become ક,
   * "a" becomes અ, everything else is kept.
   */
  lemma {:induction false} DefaultRulesImage(lower: string -> string, ids: seq<string>, c: char)
    requires |ids| == 3
    ensures var rules := MappingUtils.ActiveRules([DefaultRules[0].WithId(ids[0]), DefaultRules[1].WithId(ids[1]),
                                                   DefaultRules[2].WithId(ids[2])]);
            MappingUtils.Image(rules, lower, c)
            == if c == 's' || c == 'k' then "\U{0A95}" else if c == 'a' then "\U{0A85}" else [c]
  {
    var rules := [DefaultRules[0].WithId(ids[0]), DefaultRules[1].WithId(ids[1]), DefaultRules[2].WithId(ids[2])];
    AllActive(rules);
    MappingUtils.FirstMatchSpec(rules, lower, c);
    if c == 's' {
      MappingUtils.FirstMatchIs(rules, lower, c, 0);
    } else if c == 'a' {
      MappingUtils.FirstMatchIs(rules, lower, c, 1);
    } else if c == 'k' {
      MappingUtils.FirstMatchIs(rules, lower, c, 2);
    }
  }

  /** Filtering a list of active rules keeps all of them. */
  lemma {:induction false} AllActive(rules: seq<MappingRule>)
    requires forall i :: 0 <= i < |rules| ==> Truthy(rules[i].isActive)
    ensures MappingUtils.ActiveRules(rules) == rules
  {
    if rules != [] {
      AllActive(rules[1..]);
      assert rules == [rules[0]] + rules[1..];
    }
  }
}
