/** `normalizeSync` and `getParentMetadata`: the synchronous entry point. */
module Normalization {
  import opened Wrappers
  import opened JsString
  import opened Dicts
  import opened Errors
  import opened Configuration
  import opened CoreResolution
  import opened PackageMatch
  import opened Plugins
  import opened PackageResolution

  /** The plugin `getParentMetadata` detects in the parent's name: the text
      before its last `!` in the `plugin!argument` form, the text after its
      first `!` otherwise. */
  function ParentPlugin(pluginFirst: bool, parentName: Option<string>): Option<string>
  {
    if !Truthy(parentName) then None
    else if pluginFirst then
      var i := LastIndexOf(parentName.value, '!');
      if i == -1 then None else Some(Substr(parentName.value, 0, i))
    else
      var i := IndexOf(parentName.value, '!');
      if i == -1 then None else Some(SubstrFrom(parentName.value, i + 1))
  }

  /** A parent plugin is detected exactly when the parent name has a `!`; in
      the `plugin!argument` form it is the plugin `parsePlugin` finds. */
  lemma ParentPluginMeans(pluginFirst: bool, parentName: Option<string>)
    ensures ParentPlugin(pluginFirst, parentName).Some? <==> Truthy(parentName) && '!' in parentName.value
    ensures pluginFirst && Truthy(parentName) && '!' in parentName.value
            ==> ParentPlugin(pluginFirst, parentName) == Some(ParsePlugin(true, parentName.value).value.plugin)
    ensures !pluginFirst && Truthy(parentName) && '!' in parentName.value
            ==> var i := IndexOf(parentName.value, '!');
                ParentPlugin(pluginFirst, parentName) == Some(parentName.value[i + 1..])
  {
    if Truthy(parentName) && '!' in parentName.value {
      var p := parentName.value;
      if !pluginFirst {
        SubstrFromTail(p, IndexOf(p, '!') + 1);
      }
    }
  }

  /** The parent a name is resolved against: the parent's plugin when one is
      detected and non-empty, else the parent name. */
  function EffectiveParent(pluginFirst: bool, parentName: Option<string>): Option<string>
  {
    var plugin := ParentPlugin(pluginFirst, parentName);
    if Truthy(plugin) then plugin else parentName
  }

  /** `getParentMetadata`: fresh metadata describing the parent: its plugin
      (duplicated as the plugin argument) and the package owning it. */
  method GetParentMetadata(config: Config, parentName: Option<string>) returns (m: Metadata)
    ensures fresh(m)
    ensures m.pluginName == m.pluginArgument == ParentPlugin(config.pluginFirst, parentName)
    ensures m.packageName == if Truthy(parentName) then OwningPackage(config.packages, parentName.value) else None
    ensures m.packageConfig == if Truthy(m.packageName) then Get(config.packages, m.packageName.value) else None
    ensures config.Valid() ==> MetadataConsistent(config, m)
  {
    m := new Metadata();
    if Truthy(parentName) {
      var p := parentName.value;
      var i: int;
      if config.pluginFirst {
        i := LastIndexOf(p, '!');
        if i != -1 {
          m.pluginName := Some(Substr(p, 0, i));
          m.pluginArgument := m.pluginName;
        }
      } else {
        i := IndexOf(p, '!');
        if i != -1 {
          m.pluginName := Some(SubstrFrom(p, i + 1));
          m.pluginArgument := m.pluginName;
        }
      }
      assert m.pluginName == m.pluginArgument == ParentPlugin(config.pluginFirst, parentName);
      m.packageName := GetPackage(config.packages, p);
      if Truthy(m.packageName) {
        m.packageConfig := Get(config.packages, m.packageName.value);
      }
    }
    if Truthy(m.packageName) {
      OwnerIsRegistered(config.packages, parentName.value);
    }
  }

  /** The owner `getPackage` reports is a registered package. */
  lemma OwnerIsRegistered(packages: Dict<Package>, normalized: string)
    requires OwningPackage(packages, normalized).Some?
    ensures Get(packages, OwningPackage(packages, normalized).value).Some?
  {
    OwnerIsFirstMostSpecific(packages, normalized);
    var i :| 0 <= i < |packages| && packages[i].key == OwningPackage(packages, normalized).value;
    assert Keys(packages)[i] == packages[i].key;
  }

  /** `normalizeSync`: splits off a plugin, normalizes the plugin name on its
      own, resolves the rest through the package pipeline (extensions are
      skipped under a plugin) and joins the parts again. */
  method NormalizeSync(config: Config, host: Host, name: string, parentName: Option<string>, fuel: nat)
    returns (r: Result<string>)
    requires config.Valid() && host.Valid()
    modifies config`paths, config`pathsLocked, config`packages
    ensures Evolved(config, host, old(config.paths), old(config.pathsLocked), old(config.packages))
    ensures r.Ok? && '!' in name ==> '!' in r.value
    ensures '!' !in name && old(config.packages) == [] && config.packageConfigPaths == []
            ==> config.pathsLocked
                && r == Ok(Resolved(host, config.paths, config.mapping, config.baseURL, name,
                                    EffectiveParent(config.pluginFirst, parentName), true))
    decreases |name|
  {
    var metadata := new Metadata();
    var parentMetadata := GetParentMetadata(config, parentName);
    var resolveParent := if Truthy(parentMetadata.pluginArgument) then parentMetadata.pluginArgument else parentName;
    var parsed := ParsePlugin(config.pluginFirst, name);

    if parsed.Some? {
      var plugin := NormalizeSync(config, host, parsed.value.plugin, parentName, fuel);
      if plugin.Err? {
        return Err(plugin.error);
      }
      ghost var paths1, locked1, packages1 := config.paths, config.pathsLocked, config.packages;
      r := ResolvePluginArgument(config, host, plugin.value, parsed.value.argument, resolveParent,
                                 metadata, parentMetadata, fuel);
      EvolvedTrans(config, host, old(config.paths), old(config.pathsLocked), old(config.packages),
                   paths1, locked1, packages1);
      return;
    }

    r := PackageResolveSync(config, host, name, resolveParent, metadata, Some(parentMetadata),
                            Truthy(metadata.pluginName), fuel);
  }

  /** The argument half of a plugin name: the plugin is recorded in the
      metadata first, so the package pipeline resolves the argument with
      extensions skipped (for a non-empty plugin); the result is joined to
      the normalized plugin. */
  method ResolvePluginArgument(config: Config, host: Host, plugin: string, argument: string,
                               resolveParent: Option<string>, metadata: Metadata,
                               parentMetadata: Metadata, fuel: nat)
    returns (r: Result<string>)
    requires config.Valid() && host.Valid() && MetadataConsistent(config, metadata)
    modifies config`paths, config`pathsLocked, config`packages
    modifies metadata`pluginName, metadata`packageName, metadata`packageConfig
    ensures Evolved(config, host, old(config.paths), old(config.pathsLocked), old(config.packages))
    ensures metadata.pluginName == Some(plugin)
    ensures r.Ok? ==> exists resolved :: r.value == CombinePluginParts(config.pluginFirst, resolved, plugin)
    ensures ParentMapFallsThrough(host, old(parentMetadata.packageConfig), argument) ==>
      var normalized := Resolved(host, config.paths, config.mapping, config.baseURL, argument, resolveParent, true);
      (!Truthy(OwnerOf(config.packageConfigPaths, old(config.packages), normalized))
       ==> r == Ok(CombinePluginParts(config.pluginFirst, normalized, plugin)))
      && exists res :: InPackageOutcome(host, config.meta, config.packageConfigPaths, config.packageConfigKeys,
                                        old(config.packages), config.packages, normalized, plugin != "",
                                        metadata.packageName, res)
                       && (res.Err? ==> r == Err(res.error))
                       && (res.Ok? ==> r == Ok(CombinePluginParts(config.pluginFirst, res.value, plugin)))
  {
    metadata.pluginName := Some(plugin);
    var resolved := PackageResolveSync(config, host, argument, resolveParent, metadata,
                                       Some(parentMetadata), Truthy(metadata.pluginName), fuel);
    if resolved.Err? {
      return Err(resolved.error);
    }
    r := Ok(CombinePluginParts(config.pluginFirst, resolved.value, plugin));
  }
}
