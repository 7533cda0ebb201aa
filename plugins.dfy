/** Plugin syntax: `argument!plugin`, or `plugin!argument` when the loader is
    configured with `pluginFirst`. */
module Plugins {
  import opened Wrappers
  import opened JsString

  datatype PluginParts = PluginParts(argument: string, plugin: string)

  /** `parsePlugin`: the name is split at its last `!`; in the
      `argument!plugin` form an empty plugin defaults to the argument's extension,
      the text after its last `.`. */
  function ParsePlugin(pluginFirst: bool, name: string): (r: Option<PluginParts>)
    ensures r.None? <==> '!' !in name
    ensures r.Some? ==> |r.value.argument| < |name| && |r.value.plugin| < |name|
  {
    var pluginIndex := LastIndexOf(name, '!');
    if pluginIndex == -1 then None
    else if pluginFirst then
      Some(PluginParts(SubstrFrom(name, pluginIndex + 1), Substr(name, 0, pluginIndex)))
    else
      var argumentName := Substr(name, 0, pluginIndex);
      var pluginName := SubstrFrom(name, pluginIndex + 1);
      Some(PluginParts(argumentName,
        if pluginName != "" then pluginName
        else SubstrFrom(argumentName, LastIndexOf(argumentName, '.') + 1)))
  }

  /** `combinePluginParts`. */
  function CombinePluginParts(pluginFirst: bool, argument: string, plugin: string): string
  {
    if pluginFirst then plugin + "!" + argument else argument + "!" + plugin
  }

  /** In the `plugin!argument` form the plugin is the text before the last `!`
      and the argument the text after it. */
  lemma PluginFirstParts(name: string)
    requires '!' in name
    ensures var i := LastIndexOf(name, '!');
      ParsePlugin(true, name) == Some(PluginParts(name[i + 1..], name[..i]))
  {
    var i := LastIndexOf(name, '!');
    SubstrPrefix(name, i);
    SubstrFromTail(name, i + 1);
  }

  /** In the `argument!plugin` form the argument is the text before the last
      `!`, and the plugin the text after it when there is some. */
  lemma ArgumentFirstParts(name: string)
    requires '!' in name
    ensures var i := LastIndexOf(name, '!');
      ParsePlugin(false, name).value.argument == name[..i]
      && (i < |name| - 1 ==> ParsePlugin(false, name).value.plugin == name[i + 1..])
  {
    var i := LastIndexOf(name, '!');
    SubstrPrefix(name, i);
    SubstrFromTail(name, i + 1);
  }

  /** A name ending in `!` in the `argument!plugin` form takes the argument's
      extension as the plugin: the text after its last `.`, or all of the argument
      when it has no `.`. */
  lemma DefaultPluginIsExtension(name: string)
    requires '!' in name && LastIndexOf(name, '!') == |name| - 1
    ensures var argument := name[..|name| - 1];
      ParsePlugin(false, name).value.plugin
      == if '.' in argument then argument[LastIndexOf(argument, '.') + 1..] else argument
  {
    var argument := name[..|name| - 1];
    ArgumentFirstParts(name);
    SubstrFromTail(name, |name|);
    SubstrFromTail(argument, LastIndexOf(argument, '.') + 1);
  }

  /** Joining the text on either side of a `!` at `i` gives the name back. */
  lemma Rejoin(pluginFirst: bool, name: string, i: int)
    requires 0 <= i < |name| && name[i] == '!'
    ensures pluginFirst ==> CombinePluginParts(true, name[i + 1..], name[..i]) == name
    ensures !pluginFirst ==> CombinePluginParts(false, name[..i], name[i + 1..]) == name
  {
  }

  /** Putting the parsed parts back together gives the name, whenever the
      plugin was written out (always so in the `plugin!argument` form). */
  lemma CombineParsed(pluginFirst: bool, name: string)
    requires '!' in name && (pluginFirst || LastIndexOf(name, '!') < |name| - 1)
    ensures var p := ParsePlugin(pluginFirst, name).value;
      CombinePluginParts(pluginFirst, p.argument, p.plugin) == name
  {
    var i := LastIndexOf(name, '!');
    var p := ParsePlugin(pluginFirst, name).value;
    if pluginFirst {
      PluginFirstParts(name);
      assert p.argument == name[i + 1..] && p.plugin == name[..i];
    } else {
      ArgumentFirstParts(name);
      assert p.argument == name[..i] && p.plugin == name[i + 1..];
    }
    Rejoin(pluginFirst, name, i);
  }

  /** Parsing combined parts gives them back, as long as the part after the
      `!` holds no `!` and, in the `argument!plugin` form, the plugin is not empty. */
  lemma ParseCombined(pluginFirst: bool, argument: string, plugin: string)
    requires pluginFirst ==> '!' !in argument
    requires !pluginFirst ==> '!' !in plugin && plugin != ""
    ensures ParsePlugin(pluginFirst, CombinePluginParts(pluginFirst, argument, plugin))
            == Some(PluginParts(argument, plugin))
  {
    var name := CombinePluginParts(pluginFirst, argument, plugin);
    var front := if pluginFirst then plugin else argument;
    var back := if pluginFirst then argument else plugin;
    assert name == front + "!" + back;
    assert name[|front|] == '!' && name[|front| + 1..] == back && name[..|front|] == front;
    LastIndexOfAt(name, '!', |front|);
    if pluginFirst {
      PluginFirstParts(name);
    } else {
      ArgumentFirstParts(name);
    }
  }
}
