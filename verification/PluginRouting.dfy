/** Static capture routing of plugins (plugins/traffic_router.go, static_forwarder.go, plugins.go). */
module PluginRouting {
  import opened GoStrings
  import opened GoTypes

  /** The key under which `StartAllStaticPathRouters` files a capture path. */
  function RouterKey(path: string): string {
    TrimSuffix(if HasPrefix(path, "/") then path else "/" + path, "/")
  }

  class Plugin {
    const id: string
    const capturePaths: seq<string>
    /** Whether the address made from the plugin's ingress parses as a URL. */
    const ingressParses: bool
    var enabled: bool
    /** The path prefix each static router was created for. */
    var staticRouteProxy: map<string, string>

    /** `k` is the router key of one of the first `n` capture paths. */
    ghost predicate Keyed(n: nat, k: string)
      requires n <= |capturePaths|
    {
      exists i :: 0 <= i < n && capturePaths[i] != "" && RouterKey(capturePaths[i]) == k
    }

    /** A plugin has a router for each of its capture paths or none at all; a running one has them, if
        they can be made. One whose process died keeps them although it is disabled. */
    ghost predicate Valid()
      reads this
    {
      && (staticRouteProxy != map[] ==>
            ingressParses && forall k :: k in staticRouteProxy <==> Keyed(|capturePaths|, k))
      && (enabled && ingressParses ==> forall k :: Keyed(|capturePaths|, k) ==> k in staticRouteProxy)
      && RoutersMatch()
    }

    /** Each router was created for the key it is filed under. */
    ghost predicate RoutersMatch()
      reads this
    {
      forall k :: k in staticRouteProxy ==> staticRouteProxy[k] == k
    }

    constructor (id: string, capturePaths: seq<string>, ingressParses: bool)
      ensures Valid() && !enabled
      ensures this.id == id && this.capturePaths == capturePaths && this.ingressParses == ingressParses
    {
      this.id, this.capturePaths, this.ingressParses := id, capturePaths, ingressParses;
      enabled, staticRouteProxy := false, map[];
    }

    /** One router for each capture path. When the ingress does not parse, the message about it
        asks a nil URL for its text, which panics at the first path there is. */
    method StartAllStaticPathRouters() returns (panicked: bool)
      requires RoutersMatch()
      modifies `staticRouteProxy
      ensures RoutersMatch()
      ensures panicked <==> !ingressParses && exists k :: Keyed(|capturePaths|, k)
      ensures forall k :: k in staticRouteProxy <==>
                            k in old(staticRouteProxy) || (ingressParses && Keyed(|capturePaths|, k))
    {
      panicked := false;
      for i := 0 to |capturePaths|
        invariant forall k :: k in staticRouteProxy <==> k in old(staticRouteProxy) || (ingressParses && Keyed(i, k))
        invariant !ingressParses ==> forall j :: 0 <= j < i ==> capturePaths[j] == ""
        invariant RoutersMatch()
      {
        var path := capturePaths[i];
        KeyedGrows(i);
        if path == "" {
          continue;
        }
        if !HasPrefix(path, "/") {
          path := "/" + path;
        }
        path := TrimSuffix(path, "/");
        if !ingressParses {
          assert Keyed(|capturePaths|, path);
          return true;
        }
        staticRouteProxy := staticRouteProxy[path := path];
      }
    }

    lemma KeyedGrows(i: nat)
      requires i < |capturePaths|
      ensures forall k :: Keyed(i + 1, k) <==> Keyed(i, k) || (capturePaths[i] != "" && k == RouterKey(capturePaths[i]))
    {
      forall k ensures Keyed(i + 1, k) <==> Keyed(i, k) || (capturePaths[i] != "" && k == RouterKey(capturePaths[i])) {
        if capturePaths[i] != "" && k == RouterKey(capturePaths[i]) {
          assert capturePaths[i] != "" && RouterKey(capturePaths[i]) == k;
        }
        if j :| 0 <= j < i && capturePaths[j] != "" && RouterKey(capturePaths[j]) == k {
          assert Keyed(i + 1, k);
        }
      }
    }

    /** No router is left. */
    ghost predicate Stopped()
      reads this
    {
      staticRouteProxy == map[]
    }

    method StopAllStaticPathRouters()
      modifies `staticRouteProxy
      ensures staticRouteProxy == map[]
    {
      staticRouteProxy := map[];
    }

    /** The end of `StartPlugin`. */
    method Start() returns (panicked: bool)
      requires Valid()
      modifies this
      ensures Valid() && enabled
      ensures panicked <==> !ingressParses && exists k :: Keyed(|capturePaths|, k)
    {
      enabled := true;
      panicked := StartAllStaticPathRouters();
    }

    /** The end of `StopPlugin`. */
    method Stop()
      modifies this
      ensures Valid() && !enabled && staticRouteProxy == map[]
    {
      enabled := false;
      StopAllStaticPathRouters();
    }

    /** What the goroutine that waits for the process does when it dies: the routers stay. */
    method Crash()
      requires Valid()
      modifies `enabled
      ensures Valid() && !enabled
    {
      enabled := false;
    }
  }

  /** A radix tree from capture paths to the plugins behind them. */
  type Tree = map<string, seq<Plugin>>

  /** `radix.LongestPrefix`: the longest key of length at most `n` that is a prefix of `path`. */
  function LongestPrefix<V>(tree: map<string, V>, path: string, n: nat): Option<string>
    requires n <= |path|
  {
    if path[..n] in tree then Some(path[..n])
    else if n == 0 then None
    else LongestPrefix(tree, path, n - 1)
  }

  lemma {:induction false} LongestPrefixIsLongest<V>(tree: map<string, V>, path: string, n: nat)
    requires n <= |path|
    ensures var r := LongestPrefix(tree, path, n);
            && (r.Some? ==> r.value in tree && r.value <= path)
            && forall k :: k in tree && k <= path && |k| <= n ==> r.Some? && |k| <= |r.value|
  {
    if path[..n] !in tree {
      forall k | k in tree && k <= path && |k| <= n ensures |k| < n {
        assert k == path[..|k|];
      }
      if n > 0 {
        LongestPrefixIsLongest(tree, path, n - 1);
      }
    }
  }

  /** What became of a request that matched the capture path `captured`, if any. */
  datatype Outcome =
    | Forwarded(captured: string, plugin: Plugin, router: string)
    | RouterMissing(captured: string, plugin: Plugin)
    | NotStatic

  /** Trimming the winning capture path gives the key its router was filed under exactly for
      request paths that start with '/'. For others it gives no router's key at all. */
  lemma TrimmedPrefixIsRouterKeyIff(captured: string, path: string)
    requires captured != "" && captured <= path
    ensures HasPrefix(path, "/") ==> TrimSuffix(captured, "/") == RouterKey(captured)
    ensures !HasPrefix(path, "/") ==> forall p :: TrimSuffix(captured, "/") != RouterKey(p)
  {
  }

  class Manager {
    var loadedPlugins: set<Plugin>
    /** Tag to plugin ids. */
    var pluginGroups: map<string, seq<string>>
    var tagPluginMap: map<string, Tree>
    /** Every plugin that was ever loaded; the index may know one that is loaded no more. */
    ghost var known: set<Plugin>

    constructor ()
      ensures Consistent() && Indexed()
      ensures loadedPlugins == {} && pluginGroups == map[] && tagPluginMap == map[] && known == {}
    {
      loadedPlugins, pluginGroups, tagPluginMap, known := {}, map[], map[], {};
    }

    /** Every path of the tree leads to a plugin that was loaded and captures it. */
    ghost predicate Placed(tree: Tree)
      reads this
    {
      forall path :: path in tree ==>
        |tree[path]| > 0 && tree[path][0] in known && path in tree[path][0].capturePaths
    }

    /** What holds at all times, whether the index is up to date or not. */
    ghost predicate Consistent()
      reads this, known
    {
      && loadedPlugins <= known
      && (forall p :: p in known ==> p.Valid())
      && forall tag :: tag in tagPluginMap ==> Placed(tagPluginMap[tag])
    }

    /** Every path of the tree leads to an enabled plugin of the group that captures it. */
    ghost predicate Sound(tree: Tree, ids: seq<string>)
      reads this, loadedPlugins
    {
      forall path :: path in tree ==>
        && |tree[path]| > 0
        && tree[path][0] in loadedPlugins
        && tree[path][0].enabled
        && tree[path][0].id in ids
        && path in tree[path][0].capturePaths
    }

    ghost predicate Covers(tree: Tree, ids: seq<string>, ps: set<Plugin>)
      reads ps
    {
      forall p, i :: p in ps && p.enabled && p.id in ids && 0 <= i < |p.capturePaths| ==> p.capturePaths[i] in tree
    }

    ghost predicate AllSound()
      reads this, loadedPlugins
    {
      && tagPluginMap.Keys == pluginGroups.Keys
      && forall tag :: tag in pluginGroups ==> Sound(tagPluginMap[tag], pluginGroups[tag])
    }

    /** The index is up to date with the groups and the running plugins. */
    ghost predicate Indexed()
      reads this, loadedPlugins
    {
      && AllSound()
      && forall tag :: tag in pluginGroups ==> Covers(tagPluginMap[tag], pluginGroups[tag], loadedPlugins)
    }

    /** `GetForwarderRadixTreeFromPlugins`; the plugins are visited in any order, and a path that
        is taken stays with its first plugin. */
    method GetForwarderRadixTreeFromPlugins(ids: seq<string>) returns (tree: Tree)
      ensures Sound(tree, ids) && Covers(tree, ids, loadedPlugins)
    {
      tree := map[];
      var rest := loadedPlugins;
      while rest != {}
        invariant rest <= loadedPlugins
        invariant Sound(tree, ids) && Covers(tree, ids, loadedPlugins - rest)
        decreases |rest|
      {
        var plugin :| plugin in rest;
        if plugin.enabled && plugin.id in ids {
          tree := InsertPaths(tree, ids, plugin);
        }
        rest := rest - {plugin};
      }
      assert loadedPlugins - rest == loadedPlugins;
    }

    method InsertPaths(before: Tree, ids: seq<string>, plugin: Plugin) returns (tree: Tree)
      requires Sound(before, ids) && plugin in loadedPlugins && plugin.enabled && plugin.id in ids
      ensures Sound(tree, ids)
      ensures forall path :: path in before ==> path in tree && tree[path] == before[path]
      ensures forall i :: 0 <= i < |plugin.capturePaths| ==> plugin.capturePaths[i] in tree
    {
      tree := before;
      for i := 0 to |plugin.capturePaths|
        invariant Sound(tree, ids)
        invariant forall path :: path in before ==> path in tree && tree[path] == before[path]
        invariant forall j :: 0 <= j < i ==> plugin.capturePaths[j] in tree
      {
        var path := plugin.capturePaths[i];
        if path !in tree {
          tree := tree[path := [plugin]];
        }
      }
    }

    /** The tree of this tag is up to date. */
    ghost predicate TagDone(tag: string)
      requires tag in pluginGroups
      reads this, loadedPlugins
    {
      && tag in tagPluginMap
      && Sound(tagPluginMap[tag], pluginGroups[tag])
      && Covers(tagPluginMap[tag], pluginGroups[tag], loadedPlugins)
    }

    method UpdateTagsToPluginMaps()
      modifies `tagPluginMap
      ensures Indexed()
      ensures old(Consistent()) ==> Consistent()
    {
      IndexTags();
      tagPluginMap := map tag | tag in tagPluginMap && tag in pluginGroups :: tagPluginMap[tag];
      assert forall tag :: tag in tagPluginMap ==> TagDone(tag);
    }

    /** The loop over the groups. */
    method IndexTags()
      modifies `tagPluginMap
      ensures forall tag :: tag in pluginGroups ==> TagDone(tag)
    {
      var rest := pluginGroups.Keys;
      while rest != {}
        invariant rest <= pluginGroups.Keys
        invariant forall tag :: tag in pluginGroups && tag !in rest ==> TagDone(tag)
        decreases |rest|
      {
        var tag :| tag in rest;
        var tree := GetForwarderRadixTreeFromPlugins(pluginGroups[tag]);
        StoreTree(tag, tree);
        rest := rest - {tag};
      }
    }

    method StoreTree(tag: string, tree: Tree)
      requires tag in pluginGroups
      requires Sound(tree, pluginGroups[tag]) && Covers(tree, pluginGroups[tag], loadedPlugins)
      modifies `tagPluginMap
      ensures TagDone(tag)
      ensures forall other :: other in pluginGroups && old(TagDone(other)) ==> TagDone(other)
    {
      tagPluginMap := tagPluginMap[tag := tree];
    }

    /** A plugin found on disk. */
    method LoadPlugin(plugin: Plugin)
      requires Consistent() && plugin.Valid()
      modifies `loadedPlugins, `known
      ensures Consistent() && loadedPlugins == old(loadedPlugins) + {plugin} && known == old(known) + {plugin}
    {
      loadedPlugins, known := loadedPlugins + {plugin}, known + {plugin};
    }

    /** `ReloadPluginFromDisk` for a plugin whose directory is gone: it is forgotten, neither stopped
        nor taken out of the index. */
    method ForgetPlugin(plugin: Plugin)
      requires Consistent()
      modifies `loadedPlugins
      ensures Consistent() && loadedPlugins == old(loadedPlugins) - {plugin}
    {
      loadedPlugins := loadedPlugins - {plugin};
    }

    /** How far starting a plugin got: an error before it is marked as running, a panic over its
        ingress after that, or all the way. */
    method StartPlugin(plugin: Plugin, launches: bool) returns (ok: bool, panicked: bool)
      requires Consistent() && plugin in loadedPlugins
      modifies plugin
      ensures Consistent()
      ensures ok <==> launches && !panicked
      ensures panicked <==> launches && !plugin.ingressParses && exists k :: plugin.Keyed(|plugin.capturePaths|, k)
      ensures launches ==> plugin.enabled
      ensures !launches ==>
                plugin.enabled == old(plugin.enabled) && plugin.staticRouteProxy == old(plugin.staticRouteProxy)
    {
      if !launches {
        return false, false;
      }
      panicked := plugin.Start();
      ok := !panicked;
    }

    /** `EnablePlugin`. An error or a panic on the way leaves the index as it was. */
    method EnablePlugin(plugin: Plugin, launches: bool) returns (ok: bool, panicked: bool)
      requires Consistent() && plugin in loadedPlugins
      modifies plugin, `tagPluginMap
      ensures Consistent()
      ensures ok <==> launches && !panicked
      ensures panicked <==> launches && !plugin.ingressParses && exists k :: plugin.Keyed(|plugin.capturePaths|, k)
      ensures launches ==> plugin.enabled
      ensures !launches ==>
                plugin.enabled == old(plugin.enabled) && plugin.staticRouteProxy == old(plugin.staticRouteProxy)
      ensures if ok then Indexed() else tagPluginMap == old(tagPluginMap)
      ensures old(AllSound()) ==> AllSound()
    {
      ok, panicked := StartPlugin(plugin, launches);
      if ok {
        UpdateTagsToPluginMaps();
      }
    }

    /** `DisablePlugin` */
    method DisablePlugin(plugin: Plugin)
      requires Consistent() && plugin in loadedPlugins
      modifies plugin, `tagPluginMap
      ensures Consistent() && !plugin.enabled && plugin.Stopped() && Indexed()
    {
      plugin.Stop();
      UpdateTagsToPluginMaps();
    }

    /** The process of a plugin died with an error. */
    method PluginDied(plugin: Plugin)
      requires Consistent() && plugin in known
      modifies plugin`enabled, `tagPluginMap
      ensures Consistent() && !plugin.enabled && Indexed()
    {
      plugin.Crash();
      UpdateTagsToPluginMaps();
    }

    /** `RebuildPlugin` past its first checks. Only a plugin that ran and was built and started again
        gets the index brought up to date. When the build or the new start fails, a plugin that ran
        is left stopped behind an index that may still lead to it. */
    method RebuildPlugin(plugin: Plugin, builds: bool, launches: bool) returns (ok: bool, panicked: bool)
      requires Consistent() && plugin in loadedPlugins
      modifies plugin, `tagPluginMap
      ensures Consistent()
      ensures ok <==> builds && (old(plugin.enabled) ==> launches && !panicked)
      ensures panicked ==> old(plugin.enabled) && builds && launches && !plugin.ingressParses
      ensures old(plugin.enabled) && !(builds && launches) ==>
                !plugin.enabled && plugin.Stopped() && tagPluginMap == old(tagPluginMap)
      ensures old(plugin.enabled) && ok ==> plugin.enabled && Indexed()
      ensures !old(plugin.enabled) ==> !plugin.enabled && tagPluginMap == old(tagPluginMap)
                                       && plugin.staticRouteProxy == old(plugin.staticRouteProxy)
    {
      panicked := false;
      var wasEnabled := plugin.enabled;
      if wasEnabled {
        plugin.Stop();
      }
      if !builds {
        return false, false;
      }
      ok := true;
      if wasEnabled {
        ok, panicked := StartPlugin(plugin, launches);
        if ok {
          UpdateTagsToPluginMaps();
        }
      }
    }

    // -------------------------------------------------------------- routing

    /** A capture path registered under one of the first `n` tags matches `path`. */
    ghost predicate MatchUnder(tags: seq<string>, n: nat, path: string, k: string)
      requires n <= |tags|
      reads this
    {
      k <= path && exists i :: 0 <= i < n && tags[i] in tagPluginMap && k in tagPluginMap[tags[i]]
    }

    /** Tag `i` is the first of the tags that knows the capture path `k`. */
    ghost predicate FirstTagWith(tags: seq<string>, i: nat, k: string)
      reads this
    {
      && i < |tags| && tags[i] in tagPluginMap && k in tagPluginMap[tags[i]]
      && forall j :: 0 <= j < i && tags[j] in tagPluginMap ==> k !in tagPluginMap[tags[j]]
    }

    /** `best` is the longest non-empty match under the first `n` tags, and `handlers` are the
        plugins it has under the first of these tags that knows it. */
    ghost predicate Longest(tags: seq<string>, n: nat, path: string, best: string, handlers: seq<Plugin>)
      requires n <= |tags|
      reads this
    {
      && best <= path
      && (forall k :: MatchUnder(tags, n, path, k) ==> |k| <= |best|)
      && (best == "" ==> handlers == [])
      && (best != "" ==>
            exists i: nat :: i < n && FirstTagWith(tags, i, best) && handlers == tagPluginMap[tags[i]][best])
    }

    /** The loop of `HandleRoute`. It compares with Go's `>` on strings and still finds the
        longest capture path, because everything it compares is a prefix of `path`. */
    method FindStaticRoute(tags: seq<string>, path: string) returns (best: string, handlers: seq<Plugin>)
      ensures Longest(tags, |tags|, path, best, handlers)
    {
      best, handlers := "", [];
      for n := 0 to |tags|
        invariant Longest(tags, n, path, best, handlers)
      {
        var tag := tags[n];
        if tag in tagPluginMap {
          var tree := tagPluginMap[tag];
          LongestPrefixIsLongest(tree, path, |path|);
          var longest := LongestPrefix(tree, path, |path|);
          if longest.Some? {
            PrefixOrderIsLength(best, longest.value, path);
            if Less(best, longest.value) {
              best := longest.value;
              handlers := tree[best];
            }
          }
        }
      }
    }

    /** `captured` is the longest match over all tags and not empty, and the first tag that knows
        it puts `plugin` first, which captures it. */
    ghost predicate Wins(tags: seq<string>, path: string, captured: string, plugin: Plugin)
      reads this
    {
      && captured != "" && captured <= path
      && (forall k :: MatchUnder(tags, |tags|, path, k) ==> |k| <= |captured|)
      && (exists i: nat :: FirstTagWith(tags, i, captured)
                           && tagPluginMap[tags[i]][captured] != [] && tagPluginMap[tags[i]][captured][0] == plugin)
      && captured in plugin.capturePaths
    }

    /** `HandleRoute` up to the dynamic routes, then `HandleStaticRoute`, whether the index is up to
        date or not. The winner finds its router exactly for a path that starts with '/', unless the
        winner has been stopped. */
    method HandleRoute(tags: seq<string>, path: string) returns (outcome: Outcome)
      requires Consistent()
      ensures outcome.NotStatic? <==> forall k :: MatchUnder(tags, |tags|, path, k) ==> k == ""
      ensures !outcome.NotStatic? ==> Wins(tags, path, outcome.captured, outcome.plugin)
      ensures !outcome.NotStatic? ==> (outcome.Forwarded? <==> HasPrefix(path, "/") && !outcome.plugin.Stopped())
      ensures !outcome.NotStatic? && outcome.plugin.enabled ==>
                (outcome.Forwarded? <==> HasPrefix(path, "/") && outcome.plugin.ingressParses)
      ensures !outcome.NotStatic? && AllSound() ==> outcome.plugin in loadedPlugins && outcome.plugin.enabled
      ensures outcome.Forwarded? ==> outcome.router == TrimSuffix(outcome.captured, "/")
    {
      if |tags| == 0 {
        return NotStatic;
      }
      var best, handlers := FindStaticRoute(tags, path);
      WinnerCaptures(tags, path, best, handlers);
      if |handlers| > 0 {
        WinnerIsKeyed(handlers[0], path, best);
        CapturingIsKeyed(handlers[0], best);
        outcome := Dispatch(handlers[0], best);
        assert MatchUnder(tags, |tags|, path, best);
      } else {
        outcome := NotStatic;
      }
    }

    /** `HandleStaticRoute`: a request is forwarded exactly if the plugin has routers and the trimmed
        prefix is the key of one of its capture paths. */
    method Dispatch(plugin: Plugin, longestPrefix: string) returns (outcome: Outcome)
      requires plugin.Valid()
      ensures !outcome.NotStatic? && outcome.captured == longestPrefix && outcome.plugin == plugin
      ensures outcome.Forwarded? ==> outcome.router == TrimSuffix(longestPrefix, "/")
      ensures outcome.Forwarded? <==>
                !plugin.Stopped() && plugin.Keyed(|plugin.capturePaths|, TrimSuffix(longestPrefix, "/"))
    {
      var key := TrimSuffix(longestPrefix, "/");
      if key !in plugin.staticRouteProxy {
        return RouterMissing(longestPrefix, plugin);
      }
      outcome := Forwarded(longestPrefix, plugin, plugin.staticRouteProxy[key]);
    }

    /** The winner was loaded and captures the path; if the index is sound, it is loaded and runs. */
    lemma WinnerCaptures(tags: seq<string>, path: string, best: string, handlers: seq<Plugin>)
      requires Consistent() && Longest(tags, |tags|, path, best, handlers)
      ensures handlers == [] <==> best == ""
      ensures best != "" ==> handlers[0] in known && best in handlers[0].capturePaths
      ensures best != "" && AllSound() ==> handlers[0] in loadedPlugins && handlers[0].enabled
    {
    }
  }

  /** A plugin that captures a non-empty path has at least one router key. */
  lemma CapturingIsKeyed(plugin: Plugin, captured: string)
    requires captured in plugin.capturePaths && captured != ""
    ensures plugin.Keyed(|plugin.capturePaths|, RouterKey(captured))
  {
    var i :| 0 <= i < |plugin.capturePaths| && plugin.capturePaths[i] == captured;
  }

  /** The winner has a router key for a path that starts with '/', and none for another. */
  lemma WinnerIsKeyed(plugin: Plugin, path: string, captured: string)
    requires captured in plugin.capturePaths && captured != "" && captured <= path
    ensures plugin.Keyed(|plugin.capturePaths|, TrimSuffix(captured, "/")) <==> HasPrefix(path, "/")
  {
    TrimmedPrefixIsRouterKeyIff(captured, path);
    var i :| 0 <= i < |plugin.capturePaths| && plugin.capturePaths[i] == captured;
    assert HasPrefix(path, "/") ==> RouterKey(plugin.capturePaths[i]) == TrimSuffix(captured, "/");
  }
}
