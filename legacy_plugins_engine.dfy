/** The older plugins engine of gedit (src/gedit-plugins-engine.c):
    shared-object plugins found by file name, checked symbol by symbol,
    kept in a list with an ACTIVATED/DEACTIVATED state per plugin, and a
    boolean setting per plugin that records whether it was active.

    The dynamic loader is an oracle: for each file it says whether the
    module opens, which symbols it exports, and what the plugin's init
    reports.  The activate/deactivate hooks' answers are parameters.  A
    GeditPlugin pointer is a handle number handed out at load time. */
module LegacyPluginsEngine {
  import opened Wrappers

  const BaseKey: string := "/apps/gedit-2/plugins"

  /** The user's plugin directory, below the home directory. */
  const UserPluginsLocation: string := ".gedit-2/plugins/"

  /** "." G_MODULE_SUFFIX on a system whose modules end in ".so". */
  const SoExt: string := ".so"

  // ---------------------------------------------------------------------
  // The file-name filter of gedit_plugins_engine_load_dir

  /** The character `k` places back from the end of the name (1 is the
      last), read on into `before`, the memory in front of the name, once
      the name runs out. */
  function FromEnd(name: string, before: seq<char>, k: nat): char
    requires 1 <= k <= |before| + |name|
  {
    if k <= |name| then name[|name| - k] else before[|before| - (k - |name|)]
  }

  /** The strncmp test as written: it compares the three bytes that end
      at the name's end.  For a name shorter than three bytes those bytes
      begin in `before`, the memory in front of the name (the tail of
      the directory entry's preceding fields). */
  function SuffixAsWritten(name: string, before: seq<char>): (r: bool)
  {
    |before| + |name| >= 3
    && FromEnd(name, before, 3) == '.' && FromEnd(name, before, 2) == 's'
    && FromEnd(name, before, 1) == 'o'
  }

  /** The intended filter: the name itself ends in ".so". */
  function HasSoSuffix(name: string): (r: bool)
    ensures r ==> |name| >= 3 && name[|name| - 3..] == SoExt
    ensures |name| >= 3 && name[|name| - 3..] == SoExt ==> r
  {
    |name| >= 3 && name[|name| - 3..] == SoExt
  }

  /** The two filters agree on every name of three bytes or more,
      whatever lies in front of it. */
  lemma SuffixAgreesOnLongNames(name: string, before: seq<char>)
    requires |name| >= 3
    ensures SuffixAsWritten(name, before) == HasSoSuffix(name)
  {
  }

  /** The entry "so" is taken for a plugin when the byte in front of it
      is '.', although it does not end in ".so". */
  lemma ShortNameReadsBeforeStart()
    ensures SuffixAsWritten("so", ['.']) && !HasSoSuffix("so")
  {
  }

  // ---------------------------------------------------------------------
  // The settings key

  /** The key of a plugin's "active" setting as written: the base key
      and the plugin file's basename joined WITHOUT a '/'.  Both plugin
      directories end in '/', so the basename is the directory entry's
      name. */
  function PluginKey(basename: string): string
  {
    BaseKey + basename
  }

  /** No key of a plugin lies inside the plugins directory: the base key
      runs straight into the basename, which never starts with '/'. */
  lemma PluginKeyOutsideBase(basename: string)
    requires basename != [] && basename[0] != '/'
    ensures !(BaseKey + "/" <= PluginKey(basename))
    ensures PluginKey("libtime.so") == "/apps/gedit-2/pluginslibtime.so"
  {
    assert PluginKey(basename)[|BaseKey|] == basename[0];
    assert (BaseKey + "/")[|BaseKey|] == '/';
  }

  /** Keys as written still tell plugins apart: the base key is a fixed
      prefix, so different basenames give different keys. */
  lemma PluginKeyInjective(f: string, g: string)
    requires PluginKey(f) == PluginKey(g)
    ensures f == g
  {
    assert PluginKey(f)[|BaseKey|..] == f;
    assert PluginKey(g)[|BaseKey|..] == g;
  }

  /** The key inside the plugins directory. */
  function IntendedPluginKey(basename: string): (r: string)
    ensures BaseKey + "/" <= r
    ensures r[|BaseKey| + 1..] == basename
  {
    BaseKey + "/" + basename
  }

  /** Intended keys of different basenames differ. */
  lemma IntendedPluginKeyInjective(f: string, g: string)
    requires IntendedPluginKey(f) == IntendedPluginKey(g)
    ensures f == g
  {
    assert IntendedPluginKey(f)[|BaseKey| + 1..] == f;
  }

  // ---------------------------------------------------------------------
  // Loading

  /** What the dynamic loader reports about a module file: whether it
      opens, the symbols it exports, whether init returned PLUGIN_OK,
      and whether init gave the plugin a name. */
  datatype ModuleInfo = ModuleInfo(opens: bool, symbols: set<string>, initOk: bool, setsName: bool)

  /** A GeditPlugin: its handle, its file, and which optional hooks it
      has (a missing one is NULL). */
  datatype Plugin = Plugin(
    handle: nat, file: string, basename: string,
    hasConfigure: bool, hasSaveSettings: bool, hasUpdateUi: bool, hasDestroy: bool)

  datatype PluginState = Activated | Deactivated

  /** GeditPluginInfo. */
  datatype Info = Info(plugin: Plugin, state: PluginState)

  /** The checks of gedit_plugins_engine_load in their order: the module
      opens, exports init, activate and deactivate, init succeeds, and
      names the plugin. */
  function LoadPlugin(file: string, basename: string, m: ModuleInfo, handle: nat): (r: Option<Plugin>)
    ensures r.Some? <==> m.opens && "init" in m.symbols && "activate" in m.symbols
                         && "deactivate" in m.symbols && m.initOk && m.setsName
    ensures r.Some? ==> r.value.handle == handle && r.value.file == file && r.value.basename == basename
    ensures r.Some? ==> (r.value.hasConfigure <==> "configure" in m.symbols)
                        && (r.value.hasSaveSettings <==> "save_settings" in m.symbols)
                        && (r.value.hasUpdateUi <==> "update_ui" in m.symbols)
                        && (r.value.hasDestroy <==> "destroy" in m.symbols)
  {
    if !m.opens then None
    else if "init" !in m.symbols then None
    else if "activate" !in m.symbols then None
    else if "deactivate" !in m.symbols then None
    else if !m.initOk then None
    else if !m.setsName then None
    else Some(Plugin(handle, file, basename, "configure" in m.symbols, "save_settings" in m.symbols,
                     "update_ui" in m.symbols, "destroy" in m.symbols))
  }

  /** The state a loaded plugin starts in: ACTIVATED exactly when its
      boolean setting, under the key as written, reads TRUE (an unset key
      reads FALSE). */
  function InitialState(settings: map<string, bool>, basename: string): (r: PluginState)
    ensures r == Activated <==> PluginKey(basename) in settings && settings[PluginKey(basename)]
  {
    if Lookup(settings, PluginKey(basename)) == Some(true) then Activated else Deactivated
  }

  /** What gedit_plugins_engine_load_dir appends for a listing, in
      listing order, handing out handles from h0 on.  Entries are
      filtered with the suffix test as written; `before` gives the memory
      in front of each entry's name. */
  function LoadedFrom(dir: string, es: seq<string>, before: string -> seq<char>,
                      modules: string -> ModuleInfo, settings: map<string, bool>, h0: nat)
    : (r: seq<Info>)
    ensures |r| <= |es|
    ensures forall i :: 0 <= i < |r| ==> r[i].plugin.handle == h0 + i
    ensures forall i :: 0 <= i < |r| ==> r[i].state == InitialState(settings, r[i].plugin.basename)
  {
    if es == [] then []
    else
      var rest := LoadedFrom(dir, es[..|es| - 1], before, modules, settings, h0);
      var name := es[|es| - 1];
      var file := dir + name;
      if SuffixAsWritten(name, before(name)) && LoadPlugin(file, name, modules(file), h0 + |rest|).Some? then
        var p := LoadPlugin(file, name, modules(file), h0 + |rest|).value;
        rest + [Info(p, InitialState(settings, name))]
      else rest
  }

  /** On a listing whose names all have three characters or more, the
      filter as written keeps what the intended one keeps: every plugin
      loaded has a basename ending in ".so", whatever lies in memory in
      front of the names. */
  lemma {:induction false} LoadedFromLongNames(dir: string, es: seq<string>, before: string -> seq<char>,
                                               modules: string -> ModuleInfo,
                                               settings: map<string, bool>, h0: nat)
    requires forall name :: name in es ==> |name| >= 3
    ensures forall i :: 0 <= i < |LoadedFrom(dir, es, before, modules, settings, h0)| ==>
              HasSoSuffix(LoadedFrom(dir, es, before, modules, settings, h0)[i].plugin.basename)
  {
    if es != [] {
      var front := es[..|es| - 1];
      var name := es[|es| - 1];
      assert forall n :: n in front ==> n in es;
      LoadedFromLongNames(dir, front, before, modules, settings, h0);
      assert name in es;
      SuffixAgreesOnLongNames(name, before(name));
    }
  }

  /** One more listing entry appends at most the plugin it names. */
  lemma LoadedFromStep(dir: string, es: seq<string>, i: nat, before: string -> seq<char>,
                       modules: string -> ModuleInfo, settings: map<string, bool>, h0: nat)
    requires i < |es|
    ensures var rest := LoadedFrom(dir, es[..i], before, modules, settings, h0);
            var m := LoadPlugin(dir + es[i], es[i], modules(dir + es[i]), h0 + |rest|);
            LoadedFrom(dir, es[..i + 1], before, modules, settings, h0)
            == rest + (if SuffixAsWritten(es[i], before(es[i])) && m.Some? then [Info(m.value, InitialState(settings, es[i]))] else [])
  {
    assert es[..i + 1][..i] == es[..i];
    assert es[..i + 1][i] == es[i];
  }

  /** One iteration of gedit_plugins_engine_load_dir on the plugin list:
      `r` is what loading the entry gave (None when the name was
      skipped) and `added` what the iteration appended. */
  lemma LoadDirStep(dir: string, es: seq<string>, i: nat, mem: string -> seq<char>,
                    modules: string -> ModuleInfo, settings: map<string, bool>, p0: seq<Info>, h0: nat,
                    r: Option<Plugin>, added: seq<Info>)
    requires i < |es|
    requires SuffixAsWritten(es[i], mem(es[i])) ==>
               r == LoadPlugin(dir + es[i], es[i], modules(dir + es[i]),
                               h0 + |LoadedFrom(dir, es[..i], mem, modules, settings, h0)|)
    requires added == if SuffixAsWritten(es[i], mem(es[i])) && r.Some?
                      then [Info(r.value, InitialState(settings, es[i]))]
                      else []
    ensures p0 + LoadedFrom(dir, es[..i + 1], mem, modules, settings, h0)
            == (p0 + LoadedFrom(dir, es[..i], mem, modules, settings, h0)) + added
  {
    LoadedFromStep(dir, es, i, mem, modules, settings, h0);
    var rest := LoadedFrom(dir, es[..i], mem, modules, settings, h0);
    assert p0 + (rest + added) == (p0 + rest) + added;
  }

  // ---------------------------------------------------------------------
  // The engine

  class Engine {
    /** gedit_plugins_list. */
    var plugins: seq<Info>
    /** The boolean settings under the GConf client. */
    var settings: map<string, bool>
    /** The next handle to hand out; every plugin's handle is below it. */
    var nextHandle: nat

    /** Handles are distinct and below nextHandle. */
    ghost predicate Valid()
      reads this
    {
      (forall i :: 0 <= i < |plugins| ==> plugins[i].plugin.handle < nextHandle)
      && (forall i, j :: 0 <= i < j < |plugins| ==> plugins[i].plugin.handle < plugins[j].plugin.handle)
    }

    constructor (settings: map<string, bool>)
      ensures Valid() && plugins == [] && this.settings == settings
    {
      plugins := [];
      this.settings := settings;
      nextHandle := 0;
    }

    /** gedit_plugins_engine_load: a plugin that passes every check is
        appended with its initial state; otherwise nothing changes. */
    method Load(file: string, basename: string, m: ModuleInfo) returns (r: Option<Plugin>)
      requires Valid()
      modifies this`plugins, this`nextHandle
      ensures Valid()
      ensures r == LoadPlugin(file, basename, m, old(nextHandle))
      ensures r.None? ==> plugins == old(plugins) && nextHandle == old(nextHandle)
      ensures r.Some? ==> plugins == old(plugins) + [Info(r.value, InitialState(settings, basename))]
                          && nextHandle == old(nextHandle) + 1
    {
      r := LoadPlugin(file, basename, m, nextHandle);
      if r.Some? {
        plugins := plugins + [Info(r.value, InitialState(settings, basename))];
        nextHandle := nextHandle + 1;
      }
    }

    /** One pass of gedit_plugins_engine_load_dir's loop: the entry
        es[i] is loaded when its name passes the suffix test.  `p0` and
        `h0` are the list and the next handle before the loop. */
    method LoadDirEntry(dir: string, es: seq<string>, i: nat, mem: string -> seq<char>,
                        modules: string -> ModuleInfo, ghost p0: seq<Info>, ghost h0: nat)
      requires i < |es| && |p0| == h0
      requires Valid() && nextHandle == |plugins|
      requires plugins == p0 + LoadedFrom(dir, es[..i], mem, modules, settings, h0)
      modifies this`plugins, this`nextHandle
      ensures Valid() && nextHandle == |plugins|
      ensures plugins == p0 + LoadedFrom(dir, es[..i + 1], mem, modules, settings, h0)
    {
      var name := es[i];
      ghost var before := plugins;
      var r: Option<Plugin> := None;
      if SuffixAsWritten(name, mem(name)) {
        var file := dir + name;
        r := Load(file, name, modules(file));
      }
      ghost var added: seq<Info> := if SuffixAsWritten(name, mem(name)) && r.Some?
                                    then [Info(r.value, InitialState(settings, name))]
                                    else [];
      assert plugins == before + added;
      LoadDirStep(dir, es, i, mem, modules, settings, p0, h0, r, added);
    }

    /** gedit_plugins_engine_load_dir: an unreadable directory changes
        nothing; otherwise every entry that passes the file-name test is
        loaded, and the loaded plugins are appended in listing order. */
    method LoadDir(dir: string, entries: Option<seq<string>>, mem: string -> seq<char>,
                   modules: string -> ModuleInfo)
      requires Valid() && nextHandle == |plugins|
      modifies this`plugins, this`nextHandle
      ensures Valid() && nextHandle == |plugins|
      ensures entries.None? ==> plugins == old(plugins)
      ensures entries.Some? ==>
                plugins == old(plugins) + LoadedFrom(dir, entries.value, mem, modules, settings, old(nextHandle))
    {
      if entries.None? {
        return;
      }
      var es := entries.value;
      ghost var p0, h0 := plugins, nextHandle;
      var i := 0;
      while i < |es|
        invariant 0 <= i <= |es|
        invariant Valid() && nextHandle == |plugins|
        invariant plugins == p0 + LoadedFrom(dir, es[..i], mem, modules, settings, h0)
      {
        LoadDirEntry(dir, es, i, mem, modules, p0, h0);
        i := i + 1;
      }
      assert es[..i] == es;
    }

    /** gedit_plugins_engine_init: without module support nothing
        happens; otherwise the user's plugin directory (when there is a
        home directory) and then the system one (GEDIT_PLUGINDIR, a build
        setting) are loaded, each appended in listing order. */
    method Init(moduleSupported: bool, home: Option<string>, pluginDir: string,
                userEntries: Option<seq<string>>, systemEntries: Option<seq<string>>,
                mem: string -> seq<char>, modules: string -> ModuleInfo)
      returns (ok: bool)
      requires Valid() && plugins == [] && nextHandle == 0
      modifies this`plugins, this`nextHandle
      ensures Valid() && ok == moduleSupported
      ensures !ok ==> plugins == []
      // no home directory, or an unreadable directory, contributes nothing
      ensures ok ==>
                var user := if home.Some? then LoadedFrom(home.value + "/" + UserPluginsLocation,
                                                          OrEmpty(userEntries), mem, modules, settings, 0)
                            else [];
                plugins == user + LoadedFrom(pluginDir + "/", OrEmpty(systemEntries),
                                             mem, modules, settings, |user|)
    {
      if !moduleSupported {
        return false;
      }
      if home.Some? {
        var userDir := home.value + "/" + UserPluginsLocation;
        LoadDir(userDir, userEntries, mem, modules);
        ghost var user := plugins;
        assert user == LoadedFrom(userDir, OrEmpty(userEntries), mem, modules, settings, 0);
        LoadDir(pluginDir + "/", systemEntries, mem, modules);
        assert plugins == user + LoadedFrom(pluginDir + "/", OrEmpty(systemEntries), mem, modules, settings, |user|);
      } else {
        LoadDir(pluginDir + "/", systemEntries, mem, modules);
        assert plugins == [] + LoadedFrom(pluginDir + "/", OrEmpty(systemEntries), mem, modules, settings, 0);
      }
      return true;
    }

    /** gedit_plugins_engine_find_plugin_info: the first info holding
        this plugin, or none. */
    method FindPluginInfo(handle: nat) returns (r: Option<nat>)
      ensures r.Some? ==> r.value < |plugins| && plugins[r.value].plugin.handle == handle
      ensures r.Some? ==> forall j :: 0 <= j < r.value ==> plugins[j].plugin.handle != handle
      ensures r.None? ==> forall j :: 0 <= j < |plugins| ==> plugins[j].plugin.handle != handle
    {
      var i := 0;
      while i < |plugins|
        invariant 0 <= i <= |plugins|
        invariant forall j :: 0 <= j < i ==> plugins[j].plugin.handle != handle
      {
        if plugins[i].plugin.handle == handle {
          return Some(i);
        }
        i := i + 1;
      }
      return None;
    }

    /** gedit_plugins_engine_activate_plugin: an unknown plugin or a
        failing activate hook answers FALSE and changes nothing; success
        sets ACTIVATED. */
    method Activate(handle: nat, activateOk: bool) returns (ok: bool)
      modifies this`plugins
      ensures !ok ==> plugins == old(plugins)
      ensures ok <==> activateOk && exists j :: 0 <= j < |old(plugins)| && old(plugins)[j].plugin.handle == handle
      ensures ok ==> exists j :: 0 <= j < |old(plugins)| && old(plugins)[j].plugin.handle == handle
                                 && plugins == old(plugins)[j := old(plugins)[j].(state := Activated)]
    {
      var info := FindPluginInfo(handle);
      if info.None? {
        return false;
      }
      if !activateOk {
        return false;
      }
      plugins := plugins[info.value := plugins[info.value].(state := Activated)];
      return true;
    }

    /** gedit_plugins_engine_deactivate_plugin: the same with the
        deactivate hook and DEACTIVATED. */
    method Deactivate(handle: nat, deactivateOk: bool) returns (ok: bool)
      modifies this`plugins
      ensures !ok ==> plugins == old(plugins)
      ensures ok <==> deactivateOk && exists j :: 0 <= j < |old(plugins)| && old(plugins)[j].plugin.handle == handle
      ensures ok ==> exists j :: 0 <= j < |old(plugins)| && old(plugins)[j].plugin.handle == handle
                                 && plugins == old(plugins)[j := old(plugins)[j].(state := Deactivated)]
    {
      var info := FindPluginInfo(handle);
      if info.None? {
        return false;
      }
      if !deactivateOk {
        return false;
      }
      plugins := plugins[info.value := plugins[info.value].(state := Deactivated)];
      return true;
    }

    /** gedit_plugins_engine_reactivate_all: every ACTIVATED plugin whose
        activate hook fails becomes DEACTIVATED; nothing else changes. */
    method ReactivateAll(activateOk: nat -> bool)
      modifies this`plugins
      ensures |plugins| == |old(plugins)|
      ensures forall j :: 0 <= j < |plugins| ==> plugins[j].plugin == old(plugins)[j].plugin
      ensures forall j :: 0 <= j < |plugins| ==>
                plugins[j].state == (if old(plugins)[j].state == Activated && !activateOk(j)
                                     then Deactivated else old(plugins)[j].state)
    {
      var i := 0;
      while i < |plugins|
        invariant 0 <= i <= |plugins| && |plugins| == |old(plugins)|
        invariant forall j :: 0 <= j < |plugins| ==> plugins[j].plugin == old(plugins)[j].plugin
        invariant forall j :: 0 <= j < i ==>
                    plugins[j].state == (if old(plugins)[j].state == Activated && !activateOk(j)
                                         then Deactivated else old(plugins)[j].state)
        invariant forall j :: i <= j < |plugins| ==> plugins[j] == old(plugins)[j]
      {
        if plugins[i].state == Activated {
          if !activateOk(i) {
            plugins := plugins[i := plugins[i].(state := Deactivated)];
          }
        }
        i := i + 1;
      }
    }

    /** The plugins whose update_ui hook runs: ACTIVATED ones that have
        the hook, in list order. */
    method UiUpdated() returns (updated: seq<nat>)
      ensures forall k :: k in updated <==> 0 <= k < |plugins| && plugins[k].state == Activated
                                             && plugins[k].plugin.hasUpdateUi
      ensures forall a, b :: 0 <= a < b < |updated| ==> updated[a] < updated[b]
    {
      updated := [];
      var i := 0;
      while i < |plugins|
        invariant 0 <= i <= |plugins|
        invariant forall k :: k in updated <==> (0 <= k < i && plugins[k].state == Activated
                                                 && plugins[k].plugin.hasUpdateUi)
        invariant forall a, b :: 0 <= a < b < |updated| ==> updated[a] < updated[b]
        invariant forall a :: 0 <= a < |updated| ==> updated[a] < i
      {
        if plugins[i].state == Activated && plugins[i].plugin.hasUpdateUi {
          updated := updated + [i];
        }
        i := i + 1;
      }
    }

    /** gedit_plugins_engine_update_plugins_ui: for a new window every
        plugin is reactivated first; then the update_ui hooks run. */
    method UpdatePluginsUi(newWindow: bool, activateOk: nat -> bool) returns (updated: seq<nat>)
      modifies this`plugins
      ensures !newWindow ==> plugins == old(plugins)
      ensures |plugins| == |old(plugins)|
      ensures newWindow ==> forall j :: 0 <= j < |plugins| ==> plugins[j].plugin == old(plugins)[j].plugin
      ensures newWindow ==> forall j :: 0 <= j < |plugins| ==>
                plugins[j].state == (if old(plugins)[j].state == Activated && !activateOk(j)
                                     then Deactivated else old(plugins)[j].state)
      ensures forall k :: k in updated <==> 0 <= k < |plugins| && plugins[k].state == Activated
                                             && plugins[k].plugin.hasUpdateUi
    {
      if newWindow {
        ReactivateAll(activateOk);
      }
      updated := UiUpdated();
    }

    /** gedit_plugins_engine_save_settings: the save_settings hooks run
        (their failures are only reported), and every plugin's setting
        records whether it is ACTIVATED. */
    method SaveSettings() returns (hooksRun: seq<nat>)
      modifies this`settings
      ensures settings == Saved(old(settings), plugins)
      ensures forall k :: k in hooksRun <==> 0 <= k < |plugins| && plugins[k].plugin.hasSaveSettings
    {
      hooksRun := [];
      var i := 0;
      while i < |plugins|
        invariant 0 <= i <= |plugins|
        invariant settings == Saved(old(settings), plugins[..i])
        invariant forall k :: k in hooksRun <==> 0 <= k < i && plugins[k].plugin.hasSaveSettings
      {
        var info := plugins[i];
        if info.plugin.hasSaveSettings {
          hooksRun := hooksRun + [i];
        }
        assert plugins[..i + 1][..i] == plugins[..i];
        settings := settings[PluginKey(info.plugin.basename) := info.state == Activated];
        i := i + 1;
      }
      assert plugins[..i] == plugins;
    }
  }

  /** The settings after save_settings wrote each plugin's state in turn. */
  function Saved(s: map<string, bool>, ps: seq<Info>): map<string, bool>
  {
    if ps == [] then s
    else
      var last := ps[|ps| - 1];
      Saved(s, ps[..|ps| - 1])[PluginKey(last.plugin.basename) := last.state == Activated]
  }

  /** Saving and then loading again round-trips the state: when no two
      plugins share a key, the state a plugin starts in after its
      settings were saved is the state it was saved in. */
  lemma {:induction false} SaveThenLoad(s: map<string, bool>, ps: seq<Info>, i: nat)
    requires i < |ps|
    requires forall a, b :: 0 <= a < b < |ps| ==> ps[a].plugin.basename != ps[b].plugin.basename
    ensures InitialState(Saved(s, ps), ps[i].plugin.basename) == ps[i].state
  {
    var front := ps[..|ps| - 1];
    if i < |ps| - 1 {
      assert front[i] == ps[i];
      SaveThenLoad(s, front, i);
      assert PluginKey(ps[i].plugin.basename) != PluginKey(ps[|ps| - 1].plugin.basename) by {
        if PluginKey(ps[i].plugin.basename) == PluginKey(ps[|ps| - 1].plugin.basename) {
          PluginKeyInjective(ps[i].plugin.basename, ps[|ps| - 1].plugin.basename);
        }
      }
    }
  }

  /** Settings of keys that belong to no plugin are left as they were. */
  lemma {:induction false} SavedKeepsOthers(s: map<string, bool>, ps: seq<Info>, k: string)
    requires forall i :: 0 <= i < |ps| ==> PluginKey(ps[i].plugin.basename) != k
    ensures Lookup(Saved(s, ps), k) == Lookup(s, k)
  {
    if ps != [] {
      SavedKeepsOthers(s, ps[..|ps| - 1], k);
    }
  }

  /** gedit_plugins_engine_is_a_configurable_plugin: exactly when the
      plugin has a configure hook. */
  function IsConfigurable(p: Plugin): (r: bool)
    ensures r <==> p.hasConfigure
  {
    p.hasConfigure
  }
}


