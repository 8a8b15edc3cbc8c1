/** The plugins engine of gedit (gedit/gedit-plugins-engine.c): plugin
    descriptors read from ".gedit-plugin" key files, the list of loaded
    plugins, and the list of active plugin locations that is kept sorted
    by strcmp and in step with each plugin's `active` flag.

    Key files are abstract key -> string maps; loading a plugin module and
    the plugin's own configurability are oracle values.  A plugin is named
    by its index in the engine's plugin list. */
module PluginsEngine {
  import opened Wrappers

  const PluginExt: string := ".gedit-plugin"

  /** The keys a descriptor must have, in the order they are checked. */
  const RequiredKeys: seq<string> := ["Module", "Name", "Description", "Author", "Copyright"]

  // ---------------------------------------------------------------------
  // strcmp order and g_slist_insert_sorted

  /** strcmp(a, b) <= 0. */
  predicate StrLe(a: string, b: string)
  {
    a == [] || (b != [] && (a[0] < b[0] || (a[0] == b[0] && StrLe(a[1..], b[1..]))))
  }

  lemma {:induction false} StrLeTotal(a: string, b: string)
    ensures StrLe(a, b) || StrLe(b, a)
  {
    if a != [] && b != [] && a[0] == b[0] {
      StrLeTotal(a[1..], b[1..]);
    }
  }

  lemma {:induction false} StrLeTrans(a: string, b: string, c: string)
    requires StrLe(a, b) && StrLe(b, c)
    ensures StrLe(a, c)
  {
    if a != [] && a[0] == b[0] && b[0] == c[0] {
      StrLeTrans(a[1..], b[1..], c[1..]);
    }
  }

  predicate Sorted(s: seq<string>)
  {
    forall i, j :: 0 <= i < j < |s| ==> StrLe(s[i], s[j])
  }

  /** Where g_slist_insert_sorted puts x: before the first element that
      x does not compare greater than, or at the end. */
  function InsertPos(s: seq<string>, x: string): (k: nat)
    ensures k <= |s|
    ensures forall i :: 0 <= i < k ==> !StrLe(x, s[i])
    ensures k < |s| ==> StrLe(x, s[k])
  {
    if s == [] then 0
    else if StrLe(x, s[0]) then 0
    else 1 + InsertPos(s[1..], x)
  }

  function InsertSorted(s: seq<string>, x: string): seq<string>
  {
    var k := InsertPos(s, x);
    s[..k] + [x] + s[k..]
  }

  /** Where each element of the inserted list comes from: x at the
      insertion point, the old elements before and after it. */
  lemma InsertSortedShape(s: seq<string>, x: string)
    ensures |InsertSorted(s, x)| == |s| + 1
    ensures InsertSorted(s, x)[InsertPos(s, x)] == x
    ensures forall i :: 0 <= i < InsertPos(s, x) ==> InsertSorted(s, x)[i] == s[i]
    ensures forall i :: InsertPos(s, x) < i <= |s| ==> InsertSorted(s, x)[i] == s[i - 1]
  {
  }

  /** Sorted insertion keeps a sorted list sorted. */
  lemma InsertSortedSorted(s: seq<string>, x: string)
    requires Sorted(s)
    ensures Sorted(InsertSorted(s, x))
  {
    var k := InsertPos(s, x);
    var r := InsertSorted(s, x);
    InsertSortedShape(s, x);
    forall i, j | 0 <= i < j < |r| ensures StrLe(r[i], r[j]) {
      if j < k {
        assert r[i] == s[i] && r[j] == s[j];
      } else if i > k {
        assert r[i] == s[i - 1] && r[j] == s[j - 1];
      } else if i == k {
        if j - 1 > k {
          StrLeTrans(x, s[k], s[j - 1]);
        }
      } else if j == k {
        StrLeTotal(x, s[i]);
      } else {
        assert r[i] == s[i] && r[j] == s[j - 1];
      }
    }
  }

  /** Inserting a string that is absent keeps a list free of duplicates. */
  lemma InsertSortedNoDup(s: seq<string>, x: string)
    requires NoDup(s) && x !in s
    ensures NoDup(InsertSorted(s, x))
  {
    var k := InsertPos(s, x);
    var r := InsertSorted(s, x);
    InsertSortedShape(s, x);
    forall i, j | 0 <= i < j < |r| ensures r[i] != r[j] {
      if i == k {
        assert r[j] == s[j - 1];
      } else if j == k {
        assert r[i] == s[i];
      } else if j < k {
        assert r[i] == s[i] && r[j] == s[j];
      } else if i > k {
        assert r[i] == s[i - 1] && r[j] == s[j - 1];
      } else {
        assert r[i] == s[i] && r[j] == s[j - 1];
      }
    }
  }

  /** Sorted insertion adds exactly x, keeps a sorted list sorted, and
      keeps a list without x free of duplicates. */
  lemma InsertSortedFacts(s: seq<string>, x: string)
    ensures multiset(InsertSorted(s, x)) == multiset(s) + multiset{x}
    ensures Sorted(s) ==> Sorted(InsertSorted(s, x))
    ensures NoDup(s) && x !in s ==> NoDup(InsertSorted(s, x))
  {
    var k := InsertPos(s, x);
    assert s == s[..k] + s[k..];
    if Sorted(s) {
      InsertSortedSorted(s, x);
    }
    if NoDup(s) && x !in s {
      InsertSortedNoDup(s, x);
    }
  }

  /** Deactivation undoes activation: removing the first occurrence of a
      location that was inserted into a list without it gives the list
      back. */
  lemma RemoveInserted(s: seq<string>, x: string)
    requires x !in s
    ensures RemoveFirst(InsertSorted(s, x), x) == s
  {
    var k := InsertPos(s, x);
    var r := InsertSorted(s, x);
    assert r[k] == x && r[..k] == s[..k] && r[k + 1..] == s[k..];
    assert x !in r[..k];
    RemoveFirstSplit(r, x);
    assert s == s[..k] + s[k..];
  }

  /** Removing an element keeps a sorted list sorted. */
  lemma RemoveFirstSorted(s: seq<string>, x: string)
    requires Sorted(s)
    ensures Sorted(RemoveFirst(s, x))
  {
    RemoveFirstSplit(s, x);
    if x in s {
      var k := IndexOf(s, x);
      var r := RemoveFirst(s, x);
      forall i, j | 0 <= i < j < |r| ensures StrLe(r[i], r[j]) {
        var i' := if i < k then i else i + 1;
        var j' := if j < k then j else j + 1;
        assert r[i] == s[i'] && r[j] == s[j'];
      }
    }
  }

  // ---------------------------------------------------------------------
  // Descriptors

  /** GeditPluginInfo: `loaded` says the plugin object exists. */
  datatype PluginInfo = PluginInfo(
    file: string, location: string, name: string, desc: string,
    author: string, copyright: string, loaded: bool, active: bool)

  function HasSuffix(s: string, suffix: string): bool
  {
    |s| >= |suffix| && s[|s| - |suffix|..] == suffix
  }

  /** gedit_plugins_engine_load: None when the key file cannot be read or
      lacks any required key; otherwise a new, inactive, unloaded
      descriptor whose fields are the key file's values. */
  function Load(file: string, keyFile: Option<map<string, string>>): (r: Option<PluginInfo>)
    ensures r.Some? <==> keyFile.Some? && forall k :: k in RequiredKeys ==> k in keyFile.value
    ensures r.Some? ==> r.value.file == file && !r.value.loaded && !r.value.active
    ensures r.Some? ==> r.value.location == keyFile.value["Module"] && r.value.name == keyFile.value["Name"]
    ensures r.Some? ==> r.value.copyright == keyFile.value["Copyright"]
  {
    if keyFile.None? then None
    else
      var kf := keyFile.value;
      if "Module" !in kf then None
      else if "Name" !in kf then None
      else if "Description" !in kf then None
      else if "Author" !in kf then None
      else if "Copyright" !in kf then None
      else
        Some(PluginInfo(file, kf["Module"], kf["Name"], kf["Description"],
                        kf["Author"], kf["Copyright"], false, false))
  }

  /** What gedit_plugins_engine_load_dir takes from one directory entry:
      the descriptor of a ".gedit-plugin" file that loads, active exactly
      when its location is in the active list, or nothing. */
  function Accepted(e: string, keyFiles: string -> Option<map<string, string>>,
                    activeList: seq<string>): (r: seq<PluginInfo>)
    ensures |r| <= 1
    ensures r != [] <==> HasSuffix(e, PluginExt) && Load(e, keyFiles(e)).Some?
    ensures r != [] ==> r[0].file == e && (r[0].active <==> r[0].location in activeList) && !r[0].loaded
  {
    if HasSuffix(e, PluginExt) && Load(e, keyFiles(e)).Some? then
      var info := Load(e, keyFiles(e)).value;
      [info.(active := info.location in activeList)]
    else []
  }

  /** The descriptors gedit_plugins_engine_load_dir accepts from a
      directory listing, in listing order. */
  function Loaded(entries: seq<string>, keyFiles: string -> Option<map<string, string>>,
                  activeList: seq<string>): (r: seq<PluginInfo>)
    ensures |r| <= |entries|
    ensures forall i :: 0 <= i < |r| ==> HasSuffix(r[i].file, PluginExt) && r[i].file in entries
    ensures forall i :: 0 <= i < |r| ==> (r[i].active <==> r[i].location in activeList) && !r[i].loaded
  {
    if entries == [] then []
    else
      var e := entries[|entries| - 1];
      var rest := Loaded(entries[..|entries| - 1], keyFiles, activeList);
      var more := Accepted(e, keyFiles, activeList);
      assert forall i :: |rest| <= i < |rest + more| ==> (rest + more)[i] == more[0];
      rest + more
  }

  /** One more listing entry adds what that entry is accepted as. */
  lemma LoadedStep(es: seq<string>, i: nat, keyFiles: string -> Option<map<string, string>>,
                   activeList: seq<string>)
    requires i < |es|
    ensures Loaded(es[..i + 1], keyFiles, activeList)
            == Loaded(es[..i], keyFiles, activeList) + Accepted(es[i], keyFiles, activeList)
  {
    assert es[..i + 1][..i] == es[..i];
    assert es[..i + 1][i] == es[i];
  }

  /** Prepending to a list built by prepending keeps it the reversed
      list of what was seen, followed by the starting list. */
  lemma PrependStep(seen: seq<PluginInfo>, more: seq<PluginInfo>, start: seq<PluginInfo>)
    requires |more| <= 1
    ensures (if more == [] then Reverse(seen) + start else [more[0]] + (Reverse(seen) + start))
            == Reverse(seen + more) + start
  {
    if more == [] {
      assert seen + more == seen;
    } else {
      assert more == [more[0]];
      ReverseSnoc(seen, more[0]);
      assert [more[0]] + (Reverse(seen) + start) == ([more[0]] + Reverse(seen)) + start;
    }
  }

  /** The new `active` flag of one plugin after the active list changed
      to `list`: a plugin newly listed is activated (if its module loads),
      one no longer listed is deactivated, any other keeps its flag. */
  function AfterListChange(p: PluginInfo, list: seq<string>, loadOk: bool): (r: PluginInfo)
    ensures r.active <==> p.location in list && (p.active || p.loaded || loadOk)
    ensures r.loaded <==> p.loaded || (!p.active && p.location in list && loadOk)
    ensures r.(active := p.active, loaded := p.loaded) == p
  {
    var toActivate := p.location in list;
    if !p.active && toActivate then
      if p.loaded || loadOk then p.(loaded := true, active := true) else p
    else if p.active && !toActivate then p.(active := false)
    else p
  }

  /** Indices of the active plugins among the first n, in order. */
  function ActiveIndices(ps: seq<PluginInfo>, n: nat): (r: seq<nat>)
    requires n <= |ps|
    ensures forall k :: k in r <==> 0 <= k < n && ps[k].active
    ensures forall a :: 0 <= a < |r| ==> r[a] < n
    ensures forall a, b :: 0 <= a < b < |r| ==> r[a] < r[b]
  {
    if n == 0 then []
    else ActiveIndices(ps, n - 1) + (if ps[n - 1].active then [n - 1] else [])
  }

  /** Indices reactivate_all hands to the new window: active plugins
      whose module is, or can be, loaded. */
  function ReactivatedIndices(ps: seq<PluginInfo>, loadOk: nat -> bool, n: nat): (r: seq<nat>)
    requires n <= |ps|
    ensures |r| <= n
  {
    if n == 0 then []
    else
      ReactivatedIndices(ps, loadOk, n - 1)
      + (if ps[n - 1].active && (ps[n - 1].loaded || loadOk(n - 1)) then [n - 1] else [])
  }

  /** The indices handed to the new window are exactly the active plugins
      whose module is or becomes loaded, each once and in list order. */
  lemma {:induction false} ReactivatedIndicesSpec(ps: seq<PluginInfo>, loadOk: nat -> bool, n: nat)
    requires n <= |ps|
    ensures var r := ReactivatedIndices(ps, loadOk, n);
            (forall k :: k in r <==> 0 <= k < n && ps[k].active && (ps[k].loaded || loadOk(k)))
            && (forall a :: 0 <= a < |r| ==> r[a] < n)
            && (forall a, b :: 0 <= a < b < |r| ==> r[a] < r[b])
  {
    if n > 0 {
      ReactivatedIndicesSpec(ps, loadOk, n - 1);
    }
  }

  /** One more plugin adds its own index, and nothing else, exactly when
      it is active and its module is or becomes loaded. */
  lemma ReactivatedStep(ps: seq<PluginInfo>, loadOk: nat -> bool, i: nat, before: seq<nat>, res: bool)
    requires i < |ps|
    requires before == ReactivatedIndices(ps, loadOk, i)
    requires res == (ps[i].loaded || loadOk(i))
    ensures ReactivatedIndices(ps, loadOk, i + 1) == before + (if ps[i].active && res then [i] else [])
  {
  }

  /** A plugin after load_plugin_module was tried on it (if needed). */
  function Reloaded(p: PluginInfo, loadOk: bool): (r: PluginInfo)
    ensures r.loaded == (p.loaded || loadOk) && r.active == p.active && r.location == p.location
  {
    p.(loaded := p.loaded || loadOk)
  }

  // ---------------------------------------------------------------------
  // The engine

  class Engine {
    /** gedit_plugins_list. */
    var plugins: seq<PluginInfo>
    /** active_plugins, the value of the "active-plugins" setting. */
    var activePlugins: seq<string>

    /** Every active plugin's location is listed. */
    ghost predicate InStep()
      reads this
    {
      forall i :: 0 <= i < |plugins| && plugins[i].active ==> plugins[i].location in activePlugins
    }

    /** No two plugins share a location. */
    ghost predicate DistinctLocations()
      reads this
    {
      forall i, j :: 0 <= i < j < |plugins| ==> plugins[i].location != plugins[j].location
    }

    constructor ()
      ensures plugins == [] && activePlugins == []
    {
      plugins := [];
      activePlugins := [];
    }

    /** gedit_plugins_engine_load_dir: an unreadable directory changes
        nothing; otherwise the accepted descriptors are prepended one by
        one and the WHOLE plugin list is then reversed, so what was
        loaded before comes out in reverse order, followed by this
        directory's plugins in listing order. */
    method LoadDir(entries: Option<seq<string>>, keyFiles: string -> Option<map<string, string>>)
      modifies this`plugins
      ensures entries.None? ==> plugins == old(plugins)
      ensures entries.Some? ==>
                plugins == Reverse(old(plugins)) + Loaded(entries.value, keyFiles, activePlugins)
    {
      if entries.None? {
        return;
      }
      var es := entries.value;
      ghost var start := plugins;
      ghost var seen: seq<PluginInfo> := [];
      var acc := plugins;
      var i := 0;
      while i < |es|
        invariant 0 <= i <= |es|
        invariant seen == Loaded(es[..i], keyFiles, activePlugins)
        invariant acc == Reverse(seen) + start
      {
        var e := es[i];
        LoadedStep(es, i, keyFiles, activePlugins);
        ghost var accepted := Accepted(e, keyFiles, activePlugins);
        PrependStep(seen, accepted, start);
        if HasSuffix(e, PluginExt) {
          var info := Load(e, keyFiles(e));
          if info.Some? {
            var p := info.value.(active := info.value.location in activePlugins);
            assert accepted == [p];
            acc := [p] + acc;
          }
        }
        seen := seen + accepted;
        i := i + 1;
      }
      assert es[..i] == es;
      ReverseOfPrepended(seen, start);
      plugins := Reverse(acc);
    }

    /** gedit_plugins_engine_init: without module support nothing
        happens; otherwise the active list is read from the settings, the
        user's plugin directory (when it is a directory) and then the
        system one are loaded. */
    method Init(moduleSupported: bool, stored: seq<string>,
                userEntries: Option<seq<string>>, systemEntries: Option<seq<string>>,
                keyFiles: string -> Option<map<string, string>>)
      returns (ok: bool)
      requires plugins == []
      modifies this
      ensures ok == moduleSupported
      ensures !ok ==> plugins == [] && activePlugins == old(activePlugins)
      ensures ok ==> activePlugins == stored
      // a readable system directory reverses what the user directory gave
      ensures ok && systemEntries.Some? ==>
                plugins == Reverse(Loaded(OrEmpty(userEntries), keyFiles, stored))
                           + Loaded(systemEntries.value, keyFiles, stored)
      ensures ok && systemEntries.None? ==> plugins == Loaded(OrEmpty(userEntries), keyFiles, stored)
    {
      if !moduleSupported {
        return false;
      }
      activePlugins := stored;
      LoadDir(userEntries, keyFiles);
      ghost var afterUser := plugins;
      assert Reverse<PluginInfo>([]) == [];
      assert afterUser == Loaded(OrEmpty(userEntries), keyFiles, stored);
      LoadDir(systemEntries, keyFiles);
      assert systemEntries.Some? ==>
        plugins == Reverse(afterUser) + Loaded(systemEntries.value, keyFiles, stored);
      return true;
    }

    /** gedit_plugins_engine_activate_plugin.  `loadOk` is whether the
        plugin module can be loaded, asked only when it is not loaded yet.
        An active plugin is left alone; a failed load reports FALSE and
        changes nothing; otherwise the plugin becomes loaded and active
        and its location is inserted in strcmp order unless it is already
        listed. */
    method Activate(i: nat, loadOk: bool) returns (ok: bool)
      requires i < |plugins|
      modifies this
      ensures old(plugins[i].active) ==> ok && plugins == old(plugins) && activePlugins == old(activePlugins)
      ensures !old(plugins[i].active) && !old(plugins[i].loaded) && !loadOk ==>
                !ok && plugins == old(plugins) && activePlugins == old(activePlugins)
      ensures !old(plugins[i].active) && (old(plugins[i].loaded) || loadOk) ==> (
                ok && plugins == old(plugins)[i := old(plugins)[i].(loaded := true, active := true)]
                && activePlugins == (if old(plugins[i].location) in old(activePlugins) then old(activePlugins)
                                     else InsertSorted(old(activePlugins), old(plugins[i].location))))
      ensures old(InStep()) ==> InStep()
      ensures old(Sorted(activePlugins)) ==> Sorted(activePlugins)
      ensures old(NoDup(activePlugins)) ==> NoDup(activePlugins)
    {
      var p := plugins[i];
      if p.active {
        return true;
      }
      if !p.loaded && !loadOk {
        return false;
      }
      plugins := plugins[i := p.(loaded := true, active := true)];
      if p.location in activePlugins {
        return true;
      }
      InsertSortedFacts(activePlugins, p.location);
      ghost var before := activePlugins;
      activePlugins := InsertSorted(activePlugins, p.location);
      assert forall y :: y in before ==> y in multiset(activePlugins);
      ok := true;
    }

    /** gedit_plugins_engine_deactivate_plugin: an inactive plugin is
        left alone; otherwise it becomes inactive and the first matching
        location is removed.  The answer is always TRUE. */
    method Deactivate(i: nat) returns (ok: bool)
      requires i < |plugins|
      modifies this
      ensures ok
      ensures !old(plugins[i].active) ==> plugins == old(plugins) && activePlugins == old(activePlugins)
      ensures old(plugins[i].active) ==>
                plugins == old(plugins)[i := old(plugins)[i].(active := false)]
                && activePlugins == RemoveFirst(old(activePlugins), old(plugins[i].location))
      ensures old(InStep()) && DistinctLocations() && old(NoDup(activePlugins)) ==> InStep()
      ensures old(Sorted(activePlugins)) ==> Sorted(activePlugins)
      ensures old(NoDup(activePlugins)) ==> NoDup(activePlugins)
    {
      var p := plugins[i];
      if !p.active {
        return true;
      }
      plugins := plugins[i := p.(active := false)];
      ghost var before := activePlugins;
      if Sorted(before) {
        RemoveFirstSorted(before, p.location);
      }
      if NoDup(before) {
        RemoveFirstNoDup(before, p.location);
      }
      activePlugins := RemoveFirst(activePlugins, p.location);
      if old(InStep()) && DistinctLocations() && NoDup(before) {
        forall j | 0 <= j < |plugins| && plugins[j].active
          ensures plugins[j].location in activePlugins
        {
          assert j != i && old(plugins[j]) == plugins[j];
          if j < i {
            assert plugins[j].location != plugins[i].location;
          } else {
            assert plugins[i].location != plugins[j].location;
          }
          assert plugins[j].location in before;
        }
      }
      return true;
    }

    /** gedit_plugins_engine_active_plugins_changed: a value that is not
        a list of strings is ignored; otherwise the list is adopted and
        every plugin's flag follows it (AfterListChange). */
    method ActivePluginsChanged(newList: Option<seq<string>>, loadOk: nat -> bool)
      modifies this
      ensures newList.None? ==> plugins == old(plugins) && activePlugins == old(activePlugins)
      ensures newList.Some? ==> activePlugins == newList.value && |plugins| == |old(plugins)|
      ensures newList.Some? ==>
                forall j :: 0 <= j < |plugins| ==>
                  plugins[j] == AfterListChange(old(plugins)[j], newList.value, loadOk(j))
      ensures newList.Some? ==> InStep()
    {
      if newList.None? {
        return;
      }
      activePlugins := newList.value;
      var i := 0;
      while i < |plugins|
        invariant 0 <= i <= |plugins| && |plugins| == |old(plugins)|
        invariant activePlugins == newList.value
        invariant forall j :: 0 <= j < i ==>
                    plugins[j] == AfterListChange(old(plugins)[j], newList.value, loadOk(j))
        invariant forall j :: i <= j < |plugins| ==> plugins[j] == old(plugins)[j]
      {
        plugins := plugins[i := AfterListChange(plugins[i], activePlugins, loadOk(i))];
        i := i + 1;
      }
    }

    /** reactivate_all: every unloaded module is loaded if it can be, and
        the active plugins whose module is loaded are activated on the
        new window, in list order. */
    method ReactivateAll(loadOk: nat -> bool) returns (activatedOn: seq<nat>)
      modifies this`plugins
      ensures |plugins| == |old(plugins)|
      ensures forall j :: 0 <= j < |plugins| ==> plugins[j] == Reloaded(old(plugins)[j], loadOk(j))
      ensures activatedOn == ReactivatedIndices(old(plugins), loadOk, |plugins|)
    {
      var ps := plugins;
      var cur := [];
      activatedOn := [];
      var i := 0;
      while i < |ps|
        invariant 0 <= i <= |ps| && |cur| == i
        invariant forall j :: 0 <= j < i ==> cur[j] == Reloaded(ps[j], loadOk(j))
        invariant activatedOn == ReactivatedIndices(ps, loadOk, i)
      {
        var p := ps[i];
        var res := true;
        if !p.loaded {
          res := loadOk(i);
        }
        ReactivatedStep(ps, loadOk, i, activatedOn, res);
        assert Reloaded(p, res) == Reloaded(ps[i], loadOk(i));
        cur := cur + [Reloaded(p, res)];
        if p.active && res {
          activatedOn := activatedOn + [i];
        }
        i := i + 1;
      }
      plugins := cur;
    }

    /** The plugins whose UI gedit_plugins_engine_update_plugins_ui
        updates: the active ones, in list order. */
    method ActivePluginIndices() returns (updated: seq<nat>)
      ensures updated == ActiveIndices(plugins, |plugins|)
    {
      updated := [];
      var i := 0;
      while i < |plugins|
        invariant 0 <= i <= |plugins|
        invariant updated == ActiveIndices(plugins, i)
      {
        if plugins[i].active {
          updated := updated + [i];
        }
        i := i + 1;
      }
    }

    /** gedit_plugins_engine_update_plugins_ui: for a new window the
        plugins are reactivated first; then every active plugin has its
        UI updated. */
    method UpdatePluginsUi(newWindow: bool, loadOk: nat -> bool)
      returns (activatedOn: seq<nat>, updated: seq<nat>)
      modifies this`plugins
      ensures !newWindow ==> plugins == old(plugins) && activatedOn == []
      ensures newWindow ==> activatedOn == ReactivatedIndices(old(plugins), loadOk, |old(plugins)|)
      ensures |plugins| == |old(plugins)|
      ensures newWindow ==> forall j :: 0 <= j < |plugins| ==> plugins[j] == Reloaded(old(plugins)[j], loadOk(j))
      ensures updated == ActiveIndices(plugins, |plugins|)
      ensures forall k :: k in updated <==> 0 <= k < |plugins| && plugins[k].active
      ensures forall j :: 0 <= j < |plugins| ==> plugins[j].active == old(plugins)[j].active
    {
      activatedOn := [];
      if newWindow {
        activatedOn := ReactivateAll(loadOk);
      }
      updated := ActivePluginIndices();
    }

    /** gedit_plugins_engine_plugin_is_configurable: FALSE without a
        plugin object or for an inactive plugin, otherwise what the
        plugin says. */
    function IsConfigurable(i: nat, pluginConfigurable: bool): (r: bool)
      requires i < |plugins|
      reads this
      ensures r ==> plugins[i].loaded && plugins[i].active
      ensures plugins[i].loaded && plugins[i].active ==> r == pluginConfigurable
    {
      if !plugins[i].loaded || !plugins[i].active then false else pluginConfigurable
    }
  }
}
