/** The application object of gedit (gedit/gedit-app.c): the help link
    it builds, the lockdown mask it keeps and pushes to its windows, the
    active window across window creation and destruction, the singleton
    constructor, and the answer to a window's delete event.

    Windows are opaque identifiers.  The window list is the one
    GtkApplication keeps, which adds a new window at the front. */
module GeditApp {
  import opened Wrappers

  type WindowId = nat

  // ---------------------------------------------------------------------
  // Help links

  /** gedit_app_help_link_id_impl: "help:NAME" or "help:NAME/LINK". */
  function HelpLinkId(name: string, linkId: Option<string>): (r: string)
    ensures |r| >= 5 + |name|
    ensures r[..5] == "help:" && r[5..5 + |name|] == name
    ensures linkId.None? ==> |r| == 5 + |name|
    ensures linkId.Some? ==> r[5 + |name|..] == "/" + linkId.value
  {
    if linkId.Some? then "help:" + name + "/" + linkId.value else "help:" + name
  }

  /** Reads a help link back into its name and link id, splitting at the
      first '/' after the scheme. */
  function ParseHelpLink(s: string): Option<(string, Option<string>)>
  {
    if |s| < 5 || s[..5] != "help:" then None
    else
      var rest := s[5..];
      var slash := IndexOf(rest, '/');
      if slash < 0 then Some((rest, None))
      else Some((rest[..slash], Some(rest[slash + 1..])))
  }

  /** For a help name without '/', the link carries the name and the link
      id unambiguously: reading it back gives both. */
  lemma HelpLinkRoundTrip(name: string, linkId: Option<string>)
    requires '/' !in name
    ensures ParseHelpLink(HelpLinkId(name, linkId)) == Some((name, linkId))
  {
    var s := HelpLinkId(name, linkId);
    var rest := s[5..];
    if linkId.Some? {
      assert rest == name + ("/" + linkId.value);
      IndexOfAfter(name, "/" + linkId.value, '/');
      assert rest[..|name|] == name;
      assert rest[|name| + 1..] == linkId.value;
    } else {
      assert rest == name;
    }
  }

  /** The first '/' of `a + b` lies in `b` when `a` has none. */
  lemma IndexOfAfter(a: string, b: string, c: char)
    requires c !in a && b != [] && b[0] == c
    ensures IndexOf(a + b, c) == |a|
  {
    var s := a + b;
    assert s[|a|] == c;
    assert s[..|a|] == a;
  }

  /** The help name gedit_app_show_help_impl uses: none, or the
      deprecated "gedit.xml", mean "gedit". */
  function HelpName(name: Option<string>): (r: string)
    ensures name.None? || name == Some("gedit.xml") ==> r == "gedit"
    ensures name.Some? && name != Some("gedit.xml") ==> r == name.value
  {
    if name.None? then "gedit"
    else if name.value == "gedit.xml" then "gedit"
    else name.value
  }

  /** Normalising twice is normalising once, and the result is never the
      deprecated name. */
  lemma HelpNameIdempotent(name: Option<string>)
    ensures HelpName(Some(HelpName(name))) == HelpName(name)
    ensures HelpName(name) != "gedit.xml"
  {
  }

  /** The link gedit_app_show_help_impl hands to gtk_show_uri. */
  function ShowHelpLink(name: Option<string>, linkId: Option<string>): (r: string)
    ensures r == HelpLinkId(HelpName(name), linkId)
    ensures ParseHelpLink(r) == Some((HelpName(name), linkId)) || '/' in HelpName(name)
  {
    var n := HelpName(name);
    if '/' !in n then HelpLinkRoundTrip(n, linkId); HelpLinkId(n, linkId)
    else HelpLinkId(n, linkId)
  }

  // ---------------------------------------------------------------------
  // Lockdown bits

  /** A bit position of a guint mask. */
  type Bit = b: nat | b < 32

  /** A guint lockdown mask, as the set of positions of its set bits:
      `|` is union, `& ~` is difference. */
  type Mask = set<Bit>

  /** The mask after setting (value) or clearing (!value) every bit of
      `bits`: those bits are all set or all clear, every other bit is
      kept. */
  function WithBit(mask: Mask, bits: Mask, value: bool): (r: Mask)
    ensures value ==> bits <= r
    ensures !value ==> r !! bits
    ensures forall b :: b !in bits ==> (b in r <==> b in mask)
  {
    if value then mask + bits else mask - bits
  }

  /** Setting or clearing bits twice is the same as once. */
  lemma WithBitIdempotent(mask: Mask, bits: Mask, value: bool)
    ensures WithBit(WithBit(mask, bits, value), bits, value) == WithBit(mask, bits, value)
  {
  }

  /** Clearing bits undoes setting them. */
  lemma WithBitSetClear(mask: Mask, bits: Mask)
    ensures WithBit(WithBit(mask, bits, true), bits, false) == WithBit(mask, bits, false)
  {
  }

  /** Asking for the value the bits already have leaves the mask alone. */
  lemma WithBitNoop(mask: Mask, bits: Mask, value: bool)
    ensures (if value then bits <= mask else mask !! bits) ==> WithBit(mask, bits, value) == mask
  {
  }

  // ---------------------------------------------------------------------
  // Window state as the delete handler sees it

  datatype WindowState = WindowState(saving: bool, printing: bool, savingSession: bool)

  /** window_delete_event: the event is always stopped (TRUE), and
      quitting is started only when the window is neither saving,
      printing nor saving a session.  Returns (stop, quitStarted). */
  function WindowDeleteEvent(ws: WindowState): (r: (bool, bool))
    ensures r.0
    ensures r.1 <==> !ws.saving && !ws.printing && !ws.savingSession
  {
    if ws.saving || ws.printing || ws.savingSession then (true, false)
    else (true, true)
  }

  // ---------------------------------------------------------------------
  // The application

  class App {
    var windows: seq<WindowId>
    var activeWindow: Option<WindowId>
    var lockdown: Mask
    /** The mask each window was last told about. */
    var windowLockdown: map<WindowId, Mask>
    var quitRequested: bool

    /** No window is listed twice, the active window is one of the
        windows, and there is an active window whenever a window exists
        (another gedit instance asks for it). */
    ghost predicate Valid()
      reads this
    {
      NoDup(windows)
      && (activeWindow.Some? ==> activeWindow.value in windows)
      && (windows != [] ==> activeWindow.Some?)
    }

    constructor (lockdown: Mask)
      ensures Valid() && windows == [] && activeWindow == None
      ensures this.lockdown == lockdown && !quitRequested
    {
      windows := [];
      activeWindow := None;
      this.lockdown := lockdown;
      windowLockdown := map[];
      quitRequested := false;
    }

    /** gedit_app_create_window_impl: the first window becomes the active
        one; the new window is added to the application. */
    method CreateWindow(w: WindowId)
      requires Valid() && w !in windows
      modifies this`windows, this`activeWindow
      ensures Valid()
      ensures windows == [w] + old(windows)
      ensures old(windows) == [] ==> activeWindow == Some(w)
      ensures old(windows) != [] ==> activeWindow == old(activeWindow)
    {
      var isFirst := windows == [];
      if isFirst {
        activeWindow := Some(w);
      }
      windows := [w] + windows;
    }

    /** window_focus_in_event: the focused window becomes the active one. */
    method FocusIn(w: WindowId)
      requires Valid() && w in windows
      modifies this`activeWindow
      ensures Valid() && activeWindow == Some(w)
    {
      activeWindow := Some(w);
    }

    /** window_destroy: the window leaves the list; if it was the active
        one the first remaining window (or none) becomes active; when no
        window remains the application quits unless the
        "last_window_destroyed" hook says otherwise. */
    method WindowDestroy(w: WindowId, lastWindowDestroyed: bool)
      requires Valid() && w in windows
      modifies this`windows, this`activeWindow, this`quitRequested
      ensures Valid()
      ensures windows == RemoveFirst(old(windows), w) && w !in windows
      ensures old(activeWindow) == Some(w) ==>
                activeWindow == (if windows == [] then None else Some(windows[0]))
      ensures old(activeWindow) != Some(w) ==> activeWindow == old(activeWindow)
      ensures quitRequested == (old(quitRequested) || (windows == [] && lastWindowDestroyed))
    {
      RemoveFirstNoDup(windows, w);
      windows := RemoveFirst(windows, w);
      if activeWindow == Some(w) {
        activeWindow := if windows != [] then Some(windows[0]) else None;
      }
      if windows == [] {
        if !lastWindowDestroyed {
          return;
        }
        quitRequested := true;
      }
    }

    /** app_lockdown_changed: every window is told the current mask. */
    method LockdownChanged()
      modifies this`windowLockdown
      ensures forall w :: w in windows ==> w in windowLockdown && windowLockdown[w] == lockdown
      ensures forall w :: w !in windows ==> Lookup(windowLockdown, w) == Lookup(old(windowLockdown), w)
    {
      var i := 0;
      while i < |windows|
        invariant 0 <= i <= |windows|
        invariant forall j :: 0 <= j < i ==> windows[j] in windowLockdown && windowLockdown[windows[j]] == lockdown
        invariant forall w :: w !in windows ==> Lookup(windowLockdown, w) == Lookup(old(windowLockdown), w)
      {
        windowLockdown := windowLockdown[windows[i] := lockdown];
        i := i + 1;
      }
    }

    /** _gedit_app_set_lockdown: the whole mask is replaced. */
    method SetLockdown(mask: Mask)
      modifies this`lockdown, this`windowLockdown
      ensures lockdown == mask
      ensures forall w :: w in windows ==> w in windowLockdown && windowLockdown[w] == mask
    {
      lockdown := mask;
      LockdownChanged();
    }

    /** _gedit_app_set_lockdown_bit: one bit set or cleared, the others
        kept. */
    method SetLockdownBit(bits: Mask, value: bool)
      modifies this`lockdown, this`windowLockdown
      ensures lockdown == WithBit(old(lockdown), bits, value)
      ensures forall w :: w in windows ==> w in windowLockdown && windowLockdown[w] == lockdown
    {
      if value {
        lockdown := lockdown + bits;
      } else {
        lockdown := lockdown - bits;
      }
      LockdownChanged();
    }
  }

  /** The static app_instance of gedit_app_constructor, cleared by its
      weak pointer when the instance goes away. */
  class AppSlot {
    var instance: Option<nat>

    constructor ()
      ensures instance == None
    {
      instance := None;
    }

    /** gedit_app_constructor: the first construction creates the
        instance (`newInstance`); every later one returns that same instance. */
    method Construct(newInstance: nat) returns (app: nat)
      modifies this
      ensures old(instance).Some? ==> app == old(instance).value && instance == old(instance)
      ensures old(instance).None? ==> app == newInstance && instance == Some(newInstance)
    {
      if instance.None? {
        instance := Some(newInstance);
        return newInstance;
      }
      app := instance.value;
    }

    /** The weak pointer is cleared when the instance is finalized. */
    method Finalize()
      modifies this
      ensures instance == None
    {
      instance := None;
    }
  }
}
