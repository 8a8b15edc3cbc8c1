/** The bookkeeping core of BonoboMDI (src/bonobo-mdi.c): the list of
    children, the list of registered external objects, the toplevel
    windows and the active child/view/window triple.

    Children, views, windows and registered objects are opaque
    identifiers.  The answers of the "add_child", "remove_child",
    "add_view" and "remove_view" signal handlers (the vetoes) are
    parameters, and so are the decisions the toolkit makes (which page a
    notebook shows after one is removed, which fresh widget a child
    creates for a new view). */
module BonoboMdi {
  import opened Wrappers

  type ChildId = nat
  type ViewId = nat
  type WindowId = nat
  type ObjId = nat

  /** BonoboMDIMode. */
  datatype Mode = Toplevel | Notebook | Modal

  // ---------------------------------------------------------------------
  // escape_underscores

  /** What one character of the input becomes in the output. */
  function Piece(c: char): string
  {
    if c == '_' then "__" else [c]
  }

  /** The text with every underscore doubled, so that a menu label shows
      it literally instead of taking it as a mnemonic marker. */
  function Escaped(text: string): string
  {
    if text == [] then [] else Piece(text[0]) + Escaped(text[1..])
  }

  /** The inverse reading: every "__" becomes "_". */
  function Collapse(s: string): string
  {
    if |s| >= 2 && s[0] == '_' && s[1] == '_' then "_" + Collapse(s[2..])
    else if s == [] then []
    else [s[0]] + Collapse(s[1..])
  }

  lemma {:induction false} EscapedAppend(a: string, b: string)
    ensures Escaped(a + b) == Escaped(a) + Escaped(b)
  {
    if a == [] {
      assert a + b == b;
    } else {
      assert (a + b)[1..] == a[1..] + b;
      EscapedAppend(a[1..], b);
    }
  }

  /** The output is longer than the input by exactly the number of
      underscores in it. */
  lemma {:induction false} EscapedLength(text: string)
    ensures |Escaped(text)| == |text| + Count(text, '_')
  {
    if text != [] {
      EscapedLength(text[1..]);
    }
  }

  /** Collapsing the doubled underscores gives the input back: nothing
      but the underscores was changed. */
  lemma {:induction false} CollapseEscaped(text: string)
    ensures Collapse(Escaped(text)) == text
  {
    if text != [] {
      CollapseEscaped(text[1..]);
      var rest := Escaped(text[1..]);
      if text[0] == '_' {
        assert Escaped(text) == "__" + rest;
        assert ("__" + rest)[2..] == rest;
      } else {
        assert Escaped(text) == [text[0]] + rest;
        assert ([text[0]] + rest)[1..] == rest;
      }
      assert text == [text[0]] + text[1..];
    }
  }

  /** escape_underscores: the append loop over a growing string. */
  method EscapeUnderscores(text: string) returns (r: string)
    ensures r == Escaped(text)
  {
    r := "";
    var i := 0;
    while i < |text|
      invariant 0 <= i <= |text|
      invariant r == Escaped(text[..i])
    {
      assert text[..i + 1] == text[..i] + [text[i]];
      EscapedAppend(text[..i], [text[i]]);
      assert Escaped([text[i]]) == Piece(text[i]);
      r := r + Piece(text[i]);
      i := i + 1;
    }
    assert text[..i] == text;
  }

  // ---------------------------------------------------------------------
  // set_page_by_widget

  /** set_page_by_widget: the notebook is switched to the page holding
      the widget (gtk_notebook_page_num, -1 when absent) unless it already
      shows that page.  Returns the page index the notebook is asked to
      show and whether a switch was requested. */
  function SetPageByWidget(pages: seq<ViewId>, current: int, w: ViewId): (r: (int, bool))
    ensures w in pages ==> 0 <= r.0 < |pages| && pages[r.0] == w && w !in pages[..r.0]
    ensures w !in pages ==> r.0 == -1
    ensures r.1 <==> current != r.0
  {
    var i := IndexOf(pages, w);
    if current != i then (i, true) else (current, false)
  }

  // ---------------------------------------------------------------------
  // The MDI object

  class Mdi {
    /** The mode is chosen when the MDI is created; bonobo_mdi_set_mode
        and its re-layout are not part of this model. */
    const mode: Mode

    /** priv->children, in the order they were added. */
    var children: seq<ChildId>
    /** priv->registered: external objects that keep the MDI alive. */
    var registered: seq<ObjId>
    /** priv->windows: the toplevel windows. */
    var windows: seq<WindowId>

    var activeChild: Option<ChildId>
    var activeView: Option<ViewId>
    var activeWindow: Option<WindowId>

    /** Each child's own list of views (bonobo_mdi_child_get_views). */
    var childViews: map<ChildId, seq<ViewId>>
    /** The child a view belongs to (the BONOBO_MDI_CHILD_KEY datum). */
    var viewChild: map<ViewId, ChildId>
    /** The toplevel holding a view; a view missing here has no parent. */
    var viewWindow: map<ViewId, WindowId>

    /** The registered list never holds the same object twice. */
    ghost predicate Valid()
      reads this
    {
      NoDup(registered)
    }

    constructor (mode: Mode)
      ensures Valid()
      ensures this.mode == mode
      ensures children == [] && registered == [] && windows == []
      ensures activeChild == None && activeView == None && activeWindow == None
      ensures childViews == map[] && viewChild == map[] && viewWindow == map[]
    {
      this.mode := mode;
      children, registered, windows := [], [], [];
      activeChild, activeView, activeWindow := None, None, None;
      childViews, viewChild, viewWindow := map[], map[], map[];
    }

    /** The views a child currently lists. */
    function ViewsOf(c: ChildId): seq<ViewId>
      reads this
    {
      if c in childViews then childViews[c] else []
    }

    // --- register / unregister -------------------------------------

    /** bonobo_mdi_register: append unless already present. */
    method Register(o: ObjId)
      requires Valid()
      modifies this`registered
      ensures Valid()
      ensures registered == WithRegistered(old(registered), o)
    {
      if o !in registered {
        registered := registered + [o];
      }
    }

    /** bonobo_mdi_unregister: g_slist_remove of the object. */
    method Unregister(o: ObjId)
      requires Valid()
      modifies this`registered
      ensures Valid()
      ensures registered == RemoveFirst(old(registered), o)
      ensures o !in registered
      ensures forall x :: x != o ==> (x in registered <==> x in old(registered))
    {
      RemoveFirstNoDup(registered, o);
      registered := RemoveFirst(registered, o);
    }

    // --- children ------------------------------------------------------

    /** bonobo_mdi_add_child: a veto leaves the list alone; otherwise the
        child goes to the end. */
    method AddChild(c: ChildId, allow: bool) returns (ok: bool)
      modifies this`children
      ensures ok == allow
      ensures children == if ok then old(children) + [c] else old(children)
    {
      if !allow {
        return false;
      }
      children := children + [c];
      ok := true;
    }

    /** bonobo_mdi_find_child: the first child whose name equals the
        given one exactly, or NULL. */
    method FindChild(name: string, nameOf: ChildId -> string) returns (r: Option<ChildId>)
      ensures r.None? <==> forall c :: c in children ==> nameOf(c) != name
      ensures r.Some? ==> exists k :: 0 <= k < |children| && children[k] == r.value
                            && nameOf(r.value) == name
                            && forall j :: 0 <= j < k ==> nameOf(children[j]) != name
    {
      var i := 0;
      while i < |children|
        invariant 0 <= i <= |children|
        invariant forall j :: 0 <= j < i ==> nameOf(children[j]) != name
      {
        if nameOf(children[i]) == name {
          return Some(children[i]);
        }
        i := i + 1;
      }
      r := None;
    }

    // --- the active triple -------------------------------------------

    /** The static set_active_view: NULL clears the active view and
        child; the view already active changes nothing; otherwise the
        triple follows the view.  Returns whether "child_changed" and
        "view_changed" were emitted. */
    method SetActiveView(view: Option<ViewId>) returns (childChanged: bool, viewChanged: bool)
      modifies this`activeChild, this`activeView, this`activeWindow
      ensures view.None? ==> activeView == None && activeChild == None
                             && activeWindow == old(activeWindow)
      ensures view.None? ==> viewChanged == old(activeView).Some?
      ensures view.None? ==> childChanged == (old(activeView).Some? && old(activeChild).Some?)
      ensures view.Some? && view == old(activeView) ==>
                activeView == old(activeView) && activeChild == old(activeChild)
                && activeWindow == old(activeWindow) && !childChanged && !viewChanged
      ensures view.Some? && view != old(activeView) ==>
                activeView == view && viewChanged
                && activeChild == Lookup(viewChild, view.value)
                && activeWindow == Lookup(viewWindow, view.value)
                && childChanged == (activeChild != old(activeChild))
      ensures childChanged ==> viewChanged
    {
      var oldChild := activeChild;
      var oldView := activeView;
      if view.None? {
        activeView := None;
        activeChild := None;
      }
      if view == oldView {
        return false, false;
      }
      if view.Some? {
        activeChild := Lookup(viewChild, view.value);
        activeWindow := Lookup(viewWindow, view.value);
      }
      activeView := view;
      childChanged := activeChild != oldChild;
      viewChanged := true;
    }

    /** app_destroy: when the active window is destroyed, the first
        remaining window (or none) becomes active. */
    method AppDestroy(win: WindowId)
      modifies this`activeWindow
      ensures old(activeWindow) == Some(win) ==>
                activeWindow == (if windows == [] then None else Some(windows[0]))
      ensures old(activeWindow) != Some(win) ==> activeWindow == old(activeWindow)
    {
      if activeWindow == Some(win) {
        activeWindow := if windows != [] then Some(windows[0]) else None;
      }
    }

    // --- views ---------------------------------------------------------

    /** bonobo_mdi_remove_view.  `nextPage` is the page the notebook shows
        once the view is gone (None when the notebook is left empty); it
        is consulted only in NOTEBOOK mode. */
    method RemoveView(view: ViewId, force: bool, allow: bool, nextPage: Option<ViewId>)
      returns (ok: bool)
      requires Valid()
      requires nextPage != Some(view)
      modifies this
      ensures Valid()
      ensures ok == (force || allow)
      ensures !ok ==> unchanged(this)
      ensures children == old(children) && registered == old(registered)
      ensures viewChild == old(viewChild)
      ensures ok ==> viewWindow == old(viewWindow) - {view}
      ensures ok && view in old(viewWindow) ==> activeView != Some(view)
      ensures ok && view !in old(viewWindow) ==> unchanged(this)
      // MODAL mode never detaches the view from its child
      ensures mode == Modal ==> childViews == old(childViews)
      ensures ok && mode != Modal && view in old(viewWindow) && view in viewChild
              && viewChild[view] in old(childViews) ==>
                childViews == old(childViews)[viewChild[view] :=
                  RemoveFirst(old(childViews)[viewChild[view]], view)]
      ensures windows == old(windows) || windows == RemoveFirst(old(windows), old(viewWindow)[view])
    {
      if !force && !allow {
        return false;
      }
      var child := Lookup(viewChild, view);
      if view !in viewWindow {
        return true;
      }
      var window := viewWindow[view];
      viewWindow := viewWindow - {view};
      if activeView == Some(view) {
        activeView := None;
      }
      var emptied := mode != Notebook || nextPage.None?;
      if emptied {
        if |windows| > 1 || registered != [] {
          // Not the last toplevel, or someone keeps the MDI alive: the
          // window goes.  The source then re-activates the window's view
          // only "if view == active_view", which cannot hold any more
          // because active_view was cleared above.
          windows := RemoveFirst(windows, window);
          AppDestroy(window);
        } else {
          var _, _ := SetActiveView(None);
        }
      } else {
        var _, _ := SetActiveView(nextPage);
      }
      if mode != Modal && child.Some? && child.value in childViews {
        childViews := childViews[child.value := RemoveFirst(childViews[child.value], view)];
      }
      ok := true;
    }

    /** bonobo_mdi_add_view, up to the veto.  `newView` is the widget the
        child would create (bonobo_mdi_child_add_view appends it to the
        child's list and tags it with the child).  In MODAL mode a child
        that already has a view reuses its first one, and nothing at all
        happens when that child is the active one.  A veto takes the view
        off the child's list again.  Where an accepted view is placed is
        not part of this model. */
    method AddView(child: ChildId, allow: bool, newView: ViewId) returns (ok: bool)
      requires newView !in ViewsOf(child)
      modifies this`childViews, this`viewChild
      ensures old(Reuses(child)) && old(activeChild) == Some(child) ==>
                ok && childViews == old(childViews) && viewChild == old(viewChild)
      ensures !(old(Reuses(child)) && old(activeChild) == Some(child)) ==> ok == allow
      // a vetoed fresh view is dropped again: the child's list is as before
      ensures !ok && !old(Reuses(child)) ==> ViewsOf(child) == old(ViewsOf(child))
      // a vetoed reuse drops the child's existing first view from its list
      ensures !ok && old(Reuses(child)) ==> ViewsOf(child) == old(ViewsOf(child))[1..]
      ensures ok && !old(Reuses(child)) ==>
                ViewsOf(child) == old(ViewsOf(child)) + [newView]
                && newView in viewChild && viewChild[newView] == child
      ensures ok && old(Reuses(child)) ==> ViewsOf(child) == old(ViewsOf(child))
      // only this child's list is touched
      ensures forall c :: c != child ==> ViewsOf(c) == old(ViewsOf(c))
    {
      var views := ViewsOf(child);
      var view;
      if mode != Modal || views == [] {
        view := newView;
        childViews := childViews[child := views + [newView]];
        viewChild := viewChild[newView := child];
      } else {
        view := views[0];
        if activeChild == Some(child) {
          return true;
        }
      }
      if !allow {
        var vs := ViewsOf(child);
        if mode != Modal || views == [] {
          assert vs == views + [newView];
          assert newView in vs && vs[|views|] == newView;
          RemoveFirstSplit(vs, newView);
          assert IndexOf(vs, newView) == |views|;
          assert vs[..|views|] == views;
        }
        childViews := childViews[child := RemoveFirst(vs, view)];
        return false;
      }
      ok := true;
    }

    /** Whether add_view reuses the child's existing first view. */
    predicate Reuses(child: ChildId)
      reads this
    {
      mode == Modal && ViewsOf(child) != []
    }

    /** bonobo_mdi_remove_child.  Unless forced, the "remove_child"
        handler may veto.  Otherwise every view of the child is removed
        (forced), the child leaves the list, the active child is cleared
        if it was this one, and in MODAL mode the first remaining child's
        first view is shown, or a view is added for it.  `pageAfter` gives
        the page a notebook shows after a view is removed;
        `allowNext`/`nextView` serve the add_view of the MODAL tail. */
    method RemoveChild(child: ChildId, force: bool, allow: bool,
                       pageAfter: ViewId -> Option<ViewId>,
                       allowNext: bool, nextView: ViewId) returns (ok: bool)
      requires Valid()
      requires forall v: ViewId :: pageAfter(v) != Some(v)
      modifies this
      ensures Valid()
      ensures ok == (force || allow)
      ensures !ok ==> unchanged(this)
      ensures ok ==> children == RemoveFirst(old(children), child)
      ensures registered == old(registered)
      ensures ok && mode != Modal ==> activeChild != Some(child)
      ensures ok && mode != Modal ==>
                forall v :: v in old(ViewsOf(child)) ==> v !in viewWindow
    {
      if !force && !allow {
        return false;
      }
      var views := ViewsOf(child);
      var i := 0;
      while i < |views|
        invariant 0 <= i <= |views|
        invariant Valid()
        invariant children == old(children) && registered == old(registered)
        invariant forall v :: v in views[..i] ==> v !in viewWindow
      {
        var _ := RemoveView(views[i], true, true, pageAfter(views[i]));
        assert views[..i + 1] == views[..i] + [views[i]];
        i := i + 1;
      }
      assert views[..i] == views;
      children := RemoveFirst(children, child);
      if activeChild == Some(child) {
        activeChild := None;
      }
      if mode == Modal && children != [] {
        var next := children[0];
        var nextViews := ViewsOf(next);
        if nextViews != [] {
          if activeWindow.Some? {
            viewWindow := viewWindow[nextViews[0] := activeWindow.value];
          }
          var _, _ := SetActiveView(Some(nextViews[0]));
        } else {
          var _ := AddView(next, allowNext, nextView);
        }
      }
      ok := true;
    }

    /** bonobo_mdi_remove_all.  Unless forced, every child is first put
        to the "remove_child" handler; one veto and nothing is removed.
        Then the children are removed one by one, forced. */
    method RemoveAll(force: bool, allow: ChildId -> bool,
                     pageAfter: ViewId -> Option<ViewId>, nextView: ChildId -> ViewId)
      returns (ok: bool)
      requires Valid()
      requires forall v: ViewId :: pageAfter(v) != Some(v)
      modifies this
      ensures Valid()
      ensures ok == (force || forall c :: c in old(children) ==> allow(c))
      ensures !ok ==> unchanged(this)
      ensures ok ==> children == []
      ensures registered == old(registered)
    {
      if !force {
        var i := 0;
        while i < |children|
          invariant 0 <= i <= |children|
          invariant forall j :: 0 <= j < i ==> allow(children[j])
        {
          if !allow(children[i]) {
            return false;
          }
          i := i + 1;
        }
      }
      while children != []
        invariant Valid()
        invariant registered == old(registered)
        decreases |children|
      {
        // nextView(c) stands for the view the MODAL tail may create
        var c := children[0];
        var _ := RemoveChild(c, true, true, pageAfter, true, nextView(c));
      }
      ok := true;
    }
  }

  /** The registered list after bonobo_mdi_register. */
  function WithRegistered(s: seq<ObjId>, o: ObjId): seq<ObjId>
  {
    if o in s then s else s + [o]
  }

  /** Registering keeps the list duplicate-free, puts the object in it,
      leaves everything else where it was, and a second registration of
      the same object changes nothing. */
  lemma RegisterFacts(s: seq<ObjId>, o: ObjId)
    requires NoDup(s)
    ensures NoDup(WithRegistered(s, o))
    ensures o in WithRegistered(s, o)
    ensures s <= WithRegistered(s, o)
    ensures WithRegistered(WithRegistered(s, o), o) == WithRegistered(s, o)
  {
  }
}
