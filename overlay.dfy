/** The overlay container of gedit (gedit/gedit-overlay.c): a main widget
    that fills the container and floating children placed in a corner of
    it (or of a relative widget), each floating child wrapping an inner
    widget.

    Widgets are opaque identifiers.  What the toolkit reports about a
    widget (visibility, requested sizes, a floating child's position and
    offset, allocations) is passed in as functions. */
module Overlay {
  import opened Wrappers

  type WidgetId = nat

  /** A GtkAllocation. */
  datatype Alloc = Alloc(x: int, y: int, width: int, height: int)

  /** The positions size_allocate distinguishes; every other position of
      a floating child is OtherPosition. */
  datatype Position = NorthEast | NorthWest | SouthWest | OtherPosition

  // ---------------------------------------------------------------------
  // Corner placement

  const TwoTo32: int := 0x1_0000_0000
  const TwoTo31: int := 0x8000_0000

  /** The value a gint receives from an unsigned computation: the offset
      is a guint, so `W - w - offset` is evaluated modulo 2^32 and then
      stored in a signed 32-bit field. */
  function Int32Of(v: int): (r: int)
    ensures -TwoTo31 <= r < TwoTo31
    ensures (r - v) % TwoTo32 == 0
    ensures -TwoTo31 <= v < TwoTo31 ==> r == v
  {
    var m := v % TwoTo32;
    if m >= TwoTo31 then m - TwoTo32 else m
  }

  /** Where size_allocate puts a floating child with requisition
      (w, h) and offset `offset` inside a reference of size W x H: its
      size is always the request; north-east hugs the top right corner
      `offset` in from the right edge, north-west the top left corner
      `offset` in from the left edge, south-west the bottom left corner;
      any other position goes to the origin. */
  function Place(position: Position, refW: int, refH: int, w: int, h: int, offset: nat): (r: Alloc)
    requires IsInt32(refW) && IsInt32(refH) && IsInt32(w) && IsInt32(h) && offset < TwoTo32
    ensures r.width == w && r.height == h
    ensures position == NorthEast ==> r.y == 0 && (r.x + w + offset - refW) % TwoTo32 == 0
    ensures position == NorthEast && -TwoTo31 <= refW - w - offset < TwoTo31 ==> r.x + w + offset == refW
    ensures position == NorthWest ==> r.y == 0 && (r.x - offset) % TwoTo32 == 0
    ensures position == NorthWest && offset < TwoTo31 ==> r.x == offset
    ensures position == SouthWest ==> r.x == Int32Of(offset) && r.y + h == Int32Of(refH - h) + h
    ensures position == SouthWest && -TwoTo31 <= refH - h < TwoTo31 ==> r.y + h == refH
    ensures position == OtherPosition ==> r.x == 0 && r.y == 0
  {
    match position
    case NorthEast => Alloc(Int32Of(refW - w - offset), 0, w, h)
    case NorthWest => Alloc(Int32Of(offset), 0, w, h)
    case SouthWest => Alloc(Int32Of(offset), Int32Of(refH - h), w, h)
    case OtherPosition => Alloc(0, 0, w, h)
  }

  /** A gint value. */
  predicate IsInt32(v: int)
  {
    -TwoTo31 <= v < TwoTo31
  }

  /** The allocations size_allocate hands to the floating children, in
      list order, skipping the main widget. */
  function Placements(cs: seq<WidgetId>, main: Option<WidgetId>, refW: int, refH: int,
                      req: WidgetId -> (int, int), offset: WidgetId -> nat,
                      position: WidgetId -> Position): (r: seq<(WidgetId, Alloc)>)
    requires IsInt32(refW) && IsInt32(refH)
    requires forall c :: c in cs ==> IsInt32(req(c).0) && IsInt32(req(c).1) && offset(c) < TwoTo32
    ensures forall k :: 0 <= k < |r| ==> r[k].0 in cs && main != Some(r[k].0)
    ensures forall c :: c in cs && main != Some(c) ==> exists k :: 0 <= k < |r| && r[k].0 == c
    ensures |r| <= |cs|
  {
    if cs == [] then []
    else
      var c := cs[|cs| - 1];
      var front := cs[..|cs| - 1];
      assert c in cs && cs == front + [c];
      var rest := Placements(front, main, refW, refH, req, offset, position);
      assert forall k :: 0 <= k < |rest| ==> rest[k].0 in cs;
      assert forall x :: x in cs && x != c ==> x in front;
      if main == Some(c) then rest
      else
        assert IsInt32(req(c).0) && IsInt32(req(c).1) && offset(c) < TwoTo32;
        var r := rest + [(c, Place(position(c), refW, refH, req(c).0, req(c).1, offset(c)))];
        assert r[|rest|].0 == c;
        assert forall x :: x in front && main != Some(x) ==> exists k :: 0 <= k < |rest| && rest[k].0 == x && r[k] == rest[k];
        r
  }

  /** Every entry of `r` holds the allocation its child's own position,
      requisition and offset yield. */
  predicate PlacedBy(r: seq<(WidgetId, Alloc)>, refW: int, refH: int,
                     req: WidgetId -> (int, int), offset: WidgetId -> nat, position: WidgetId -> Position)
    requires IsInt32(refW) && IsInt32(refH)
  {
    forall k :: 0 <= k < |r| ==>
      IsInt32(req(r[k].0).0) && IsInt32(req(r[k].0).1) && offset(r[k].0) < TwoTo32
      && r[k].1 == Place(position(r[k].0), refW, refH, req(r[k].0).0, req(r[k].0).1, offset(r[k].0))
  }

  /** Each child is given the allocation its own position, requisition
      and offset yield. */
  lemma {:induction false} PlacementsUsePlace(cs: seq<WidgetId>, main: Option<WidgetId>, refW: int, refH: int,
                                              req: WidgetId -> (int, int), offset: WidgetId -> nat,
                                              position: WidgetId -> Position)
    requires IsInt32(refW) && IsInt32(refH)
    requires forall c :: c in cs ==> IsInt32(req(c).0) && IsInt32(req(c).1) && offset(c) < TwoTo32
    ensures PlacedBy(Placements(cs, main, refW, refH, req, offset, position), refW, refH, req, offset, position)
  {
    if cs != [] {
      var front := cs[..|cs| - 1];
      var c := cs[|cs| - 1];
      assert forall x :: x in front ==> x in cs;
      assert c in cs && cs == front + [c];
      PlacementsUsePlace(front, main, refW, refH, req, offset, position);
      var rest := Placements(front, main, refW, refH, req, offset, position);
      var r := Placements(cs, main, refW, refH, req, offset, position);
      if main != Some(c) {
        var a := Place(position(c), refW, refH, req(c).0, req(c).1, offset(c));
        assert r == rest + [(c, a)];
        PlacedByAppend(rest, c, a, refW, refH, req, offset, position);
      }
    }
  }

  /** Appending a child with its own allocation keeps PlacedBy. */
  lemma PlacedByAppend(rest: seq<(WidgetId, Alloc)>, c: WidgetId, a: Alloc, refW: int, refH: int,
                       req: WidgetId -> (int, int), offset: WidgetId -> nat, position: WidgetId -> Position)
    requires IsInt32(refW) && IsInt32(refH)
    requires IsInt32(req(c).0) && IsInt32(req(c).1) && offset(c) < TwoTo32
    requires a == Place(position(c), refW, refH, req(c).0, req(c).1, offset(c))
    requires PlacedBy(rest, refW, refH, req, offset, position)
    ensures PlacedBy(rest + [(c, a)], refW, refH, req, offset, position)
  {
    var r := rest + [(c, a)];
    assert forall k :: 0 <= k < |rest| ==> r[k] == rest[k];
    assert r[|rest|] == (c, a);
  }

  // ---------------------------------------------------------------------
  // The container

  class GeditOverlay {
    var mainWidget: Option<WidgetId>
    var relativeWidget: Option<WidgetId>
    /** priv->children: the main widget and the floating children. */
    var children: seq<WidgetId>
    /** The "widget" property of each floating child: what it wraps. */
    var inner: map<WidgetId, WidgetId>

    /** No child is listed twice, and every floating child wraps a
        widget. */
    ghost predicate Valid()
      reads this
    {
      NoDup(children)
      && forall c :: c in children && mainWidget != Some(c) ==> c in inner
    }

    /** gedit_overlay_new: the zeroed private data, with the
        construct-only "relative-widget" property set (NULL is None); the
        "main-widget" property is then set through SetMainWidget. */
    constructor (relative: Option<WidgetId>)
      ensures Valid() && children == [] && inner == map[]
      ensures mainWidget == None && relativeWidget == relative
    {
      mainWidget := None;
      relativeWidget := relative;
      children := [];
      inner := map[];
    }

    /** Setting the "main-widget" property: the widget becomes the main
        widget and is appended as a top-level child (add_toplevel_widget). */
    method SetMainWidget(w: WidgetId)
      requires Valid() && w !in children && mainWidget == None
      modifies this`mainWidget, this`children
      ensures Valid()
      ensures mainWidget == Some(w) && children == old(children) + [w]
    {
      mainWidget := Some(w);
      children := children + [w];
      assert forall c :: c in children && mainWidget != Some(c) ==> c in old(children);
      forall i, j | 0 <= i < j < |children| ensures children[i] != children[j] {
        if j == |children| - 1 {
          assert children[i] in old(children);
        } else {
          assert children[i] == old(children)[i] && children[j] == old(children)[j];
        }
      }
    }

    /** get_overlay_child: the first floating child that is the widget or
        wraps it; the main widget is never answered. */
    method GetOverlayChild(widget: WidgetId) returns (r: Option<WidgetId>)
      requires Valid()
      ensures r.Some? ==> r.value in children && mainWidget != r
      ensures r.Some? ==> r.value == widget || inner[r.value] == widget
      ensures r.None? ==> forall c :: c in children && mainWidget != Some(c) ==>
                            c != widget && inner[c] != widget
    {
      var i := 0;
      while i < |children|
        invariant 0 <= i <= |children|
        invariant forall j :: 0 <= j < i && mainWidget != Some(children[j]) ==>
                    children[j] != widget && inner[children[j]] != widget
      {
        var child := children[i];
        if mainWidget != Some(child) {
          if child == widget {
            return Some(child);
          }
          if inner[child] == widget {
            return Some(child);
          }
        }
        i := i + 1;
      }
      return None;
    }

    /** overlay_add: a widget that is already a floating child, or is
        wrapped by one, is not added again.  Otherwise a widget that is a
        floating child itself (its wrapped widget `ownInner`) is added as
        it is, any other widget is wrapped in a new floating child
        `wrapper`; the child is appended at the end. */
    method OverlayAdd(widget: WidgetId, isOverlayChild: bool, ownInner: WidgetId, wrapper: WidgetId)
      returns (added: Option<WidgetId>)
      requires Valid()
      requires wrapper !in children && wrapper != widget
      requires isOverlayChild ==> mainWidget != Some(widget)
      modifies this`children, this`inner
      ensures Valid()
      ensures added.None? ==> children == old(children) && inner == old(inner)
      ensures added.None? <==> exists c :: c in old(children) && old(mainWidget) != Some(c)
                                            && (c == widget || old(inner)[c] == widget)
      ensures added.Some? ==> children == old(children) + [added.value]
      ensures added.Some? && isOverlayChild ==> added.value == widget && inner == old(inner)[widget := ownInner]
      ensures added.Some? && !isOverlayChild ==> added.value == wrapper && inner == old(inner)[wrapper := widget]
    {
      var found := GetOverlayChild(widget);
      if found.Some? {
        return None;
      }
      var child;
      if isOverlayChild {
        child := widget;
        inner := inner[widget := ownInner];
      } else {
        child := wrapper;
        inner := inner[wrapper := widget];
      }
      assert child !in children;
      children := children + [child];
      added := Some(child);
    }

    /** gedit_overlay_remove: the first child equal to the widget is
        unlinked; the others keep their order. */
    method Remove(widget: WidgetId)
      requires Valid()
      modifies this`children
      ensures Valid()
      ensures children == RemoveFirst(old(children), widget)
      ensures widget !in children
    {
      var i := 0;
      while i < |children|
        invariant 0 <= i <= |children|
        invariant widget !in children[..i]
      {
        if children[i] == widget {
          RemoveFirstSplit(children, widget);
          RemoveFirstNoDup(children, widget);
          children := children[..i] + children[i + 1..];
          return;
        }
        i := i + 1;
      }
      assert children[..i] == children;
      RemoveFirstSplit(children, widget);
    }

    /** gedit_overlay_get_preferred_width and _height (the same loop over
        either dimension): the largest minimum and natural size among the
        visible children, 0 when none is visible. */
    method PreferredExtent(visible: WidgetId -> bool, size: WidgetId -> (int, int))
      returns (minimum: int, natural: int)
      ensures minimum >= 0 && natural >= 0
      ensures forall c :: c in children && visible(c) ==> minimum >= size(c).0 && natural >= size(c).1
      ensures minimum == 0 || exists c :: c in children && visible(c) && size(c).0 == minimum
      ensures natural == 0 || exists c :: c in children && visible(c) && size(c).1 == natural
    {
      minimum, natural := 0, 0;
      var i := 0;
      while i < |children|
        invariant 0 <= i <= |children|
        invariant minimum >= 0 && natural >= 0
        invariant forall j :: 0 <= j < i && visible(children[j]) ==>
                    minimum >= size(children[j]).0 && natural >= size(children[j]).1
        invariant minimum == 0 || exists j :: 0 <= j < i && visible(children[j]) && size(children[j]).0 == minimum
        invariant natural == 0 || exists j :: 0 <= j < i && visible(children[j]) && size(children[j]).1 == natural
      {
        var child := children[i];
        if visible(child) {
          var (childMin, childNat) := size(child);
          minimum := if minimum >= childMin then minimum else childMin;
          natural := if natural >= childNat then natural else childNat;
        }
        i := i + 1;
      }
    }

    /** gedit_overlay_size_allocate: the main widget gets the whole
        allocation from the origin; the floating children are placed
        against the relative widget's allocation when there is one, or
        against that main allocation. */
    method SizeAllocate(width: int, height: int, relativeAlloc: Alloc,
                        req: WidgetId -> (int, int), offset: WidgetId -> nat,
                        position: WidgetId -> Position)
      returns (mainAlloc: Alloc, placed: seq<(WidgetId, Alloc)>)
      requires IsInt32(width) && IsInt32(height)
      requires IsInt32(relativeAlloc.width) && IsInt32(relativeAlloc.height)
      requires forall c :: c in children ==> IsInt32(req(c).0) && IsInt32(req(c).1) && offset(c) < TwoTo32
      ensures mainAlloc == Alloc(0, 0, width, height)
      ensures var reference := if relativeWidget.Some? then relativeAlloc else mainAlloc;
              placed == Placements(children, mainWidget, reference.width, reference.height, req, offset, position)
    {
      mainAlloc := Alloc(0, 0, width, height);
      var reference := mainAlloc;
      if relativeWidget.Some? {
        reference := relativeAlloc;
      }
      placed := [];
      var i := 0;
      while i < |children|
        invariant 0 <= i <= |children|
        invariant placed == Placements(children[..i], mainWidget, reference.width, reference.height,
                                       req, offset, position)
      {
        var child := children[i];
        assert children[..i + 1][..i] == children[..i];
        if mainWidget != Some(child) {
          var (w, h) := req(child);
          var alloc := Place(position(child), reference.width, reference.height, w, h, offset(child));
          placed := placed + [(child, alloc)];
        }
        i := i + 1;
      }
      assert children[..i] == children;
    }
  }
}
