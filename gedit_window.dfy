/** The bookkeeping of a gedit window (gedit/gedit-window.c): the cursor
    column shown in the status bar, the accelerators of the documents
    menu, the window title, the tab counter with the sensitivity rules
    that follow it, and the re-entrancy guards of the "show/hide" setters.
    Tabs are opaque identifiers; what the toolkit reports about a tab is
    passed in. */
module GeditWindow {
  import opened Wrappers

  type TabId = nat

  // ---------------------------------------------------------------------
  // update_cursor_position_statusbar

  /** The column the cursor reaches after `line`: a tab moves to the next
      multiple of the tab width, any other character moves one column. */
  function Column(line: string, tabSize: nat): nat
    requires tabSize > 0
  {
    if line == [] then 0
    else
      var col := Column(line[..|line| - 1], tabSize);
      if line[|line| - 1] == '\t' then col + (tabSize - col % tabSize) else col + 1
  }

  /** Every character advances the column by at least one, and a tab
      lands on a tab stop. */
  lemma {:induction false} ColumnFacts(line: string, tabSize: nat)
    requires tabSize > 0
    ensures Column(line, tabSize) >= |line|
    ensures line != [] && line[|line| - 1] == '\t' ==> Column(line, tabSize) % tabSize == 0
    ensures (forall i :: 0 <= i < |line| ==> line[i] != '\t') ==> Column(line, tabSize) == |line|
  {
    if line != [] {
      var init := line[..|line| - 1];
      ColumnFacts(init, tabSize);
      if line[|line| - 1] == '\t' {
        TabStop(Column(init, tabSize), tabSize);
      }
    }
  }

  /** A tab moves at least one and at most a full tab width, and lands
      on a multiple of the tab width. */
  lemma TabStop(col: nat, tabSize: nat)
    requires tabSize > 0
    ensures 1 <= tabSize - col % tabSize <= tabSize
    ensures (col + (tabSize - col % tabSize)) % tabSize == 0
  {
    var q, r := col / tabSize, col % tabSize;
    assert col == q * tabSize + r;
    assert col + (tabSize - r) == (q + 1) * tabSize;
    ModUnique(col + (tabSize - r), tabSize, q + 1, 0);
  }

  lemma MulMono(m: int, n: int)
    requires m >= 1 && n > 0
    ensures m * n >= n
  {
    assert m * n == (m - 1) * n + n;
  }

  /** The remainder is determined by any quotient-remainder split. */
  lemma ModUnique(a: int, n: int, b: int, c: int)
    requires n > 0 && a == b * n + c && 0 <= c < n
    ensures a % n == c
  {
    var q, r := a / n, a % n;
    assert a == q * n + r;
    assert (b - q) * n == r - c;
    if b - q >= 1 {
      MulMono(b - q, n);
      assert false;
    } else if q - b >= 1 {
      MulMono(q - b, n);
      assert false;
    }
  }

  /** The status-bar position (row + 1, column + 1) for a cursor on line
      `row` preceded on its line by `before`; the loop walks the
      characters between the line start and the cursor. */
  method CursorPosition(before: string, row: nat, tabSize: nat) returns (line: nat, col: nat)
    requires tabSize > 0
    ensures line == row + 1
    ensures col == Column(before, tabSize) + 1
  {
    var c := 0;
    var i := 0;
    while i < |before|
      invariant 0 <= i <= |before|
      invariant c == Column(before[..i], tabSize)
    {
      assert before[..i + 1][..i] == before[..i];
      if before[i] == '\t' {
        c := c + (tabSize - c % tabSize);
      } else {
        c := c + 1;
      }
      i := i + 1;
    }
    assert before[..i] == before;
    line, col := row + 1, c + 1;
  }

  // ---------------------------------------------------------------------
  // update_documents_list_menu: the accelerator of the i-th tab

  function DigitChar(d: nat): char
    requires d < 10
  {
    "0123456789"[d]
  }

  /** "<alt>1" ... "<alt>9", "<alt>0" for the first ten tabs, none after. */
  function Accel(i: nat): (r: Option<string>)
    ensures r.Some? <==> i < 10
    ensures r.Some? ==> |r.value| == 6 && r.value[..5] == "<alt>"
    ensures i == 9 ==> r == Some("<alt>0")
  {
    if i < 10 then
      assert i == 9 ==> DigitChar((i + 1) % 10) == '0';
      assert "<alt>0" == "<alt>" + ['0'];
      Some("<alt>" + [DigitChar((i + 1) % 10)])
    else None
  }

  /** No two of the first ten tabs share an accelerator. */
  lemma AccelDistinct(i: nat, j: nat)
    requires i < 10 && j < 10 && i != j
    ensures Accel(i) != Accel(j)
  {
    var a, b := Accel(i).value, Accel(j).value;
    assert a[5] == DigitChar((i + 1) % 10);
    assert b[5] == DigitChar((j + 1) % 10);
  }

  // ---------------------------------------------------------------------
  // set_title

  const MaxTitleLength: nat := 100

  /** gedit_utils_str_middle_truncate keeps both ends of a string around
      an ellipsis so that it fits the given length; strings that fit are
      returned as they are.  gedit/gedit-utils.c is not part of this
      model: this stand-in only fixes that contract. */
  function MiddleTruncate(s: string, limit: nat): (r: string)
    ensures |s| <= limit ==> r == s
    ensures limit >= 1 && |s| > limit ==> |r| == limit
  {
    if |s| <= limit || limit < 1 then s
    else
      var left := (limit - 1) / 2;
      var right := limit - 1 - left;
      s[..left] + "…" + s[|s| - right..]
  }

  /** The directory budget: what is left of the title length once the
      name is in, but never fewer than 20 characters. */
  function DirBudget(nameLength: nat): nat
  {
    if MaxTitleLength - nameLength > 20 then MaxTitleLength - nameLength else 20
  }

  /** The document shown in the active tab, as set_title sees it. */
  datatype TitleDoc = TitleDoc(shortName: string, dir: Option<string>,
                               modified: bool, readonly: bool)

  /** The name and the directory that appear in the title. */
  function TitleParts(d: TitleDoc): (r: (string, Option<string>))
    ensures |d.shortName| > MaxTitleLength ==> |r.0| == MaxTitleLength && r.1 == None
    ensures |d.shortName| <= MaxTitleLength ==> r.0 == d.shortName
    ensures |d.shortName| <= MaxTitleLength ==> r.1.Some? == d.dir.Some?
    ensures r.1.Some? ==> |r.1.value| <= DirBudget(|d.shortName|)
    // the worst case the source accepts: a long name plus 20 characters
    ensures r.1.Some? ==> |r.0| + |r.1.value| <= MaxTitleLength + 20
  {
    if |d.shortName| > MaxTitleLength then (MiddleTruncate(d.shortName, MaxTitleLength), None)
    else
      var dir := if d.dir.Some? then Some(MiddleTruncate(d.dir.value, DirBudget(|d.shortName|))) else None;
      (d.shortName, dir)
  }

  /** The window title; None stands for no active tab. */
  function Title(active: Option<TitleDoc>): (r: string)
  {
    if active.None? then "gedit"
    else
      var d := active.value;
      var (name, dir) := TitleParts(d);
      TitleText(name, dir, d.modified, d.readonly)
  }

  /** The title of a document with the given name and directory: the six
      format strings of the source share their tail, " (%s) - gedit" or
      " - gedit", and differ only in what comes before it. */
  function TitleText(name: string, dir: Option<string>, modified: bool, readonly: bool): string
  {
    TitleHead(name, modified, readonly) + TitleTail(dir)
  }

  /** The part of a title before the directory: "*%s" when modified,
      "%s [Read Only]" when read-only, otherwise "%s". */
  function TitleHead(name: string, modified: bool, readonly: bool): string
  {
    if modified then "*" + name else if readonly then name + ReadOnlyMark else name
  }

  /** The part of a title from the directory on. */
  function TitleTail(dir: Option<string>): string
  {
    (if dir.Some? then " (" + dir.value + ")" else "") + TitleSuffix
  }

  const ReadOnlyMark: string := " [Read Only]"
  const TitleSuffix: string := " - gedit"

  /** Where things sit in a title, read off the text itself: an optional
      leading star (exactly for a modified document), the name, the
      read-only mark (exactly for an unmodified read-only document), the
      directory in parentheses (exactly when there is one to show), and
      the trailing " - gedit". */
  lemma TitleShape(d: TitleDoc)
    ensures var t := Title(Some(d));
            var (name, dir) := TitleParts(d);
            var star := if d.modified then 1 else 0;
            var afterName := star + |name|;
            var afterMark := afterName + (if !d.modified && d.readonly then |ReadOnlyMark| else 0);
            && |t| == afterMark + (if dir.Some? then |dir.value| + 3 else 0) + |TitleSuffix|
            && (d.modified ==> t[0] == '*')
            && t[star..afterName] == name
            && (t[afterName..afterName + 2] == " [" <==> !d.modified && d.readonly)
            && (!d.modified && d.readonly ==> t[afterName..afterMark] == ReadOnlyMark)
            && (t[afterMark..afterMark + 2] == " (" <==> dir.Some?)
            && (dir.Some? ==> t[afterMark..|t| - |TitleSuffix|] == " (" + dir.value + ")")
            && t[|t| - |TitleSuffix|..] == TitleSuffix
  {
    var p := TitleParts(d);
    assert Title(Some(d)) == TitleText(p.0, p.1, d.modified, d.readonly);
    TitleTextShape(p.0, p.1, d.modified, d.readonly);
  }

  lemma TitleTextShape(name: string, dir: Option<string>, modified: bool, readonly: bool)
    ensures var t := TitleText(name, dir, modified, readonly);
            var star := if modified then 1 else 0;
            var afterName := star + |name|;
            var afterMark := afterName + (if !modified && readonly then |ReadOnlyMark| else 0);
            && |t| == afterMark + (if dir.Some? then |dir.value| + 3 else 0) + |TitleSuffix|
            && (modified ==> t[0] == '*')
            && t[star..afterName] == name
            && (t[afterName..afterName + 2] == " [" <==> !modified && readonly)
            && (!modified && readonly ==> t[afterName..afterMark] == ReadOnlyMark)
            && (t[afterMark..afterMark + 2] == " (" <==> dir.Some?)
            && (dir.Some? ==> t[afterMark..|t| - |TitleSuffix|] == " (" + dir.value + ")")
            && t[|t| - |TitleSuffix|..] == TitleSuffix
  {
    var t := TitleText(name, dir, modified, readonly);
    var head := TitleHead(name, modified, readonly);
    var tail := TitleTail(dir);
    var star := if modified then 1 else 0;
    var afterName := star + |name|;
    var afterMark := |head|;
    TitleHeadShape(name, modified, readonly);
    TitleTailShape(dir);
    SliceOfHead(head, tail, star, afterName);
    SliceOfTail(head, tail, afterMark, afterMark + 2);
    SliceOfTail(head, tail, |t| - |TitleSuffix|, |t|);
    if dir.Some? {
      SliceOfTail(head, tail, afterMark, |t| - |TitleSuffix|);
    }
    if !modified && readonly {
      SliceOfHead(head, tail, afterName, afterMark);
      SliceOfHead(head, tail, afterName, afterName + 2);
    }
    if modified {
      assert t[0] == head[0];
    }
  }

  lemma TitleHeadShape(name: string, modified: bool, readonly: bool)
    ensures var h := TitleHead(name, modified, readonly);
            var star := if modified then 1 else 0;
            && |h| == star + |name| + (if !modified && readonly then |ReadOnlyMark| else 0)
            && (modified ==> h[0] == '*')
            && h[star..star + |name|] == name
            && (!modified && readonly ==> h[|name|..] == ReadOnlyMark && h[|name|..|name| + 2] == " [")
  {
    var h := TitleHead(name, modified, readonly);
    if modified {
      assert h[1..] == name;
    } else if readonly {
      assert h[..|name|] == name;
      assert h[|name|..] == ReadOnlyMark;
    }
  }

  lemma TitleTailShape(dir: Option<string>)
    ensures var t := TitleTail(dir);
            && |t| == (if dir.Some? then |dir.value| + 3 else 0) + |TitleSuffix|
            && (t[..2] == " (" <==> dir.Some?)
            && (dir.Some? ==> t[..|t| - |TitleSuffix|] == " (" + dir.value + ")")
            && t[|t| - |TitleSuffix|..] == TitleSuffix
  {
    var t := TitleTail(dir);
    if dir.Some? {
      var p := " (" + dir.value + ")";
      assert t[..|p|] == p;
      assert t[..2] == p[..2];
    } else {
      assert t[1] == '-';
    }
  }

  lemma SliceOfHead(a: string, b: string, i: nat, j: nat)
    requires i <= j <= |a|
    ensures (a + b)[i..j] == a[i..j]
  {
  }

  lemma SliceOfTail(a: string, b: string, i: nat, j: nat)
    requires |a| <= i <= j <= |a| + |b|
    ensures (a + b)[i..j] == b[i - |a|..j - |a|]
  {
  }

  /** For a document whose name does not itself start with '*', the title
      starts with '*' exactly when the document is modified. */
  lemma TitleStarExactly(d: TitleDoc)
    requires d.shortName == [] || d.shortName[0] != '*'
    ensures var t := Title(Some(d));
            (|t| > 0 && t[0] == '*') <==> d.modified
  {
    var p := TitleParts(d);
    if |d.shortName| > MaxTitleLength {
      assert p.0[0] == d.shortName[0];
    }
    assert Title(Some(d)) == TitleText(p.0, p.1, d.modified, d.readonly);
    TitleTextStar(p.0, p.1, d.modified, d.readonly);
  }

  /** The same, for any name that does not start with '*'. */
  lemma TitleTextStar(name: string, dir: Option<string>, modified: bool, readonly: bool)
    requires name == [] || name[0] != '*'
    ensures var t := TitleText(name, dir, modified, readonly);
            (|t| > 0 && t[0] == '*') <==> modified
  {
    var head := TitleHead(name, modified, readonly);
    var tail := TitleTail(dir);
    TitleHeadShape(name, modified, readonly);
    TitleTailShape(dir);
    if modified {
      SliceOfHead(head, tail, 0, 1);
    } else if name != [] {
      SliceOfHead(head, tail, 0, 1);
      assert head[0] == name[0];
    } else if readonly {
      SliceOfHead(head, tail, 0, 1);
      assert head[0] == ReadOnlyMark[0];
    } else {
      SliceOfTail(head, tail, 0, 1);
      assert tail[0] == ' ';
    }
  }

  // ---------------------------------------------------------------------
  // set_sensitivity_according_to_tab

  /** GeditTabState. */
  datatype TabState =
    | Normal | Loading | Reverting | Saving | Printing | PrintPreviewing
    | ShowingPrintPreview | GenericNotEditable | LoadingError
    | RevertingError | SavingError | GenericError | Closing

  /** What the tab reports besides its state. */
  datatype TabInfo = TabInfo(state: TabState, untitled: bool, canUndo: bool,
                             canRedo: bool, canFindAgain: bool)

  /** The sensitivity of the window's actions. */
  datatype Sensitivity = Sensitivity(
    save: bool, saveAs: bool, revert: bool, printPreview: bool, printing: bool,
    close: bool, undo: bool, redo: bool, editing: bool, find: bool,
    findAgain: bool, goToLine: bool, highlightMode: bool)

  function SensitivityFor(t: TabInfo, highlighting: bool): (s: Sensitivity)
    // saving and printing stay possible while a print preview is shown
    ensures s.save == s.saveAs == s.printing == (t.state == Normal || t.state == ShowingPrintPreview)
    ensures s.close <==> !(t.state in {Printing, Loading, PrintPreviewing})
    ensures s.revert <==> t.state == Normal && !t.untitled
    ensures s.undo <==> t.state == Normal && t.canUndo
    ensures s.redo <==> t.state == Normal && t.canRedo
    ensures s.findAgain <==> t.state == Normal && t.canFindAgain
    ensures s.printPreview == s.editing == s.find == s.goToLine == (t.state == Normal)
    ensures s.highlightMode == highlighting
  {
    var normal := t.state == Normal;
    var saveable := normal || t.state == ShowingPrintPreview;
    Sensitivity(
      saveable, saveable, !t.untitled && normal, normal, saveable,
      t.state != Printing && t.state != Loading && t.state != PrintPreviewing,
      normal && t.canUndo, normal && t.canRedo, normal, normal,
      normal && t.canFindAgain, normal, highlighting)
  }

  /** Outside the normal state nothing but saving, printing and closing
      can be sensitive. */
  lemma NotNormalIsReadOnly(t: TabInfo, highlighting: bool)
    requires t.state != Normal
    ensures var s := SensitivityFor(t, highlighting);
            !s.revert && !s.undo && !s.redo && !s.editing && !s.find
            && !s.findAgain && !s.goToLine && !s.printPreview
  {
  }

  // ---------------------------------------------------------------------
  // window_state_event

  const StateMaximized: bv32 := 4
  const StateFullscreen: bv32 := 16

  /** The resize grip is shown again exactly when the window is neither
      maximized nor fullscreen; it is only touched when one of those two
      bits changed.  Returns the new grip setting, or None when untouched. */
  function GripAfterStateEvent(newState: bv32, changed: bv32): (r: Option<bool>)
    ensures r.Some? <==> changed & (StateMaximized | StateFullscreen) != 0
    ensures r.Some? ==> (r.value <==> newState & StateMaximized == 0 && newState & StateFullscreen == 0)
  {
    if changed & (StateMaximized | StateFullscreen) != 0 then
      Some(newState & (StateMaximized | StateFullscreen) == 0)
    else None
  }

  // ---------------------------------------------------------------------
  // The window object

  class Window {
    var numTabs: int
    var activeTab: Option<TabId>
    var removingAllTabs: bool
    /** Sensitivity of the whole action group and of two actions. */
    var groupSensitive: bool
    var moveToNewWindowSensitive: bool
    var highlightModeSensitive: bool
    /** How often the documents menu was rebuilt. */
    var menuRebuilds: nat
    /** The window state last reported and the status-bar resize grip. */
    var windowState: bv32
    var resizeGrip: bool

    /** The four bars and panels, their toggle actions and the values
        written to the preferences. */
    var statusbarVisible: bool
    var statusbarAction: bool
    var statusbarPref: bool
    var sidePanelVisible: bool
    var sidePanelAction: bool
    var sidePanelPref: bool
    /** The static re-entrancy guards of the two setters; they are
        shared by every window in the source. */
    var statusbarGuard: bool
    var sidePanelGuard: bool

    /** No tab has been added yet: the action group and its actions
        still have the sensitivity they were created with. */
    ghost var pristine: bool

    /** The tab counter never goes negative and without tabs there is no
        active tab.  Before the first tab everything is still sensitive;
        after it the action group is sensitive exactly while there are
        tabs, and "move to new window" only with two or more. */
    ghost predicate Valid()
      reads this
    {
      numTabs >= 0
      && (numTabs == 0 ==> activeTab == None)
      && (pristine ==> numTabs == 0 && groupSensitive && moveToNewWindowSensitive)
      && (!pristine ==> groupSensitive == (numTabs > 0) && moveToNewWindowSensitive == (numTabs > 1))
    }

    /** gedit_window_init: no tab, no active tab, the flag lowered; the
        action group is created sensitive, as are its actions. */
    constructor ()
      ensures Valid() && pristine
      ensures numTabs == 0 && activeTab == None && !removingAllTabs
      ensures groupSensitive && moveToNewWindowSensitive && highlightModeSensitive
      ensures menuRebuilds == 0
      ensures !statusbarGuard && !sidePanelGuard
    {
      numTabs := 0;
      activeTab := None;
      removingAllTabs := false;
      pristine := true;
      groupSensitive, moveToNewWindowSensitive, highlightModeSensitive := true, true, true;
      menuRebuilds := 0;
      windowState, resizeGrip := 0, true;
      statusbarVisible, statusbarAction, statusbarPref := true, true, true;
      sidePanelVisible, sidePanelAction, sidePanelPref := false, false, false;
      statusbarGuard, sidePanelGuard := false, false;
    }

    /** The title currently shown, given what the active tab holds. */
    function ShownTitle(docOf: TabId -> TitleDoc): string
      reads this
    {
      if activeTab.None? then Title(None) else Title(Some(docOf(activeTab.value)))
    }

    /** notebook_tab_added: the documents menu is rebuilt for every tab
        added. */
    method TabAdded()
      requires Valid()
      modifies this`numTabs, this`groupSensitive, this`moveToNewWindowSensitive, this`menuRebuilds,
               this`pristine
      ensures Valid() && !pristine
      ensures numTabs == old(numTabs) + 1
      ensures groupSensitive && (moveToNewWindowSensitive <==> numTabs > 1)
      ensures menuRebuilds == old(menuRebuilds) + 1
    {
      numTabs := numTabs + 1;
      if !groupSensitive {
        groupSensitive := true;
      }
      moveToNewWindowSensitive := numTabs > 1;
      menuRebuilds := menuRebuilds + 1;
      pristine := false;
    }

    /** notebook_tab_removed.  The documents menu is rebuilt on every
        removal, except while all tabs are being removed, when it is
        rebuilt only once the last one is gone. */
    method TabRemoved()
      requires Valid() && numTabs > 0
      modifies this`numTabs, this`activeTab, this`menuRebuilds, this`groupSensitive,
               this`moveToNewWindowSensitive, this`highlightModeSensitive
      ensures Valid()
      ensures numTabs == old(numTabs) - 1
      ensures numTabs == 0 ==> activeTab == None && !groupSensitive && !highlightModeSensitive
      ensures numTabs > 0 ==> (activeTab == old(activeTab)
                             && highlightModeSensitive == old(highlightModeSensitive))
      ensures menuRebuilds == old(menuRebuilds) + (if !removingAllTabs || numTabs == 0 then 1 else 0)
    {
      numTabs := numTabs - 1;
      if numTabs == 0 {
        activeTab := None;
      }
      if !removingAllTabs || numTabs == 0 {
        menuRebuilds := menuRebuilds + 1;
      }
      if numTabs == 0 {
        groupSensitive := false;
        highlightModeSensitive := false;
      }
      if numTabs <= 1 {
        moveToNewWindowSensitive := false;
      }
    }

    /** notebook_switch_page: nothing happens when the tab is already the
        active one; otherwise it becomes active and the action
        sensitivity follows its state.  Returns the sensitivity applied. */
    method SwitchPage(tab: TabId, info: TabInfo, highlighting: bool)
      returns (applied: Option<Sensitivity>)
      requires Valid() && numTabs > 0
      modifies this`activeTab, this`highlightModeSensitive
      ensures Valid()
      ensures old(activeTab) == Some(tab) ==> (applied == None
                && activeTab == old(activeTab) && highlightModeSensitive == old(highlightModeSensitive))
      ensures old(activeTab) != Some(tab) ==> (activeTab == Some(tab)
                && applied == Some(SensitivityFor(info, highlighting))
                && highlightModeSensitive == highlighting)
    {
      if activeTab == Some(tab) {
        return None;
      }
      activeTab := Some(tab);
      var s := SensitivityFor(info, highlighting);
      highlightModeSensitive := s.highlightMode;
      applied := Some(s);
    }

    /** gedit_window_close_all_tabs: every tab is removed with the
        "removing all tabs" flag raised, so the documents menu is rebuilt
        once for the whole batch; the flag is lowered afterwards. */
    method CloseAllTabs()
      requires Valid()
      modifies this`numTabs, this`activeTab, this`menuRebuilds, this`groupSensitive,
               this`moveToNewWindowSensitive, this`highlightModeSensitive, this`removingAllTabs
      ensures Valid()
      ensures numTabs == 0 && activeTab == None && !removingAllTabs
      ensures pristine == old(pristine) && (groupSensitive <==> pristine)
      ensures menuRebuilds == old(menuRebuilds) + (if old(numTabs) > 0 then 1 else 0)
    {
      removingAllTabs := true;
      if numTabs == 0 {
        removingAllTabs := false;
        return;
      }
      while numTabs > 0
        invariant Valid() && removingAllTabs
        invariant menuRebuilds == old(menuRebuilds) + (if numTabs == 0 then 1 else 0)
        decreases numTabs
      {
        TabRemoved();
      }
      removingAllTabs := false;
    }

    /** window_state_event: records the state, resets the resize grip
        when the maximized or fullscreen bit changed, and lets the event
        propagate (returns FALSE). */
    method WindowStateEvent(newState: bv32, changed: bv32) returns (handled: bool)
      modifies this`windowState, this`resizeGrip
      ensures windowState == newState
      ensures resizeGrip == match GripAfterStateEvent(newState, changed)
                            case Some(g) => g
                            case None => old(resizeGrip)
      ensures !handled
    {
      windowState := newState;
      var g := GripAfterStateEvent(newState, changed);
      if g.Some? {
        resizeGrip := g.value;
      }
      handled := false;
    }

    /** _gedit_window_set_statusbar_visible.  Any non-zero argument means
        "visible".  When the toggle action disagrees it is switched, and
        its callback calls this setter again, which the guard turns into
        a no-op.  `canSet` is whether the preference key is writable. */
    method SetStatusbarVisible(visible: int, canSet: bool)
      modifies this`statusbarVisible, this`statusbarAction, this`statusbarPref, this`statusbarGuard
      decreases if statusbarGuard then 0 else 1
      ensures statusbarGuard == old(statusbarGuard)
      ensures old(statusbarGuard) ==> (statusbarVisible == old(statusbarVisible)
                && statusbarAction == old(statusbarAction) && statusbarPref == old(statusbarPref))
      ensures !old(statusbarGuard) ==> (statusbarVisible == (visible != 0)
                && statusbarAction == (visible != 0)
                && statusbarPref == (if canSet then visible != 0 else old(statusbarPref)))
    {
      if statusbarGuard {
        return;
      }
      statusbarGuard := true;
      var v := visible != 0;
      statusbarVisible := v;
      if canSet {
        statusbarPref := v;
      }
      if statusbarAction != v {
        statusbarAction := v;
        // the action's "toggled" handler re-enters the setter
        SetStatusbarVisible(if v then 1 else 0, canSet);
      }
      statusbarGuard := false;
    }

    /** _gedit_window_set_side_panel_visible (the bottom panel setter is
        the same code).  As written, the panel is shown only when it is
        asked for AND currently hidden; every other call hides it, so
        asking for an already visible panel hides it while the toggle
        action and the preference say "visible". */
    method SetSidePanelVisible(visible: int, canSet: bool)
      modifies this`sidePanelVisible, this`sidePanelAction, this`sidePanelPref, this`sidePanelGuard
      decreases if sidePanelGuard then 0 else 1
      ensures sidePanelGuard == old(sidePanelGuard)
      ensures old(sidePanelGuard) ==> (sidePanelVisible == old(sidePanelVisible)
                && sidePanelAction == old(sidePanelAction) && sidePanelPref == old(sidePanelPref))
      ensures !old(sidePanelGuard) ==>
                sidePanelVisible == PanelShownAfter(visible != 0, old(sidePanelVisible))
                && sidePanelAction == (visible != 0)
                && sidePanelPref == (if canSet then visible != 0 else old(sidePanelPref))
    {
      if sidePanelGuard {
        return;
      }
      sidePanelGuard := true;
      var v := visible != 0;
      if v && sidePanelVisible != v {
        sidePanelVisible := true;
      } else {
        sidePanelVisible := false;
      }
      if canSet {
        sidePanelPref := v;
      }
      if sidePanelAction != v {
        sidePanelAction := v;
        SetSidePanelVisible(if v then 1 else 0, canSet);
      }
      sidePanelGuard := false;
    }
  }

  /** Whether a panel is shown after the setter ran, as written. */
  function PanelShownAfter(visible: bool, wasVisible: bool): bool
  {
    visible && wasVisible != visible
  }

  /** A hidden panel asked to show is shown and a panel asked to hide is
      hidden; a visible panel asked to show ends up hidden. */
  lemma PanelShownAfterCases(visible: bool, wasVisible: bool)
    ensures !visible ==> !PanelShownAfter(visible, wasVisible)
    ensures visible && !wasVisible ==> PanelShownAfter(visible, wasVisible)
    ensures visible && wasVisible ==> !PanelShownAfter(visible, wasVisible)
  {
  }
}
