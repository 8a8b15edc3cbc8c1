# gedit bookkeeping, modelled in Dafny

This project models the decision and bookkeeping logic of the gedit text
editor. Widgets, documents, files, windows and plugins are opaque
identifiers. Listener vetoes, settings stores, key files and the results of
dynamically loaded plugin code are parameters (booleans, maps and oracle
functions). The model covers:

- the Bonobo MDI child, view and registration lists (`src/bonobo-mdi.c`),
  as the class `BonoboMdi.Mdi`, with `escape_underscores` as a function and
  a loop;
- the file commands (`gedit/gedit-commands-file.c`):
  - the partition of the files to open;
  - the "needs saving" test and the save / save-as routing;
  - the tab buckets of "save all" and "close all";
  - the save-as queue kept on a window;
  - the bucketing of the revert message;
- the window (`gedit/gedit-window.c`):
  - the cursor column loop;
  - the documents-menu accelerators;
  - the title;
  - the tab counter with the sensitivities it drives;
  - the re-entrancy guards of the bar and panel setters;
- the time plugin (`plugins/time/gedit-time-plugin.c`):
  - the prompt-type setting and its encoding;
  - the format defaults;
  - the row preselected in the format list;
  - the dialog handlers and the text that gets inserted;
- the application object (`gedit/gedit-app.c`):
  - help links and help-name normalisation;
  - the lockdown mask;
  - the active window across creation and destruction;
  - the singleton constructor;
  - the delete-event answer;
- two plugin engines:
  - the key-file based engine (`gedit/gedit-plugins-engine.c`), whose sorted,
    duplicate-free `active_plugins` list is kept in step with the per-plugin
    `active` flags;
  - the older GModule engine (`src/gedit-plugins-engine.c`), with its
    ACTIVATED/DEACTIVATED states driven by result codes;
- the overlay container (`gedit/gedit-overlay.c`): its child list, preferred
  size and corner placement with 32-bit wrap-around.

Each source file is one module. `Wrappers` holds `Option` and the sequence
helpers every module shares, such as the first-match removal `RemoveFirst`
(the model of `g_list_remove`) and `Reverse` (the model of the prepend-then-
reverse idiom).

The operations follow the code as written, including the odd cases noted
under "## Left out". In three places the code does something its design
evidently did not intend. For each one, a lemma exhibits the input that
shows it, and a separate member gives the intended behaviour, with its
property proved and a lemma relating it to the code as written. The
"## Findings" table lists these places.

## Model

| member | source | states |
|---|---|---|
| Wrappers.Lookup | gedit/gedit-commands-file.c:673-674 | reading attached data (g_object_get_data) gives a value exactly when the key is set, and then the stored value |
| Wrappers.IndexOf | gedit/gedit-commands-file.c:1490 | g_list_index: -1 exactly when the element is absent; otherwise the first position that holds it |
| Wrappers.RemoveFirstSplit | src/bonobo-mdi.c:1796 | g_list_remove leaves the list unchanged when the element is absent, and otherwise cuts out exactly the first occurrence |
| Wrappers.RemoveFirstNoDup | src/bonobo-mdi.c:2377-2380 | on a duplicate-free list, removal takes the element out, keeps the list duplicate-free, keeps every other element and shortens the list by one exactly when the element was there |
| Wrappers.CountAppend | src/bonobo-mdi.c:457-492 | occurrence counts add up over concatenation, as escape_underscores builds its output piece by piece |
| Wrappers.Reverse | gedit/gedit-commands-file.c:1548 | g_slist_reverse: the reversed list has the same length, with element i taken from the mirrored position |
| Wrappers.ReverseSnoc | gedit/gedit-commands-file.c:148-191 | prepending to a list and reversing it is appending to the reversed list |
| Wrappers.ReverseReverse | gedit/gedit-commands-file.c:148-191 | reversing twice gives back the list, so a prepend loop followed by g_list_reverse keeps input order |
| Wrappers.ReverseAppend | gedit/gedit-plugins-engine.c:231 | reversing a concatenation reverses and swaps both parts, as g_list_reverse does to the whole plugin list |
| BonoboMdi.EscapedAppend | src/bonobo-mdi.c:457-492 | escaping is done character by character: escaping a concatenation concatenates the escapes |
| BonoboMdi.EscapedLength | src/bonobo-mdi.c:457-492 | the escaped string is longer than the input by exactly the number of underscores |
| BonoboMdi.CollapseEscaped | src/bonobo-mdi.c:457-492 | collapsing "__" back to "_" recovers the input, so escaping loses nothing |
| BonoboMdi.EscapeUnderscores | src/bonobo-mdi.c:457-492 | the append loop builds exactly the escaped string (every '_' doubled, everything else copied) |
| BonoboMdi.SetPageByWidget | src/bonobo-mdi.c:424-432 | the page found is the first one showing the view, or -1 when no page does; the page is switched exactly when it differs from the current one |
| BonoboMdi.Mdi.constructor | src/bonobo-mdi.c:337-400 | a new MDI starts with no children, no registered objects, no windows and nothing active; the source always starts in NOTEBOOK mode, and the `mode` parameter stands for `bonobo_mdi_new` followed by `bonobo_mdi_set_mode` on the still empty MDI, which only records the mode |
| BonoboMdi.Mdi.Register | src/bonobo-mdi.c:2362-2366 | the object is appended only if it is not yet registered; the registered list stays duplicate-free |
| BonoboMdi.Mdi.Unregister | src/bonobo-mdi.c:2377-2380 | the object is no longer registered; every other object keeps its registration and its order |
| BonoboMdi.Mdi.AddChild | src/bonobo-mdi.c:1721-1747 | a vetoed child is refused with the list unchanged; an accepted child is appended at the end |
| BonoboMdi.Mdi.FindChild | src/bonobo-mdi.c:2027-2051 | no result exactly when no child has exactly that name; otherwise the first child with the name |
| BonoboMdi.Mdi.SetActiveView | src/bonobo-mdi.c:1309-1341 | no view clears both the active view and the active child; the already-active view changes nothing; another view becomes active with its own child and window; the child-changed signal fires only when the active child really changes, and only with a view change |
| BonoboMdi.Mdi.AppDestroy | src/bonobo-mdi.c:1182-1202 | destroying the active window makes the first remaining window active, or none when no window is left; destroying another window leaves the active one alone |
| BonoboMdi.Mdi.RemoveView | src/bonobo-mdi.c:1601-1696 | a vetoed removal without force changes nothing; otherwise the view loses its window and is no longer active, and outside MODAL mode it is detached from its child; in MODAL mode the child's view list is left unchanged |
| BonoboMdi.Mdi.AddView | src/bonobo-mdi.c:1408-1490 | a child that reuses its view while active is not asked; otherwise the veto decides; a new view is added at the end of the child's views; on the veto path of the reuse case the existing view is dropped; no other child's views change |
| BonoboMdi.Mdi.RemoveChild | src/bonobo-mdi.c:1765-1829 | without force a veto changes nothing; otherwise the first copy of the child leaves the list, and outside MODAL mode it is no longer active and none of its views keeps a window |
| BonoboMdi.Mdi.RemoveAll | src/bonobo-mdi.c:1847-1882 | all or nothing: any veto without force leaves everything unchanged; otherwise no child remains |
| BonoboMdi.RegisterFacts | src/bonobo-mdi.c:2362-2366 | registering keeps the list duplicate-free, puts the object in it, extends the old list, and registering twice equals registering once |
| CommandsFile.IsDuplicatedFile | gedit/gedit-commands-file.c:114-125 | true exactly when the file equals some element of the list |
| CommandsFile.PartitionQueue | gedit/gedit-commands-file.c:148-191 | the files left to load are duplicate-free and are exactly the input files that are not open yet |
| CommandsFile.PartitionOrder | gedit/gedit-commands-file.c:148-191 | the files left to load keep their input order |
| CommandsFile.FirstCreated | gedit/gedit-commands-file.c:129-282 | a tab to jump to exists exactly when some file got a tab, and it is one of those files |
| CommandsFile.FirstCreatedAt | gedit/gedit-commands-file.c:129-282 | the tab jumped to is the first file, in input order, that got one |
| CommandsFile.LoadFileList | gedit/gedit-commands-file.c:129-282 | the files left to load are the partition's queue; the first page is activated only when the first file is already open; the untouched active document is reused only when something is left to load; the count is the number of input positions holding an already-open file, repeats included (the duplicate test as written only looks at the files still to load), plus the pages created; the jump target is the first new tab, unless a page was activated or reused |
| CommandsFile.CreatePages | gedit/gedit-commands-file.c:223-246 | one page is requested per remaining file; the count is the number of pages created; while jump_to is still set, the page created with it is the first file whose page could be created, and there is none otherwise |
| CommandsFile.PartitionHitsAsWritten | gedit/gedit-commands-file.c:148-191 | the count of already-open files counts every open position, repeats included |
| CommandsFile.RepeatedOpenFileCountedTwice | gedit/gedit-commands-file.c:148-191 | an already-open file given twice is counted twice |
| CommandsFile.IntendedPartitionCounts | gedit/gedit-commands-file.c:148-191 | with duplicates skipped on both sides, the files to load are unchanged and the open files are counted once each, with no overlap between the two |
| CommandsFile.DocumentNeedsSaving | gedit/gedit-commands-file.c:923-934 | a document needs saving exactly when it is modified, or local and deleted |
| CommandsFile.FileSave | gedit/gedit-commands-file.c:855-890 | a save is routed to "Save As" exactly for untitled or read-only documents |
| CommandsFile.SaveListCovers | gedit/gedit-commands-file.c:940-1045 | each document in an actionable state is saved in place, or is queued for "Save As" when it needs saving and is untitled or read-only |
| CommandsFile.SaveListSound | gedit/gedit-commands-file.c:940-1045 | only documents in an actionable state are saved or queued, each by the right route |
| CommandsFile.FirstRefused | gedit/gedit-commands-file.c:940-1045 | the stopping point is the first tab in a state the command refuses, or the end when there is none |
| CommandsFile.SaveDocumentsList | gedit/gedit-commands-file.c:940-1045 | a busy window gives up at once; otherwise the documents before the first refused tab are saved in place in input order; a refused tab stops the command with nothing queued; without one the "Save As" queue is installed when no queue is pending |
| CommandsFile.CloseAllBucket | gedit/gedit-commands-file.c:1422-1561 | per tab: the close-all buckets (keep, refuse, close only, save and close, save-as and close) with the state and routing conditions of each |
| CommandsFile.BucketsPartition | gedit/gedit-commands-file.c:1486-1522 | when nothing is refused, every tab lands in exactly one of close-only, save-and-close or save-as-and-close, or is kept |
| CommandsFile.SaveAndCloseAll | gedit/gedit-commands-file.c:1422-1561 | the command refuses exactly when printing or some tab is refused; otherwise the close and save-and-close lists are the buckets in reverse order, and the save-as queue is the save-as bucket in order unless a queue is pending |
| CommandsFile.WindowData.BeginSaveAs | gedit/gedit-commands-file.c:1504-1557 | every page of the save-as bucket is marked as closing; when no queue is pending the bucket becomes the queue and its head, whose mark save_as_and_close clears, is saved first; a pending queue is kept and nothing is started |
| CommandsFile.WindowData.constructor | gedit/gedit-commands-file.c:607-714 | a window starts with an empty "Save As" queue, no closing marks and no closing flags |
| CommandsFile.WindowData.SaveDialogDone | gedit/gedit-commands-file.c:607-714 | the queue is first-in first-out: a response for a page that is not the head changes nothing; otherwise the head is popped and the new head, if any, is the next page, with its closing mark removed |
| CommandsFile.WindowData.ClosePage | gedit/gedit-commands-file.c:1756-1777 | closing one page clears the close-all and quit flags; the page closes exactly when it agrees to |
| CommandsFile.RevertBucket | gedit/gedit-commands-file.c:1138-1254 | which message is chosen: seconds below 55, "a minute" below 75, minute-and-seconds below 110, minutes below an hour, "an hour" below 3900 seconds, hour-and-minutes below two hours, hours beyond |
| CommandsFile.RevertBucketRanges | gedit/gedit-commands-file.c:1138-1254 | for s = max(1, seconds) each message names a number in its own range (seconds below 55, minute-and-seconds below 110, minutes below an hour, an hour and at least five minutes below two hours, hours beyond) and never overstates the elapsed time |
| GeditWindow.ColumnFacts | gedit/gedit-window.c:1113-1157 | the column is at least the line's length, lands on a tab stop after a trailing tab, and equals the length when the line has no tab |
| GeditWindow.TabStop | gedit/gedit-window.c:1141-1156 | a tab advances the column by 1 to tab-size places, onto the next multiple of the tab size |
| GeditWindow.ModUnique | gedit/gedit-window.c:1141-1156 | remainders are unique (helper for the tab-stop proof) |
| GeditWindow.CursorPosition | gedit/gedit-window.c:1113-1157 | the loop reports line row+1 and column Column+1 |
| GeditWindow.Accel | gedit/gedit-window.c:910-1004 | only the first ten tabs get an accelerator, "<alt>" plus one digit, and tab 9 gets "<alt>0" |
| GeditWindow.AccelDistinct | gedit/gedit-window.c:910-1004 | no two of the first ten tabs share an accelerator |
| GeditWindow.MiddleTruncate | gedit/gedit-window.c:1191-1286 | a string within the limit is kept; a longer one is cut to exactly the limit |
| GeditWindow.TitleParts | gedit/gedit-window.c:1191-1286 | names over 100 characters are truncated to 100 and shown without a directory; otherwise the name is kept, the directory is shown when known, and it stays within max(20, 100 - name length) |
| GeditWindow.TitleShape | gedit/gedit-window.c:1191-1286 | the title of an open document is laid out as: a "*" when it is modified, then the (possibly truncated) name, then " [Read Only]" exactly when it is unmodified and read-only (the text after the name starts with " [" in no other case), then " (directory)" exactly when a directory is shown, then " - gedit"; its length is the sum of these parts |
| GeditWindow.TitleTextShape | gedit/gedit-window.c:1245-1279 | the same layout, stated for any name, directory and flags |
| GeditWindow.TitleStarExactly | gedit/gedit-window.c:1245-1279 | for a name that does not itself start with "*", the title starts with "*" if and only if the document is modified |
| GeditWindow.TitleTextStar | gedit/gedit-window.c:1245-1279 | the same, for any name that does not start with "*", directory and flags |
| GeditWindow.SensitivityFor | gedit/gedit-window.c:360-480 | each action's sensitivity as a condition on the tab state and the document's undo, redo and search state |
| GeditWindow.NotNormalIsReadOnly | gedit/gedit-window.c:360-480 | outside the normal state no editing, undo, search or revert action is sensitive |
| GeditWindow.GripAfterStateEvent | gedit/gedit-window.c:134-154 | the resize grip is touched only when maximized or fullscreen changed, and is shown exactly when neither holds |
| GeditWindow.Window.constructor | gedit/gedit-window.c:1954-2063 | a new window has no tab, no active tab, the removing-all-tabs flag lowered and no guard raised; the action group is created sensitive with its actions, and stays so until the first tab is added |
| GeditWindow.Window.TabAdded | gedit/gedit-window.c:1543-1630 | the tab count goes up by one; the action group is sensitive and "move to new window" is sensitive exactly when more than one tab is open; the documents menu is rebuilt once |
| GeditWindow.Window.TabRemoved | gedit/gedit-window.c:1633-1734 | the tab count goes down by one; at zero there is no active tab and the group is insensitive; the documents menu is rebuilt unless all tabs are being removed and some remain |
| GeditWindow.Window.SwitchPage | gedit/gedit-window.c:1291-1340 | switching to the already-active tab changes nothing; otherwise the tab becomes active and its sensitivities are applied |
| GeditWindow.Window.CloseAllTabs | gedit/gedit-window.c:2226-2235 | afterwards no tab is left, the "removing all tabs" flag is clear again, and the documents menu was rebuilt once; the action group is insensitive, except on a window that never had a tab, where nothing was removed and it keeps its initial sensitivity |
| GeditWindow.Window.WindowStateEvent | gedit/gedit-window.c:134-154 | the new window state is recorded, the grip follows the maximize/fullscreen rule, and the event is not consumed |
| GeditWindow.Window.SetStatusbarVisible | gedit/gedit-window.c:2238-2268 | a re-entrant call is ignored; otherwise the status bar becomes visible exactly when the argument is non-zero and the guard is lowered again |
| GeditWindow.Window.SetSidePanelVisible | gedit/gedit-window.c:2304-2349 | a re-entrant call is ignored; otherwise the panel ends shown exactly when it was asked for and was hidden (PanelShownAfter), so a visible panel asked to show is hidden; the toggle action and the preference (when writable) follow the argument, and the guard is lowered again |
| GeditWindow.PanelShownAfterCases | gedit/gedit-window.c:2304-2349 | hiding hides; showing a hidden panel shows it; asking to show a visible panel hides it, as the condition is written |
| TimePlugin.EncodePromptType | plugins/time/gedit-time-plugin.c:366-393 | the prompt type is written as one of the three enum names |
| TimePlugin.DecodePromptType | plugins/time/gedit-time-plugin.c:338-363 | only the two exact names select the selected or the custom format; no value or any other string means "prompt" |
| TimePlugin.PromptTypeRoundTrip | plugins/time/gedit-time-plugin.c:338-393 | reading back what was written gives the same prompt type, and distinct types are written differently |
| TimePlugin.SelectedRow | plugins/time/gedit-time-plugin.c:519-582 | the preselected row is the last format starting with the stored format, or the first row when none does |
| TimePlugin.LastMatch | plugins/time/gedit-time-plugin.c:566-577 | among the first n rows, the last one whose format starts with the stored one, else 0 |
| TimePlugin.CreateModelSelection | plugins/time/gedit-time-plugin.c:519-582 | the loop over the formats preselects exactly that row |
| TimePlugin.RowStart | plugins/time/gedit-time-plugin.c:109-143 | each built-in format starts with '%' and a known conversion letter |
| TimePlugin.SelectionIsStable | plugins/time/gedit-time-plugin.c:519-582 | storing the format of the preselected row preselects the same row again |
| TimePlugin.SelectionExamples | plugins/time/gedit-time-plugin.c:519-582 | an empty format selects the last row, "%x" selects "%x %X", and a format matching nothing falls back to row 0 |
| TimePlugin.GetTime | plugins/time/gedit-time-plugin.c:458-505 | an empty format gives " "; a format that cannot be converted to the locale's encoding, or whose expansion cannot be converted back to UTF-8, gives " "; otherwise the expansion; the result is never empty |
| TimePlugin.InsertedText | plugins/time/gedit-time-plugin.c:1004-1015 | the inserted text is the time followed by exactly one space |
| TimePlugin.PromptTypeFromConfig | plugins/time/gedit-time-plugin.c:147-149 | the saved integer 1 or no saved value means "use selected format", 2 means "use custom format", anything else "prompt" |
| TimePlugin.PromptTypeToConfig | plugins/time/gedit-time-plugin.c:147-149 | each prompt type is saved as its enum value, 0 to 2 |
| TimePlugin.PromptTypeConfigRoundTrip | plugins/time/gedit-time-plugin.c:191-224 | the prompt type saved at finalize is the one read at the next init |
| TimePlugin.Plugin.constructor | plugins/time/gedit-time-plugin.c:191-205 | a plugin starts from the given settings and the prompt type saved by the last session ("use selected format" when none was saved), with no remembered format choices |
| TimePlugin.Plugin.Finalize | plugins/time/gedit-time-plugin.c:208-224 | finalize saves the last prompt type so that the next init reads the same type back |
| TimePlugin.Plugin.GetSelectedFormat | plugins/time/gedit-time-plugin.c:396-408 | an unset selected format defaults to the first built-in format |
| TimePlugin.Plugin.GetCustomFormat | plugins/time/gedit-time-plugin.c:428-440 | an unset custom format defaults to "%d/%m/%Y %H:%M:%S" |
| TimePlugin.Plugin.SetKey | plugins/time/gedit-time-plugin.c:411-457 | a setter writes only a writable key |
| TimePlugin.Plugin.SetPromptType | plugins/time/gedit-time-plugin.c:366-393 | the prompt type is stored under its key, so reading it back gives it when the key is writable |
| TimePlugin.Plugin.PutFacts | plugins/time/gedit-time-plugin.c:366-457 | writing a non-writable key changes nothing; writing a writable key stores the value and leaves every other key alone |
| TimePlugin.Plugin.OkButtonPressed | plugins/time/gedit-time-plugin.c:758-788 | custom checked stores the custom format and "use custom"; list checked with a selection stores that row's format and "use selected"; neither stores "prompt"; list checked without a selection reads an uninitialised value |
| TimePlugin.Plugin.ChooseFormatResponse | plugins/time/gedit-time-plugin.c:1018-1080 | any response but OK changes nothing; OK inserts the chosen time and remembers the list or custom choice, one of the two, keeping the prompt type |
| TimePlugin.Plugin.TimeCb | plugins/time/gedit-time-plugin.c:1083-1145 | "prompt" shows the chooser; the other two types insert the time in the custom or the selected format |
| GeditApp.HelpLinkId | gedit/gedit-app.c:160-172 | the link is "help:" and the name, then "/" and the link id when one is given |
| GeditApp.HelpLinkRoundTrip | gedit/gedit-app.c:160-172 | for a name without '/', splitting the link at its first '/' recovers the name and the link id |
| GeditApp.IndexOfAfter | gedit/gedit-app.c:160-172 | the first '/' of the link is the separator when the name has none (helper) |
| GeditApp.HelpName | gedit/gedit-app.c:175-229 | no name, or the deprecated "gedit.xml", becomes "gedit"; any other name is kept |
| GeditApp.HelpNameIdempotent | gedit/gedit-app.c:175-229 | normalising twice is normalising once, and never yields the deprecated name |
| GeditApp.ShowHelpLink | gedit/gedit-app.c:175-229 | the link shown is "help:" with the normalised name and the link id, and it reads back into that name and link id whenever the name holds no '/' |
| GeditApp.WithBit | gedit/gedit-app.c:1106-1118 | setting makes every bit of the mask argument set, clearing makes them clear, and every other bit is kept |
| GeditApp.WithBitIdempotent | gedit/gedit-app.c:1106-1118 | setting or clearing twice is the same as once |
| GeditApp.WithBitSetClear | gedit/gedit-app.c:1106-1118 | clearing after setting is the same as clearing |
| GeditApp.WithBitNoop | gedit/gedit-app.c:1106-1118 | asking for the value a bit already has leaves the mask unchanged |
| GeditApp.WindowDeleteEvent | gedit/gedit-app.c:449-469 | the event is always stopped; quitting starts exactly when the window is neither saving, printing nor saving a session |
| GeditApp.App.constructor | gedit/gedit-app.c:132-150 | the application starts with no window, no active window and the given lockdown mask |
| GeditApp.App.CreateWindow | gedit/gedit-app.c:507-548 | the new window is added at the front; the first window becomes active, so an active window exists whenever a window does |
| GeditApp.App.FocusIn | gedit/gedit-app.c:436-446 | the focused window becomes the active window |
| GeditApp.App.WindowDestroy | gedit/gedit-app.c:472-504 | the window leaves the list; if it was active the first remaining window, or none, becomes active; the application quits exactly when no window remains and the last-window hook agrees |
| GeditApp.App.LockdownChanged | gedit/gedit-app.c:1080-1092 | every window is told the current mask; nothing else is told anything |
| GeditApp.App.SetLockdown | gedit/gedit-app.c:1095-1103 | the whole mask is replaced and pushed to every window |
| GeditApp.App.SetLockdownBit | gedit/gedit-app.c:1106-1118 | the mask is the old one with the bit set or cleared, pushed to every window |
| GeditApp.AppSlot.constructor | gedit/gedit-app.c:132-150 | before the first construction there is no instance |
| GeditApp.AppSlot.Construct | gedit/gedit-app.c:132-150 | the first construction creates the instance; every later one returns that same instance |
| GeditApp.AppSlot.Finalize | gedit/gedit-app.c:132-150 | once the instance is finalized the weak pointer is cleared |
| PluginsEngine.StrLeTotal | gedit/gedit-plugins-engine.c:410-457 | the strcmp order is total |
| PluginsEngine.StrLeTrans | gedit/gedit-plugins-engine.c:410-457 | the strcmp order is transitive |
| PluginsEngine.InsertPos | gedit/gedit-plugins-engine.c:410-457 | the insertion point is the first position whose string is not below the new one |
| PluginsEngine.InsertSortedFacts | gedit/gedit-plugins-engine.c:410-457 | a sorted insertion adds exactly one copy of the string, keeps the list sorted, and keeps it duplicate-free when the string was absent |
| PluginsEngine.RemoveInserted | gedit/gedit-plugins-engine.c:474-523 | deactivating after activating gives back the old list |
| PluginsEngine.RemoveFirstSorted | gedit/gedit-plugins-engine.c:474-523 | removing a location keeps the list sorted |
| PluginsEngine.Load | gedit/gedit-plugins-engine.c:84-184 | a descriptor loads exactly when the key file reads and has Module, Name, Description, Author and Copyright; a loaded plugin is neither loaded nor active and carries those values |
| PluginsEngine.Accepted | gedit/gedit-plugins-engine.c:187-234 | an entry yields one descriptor exactly when its name ends in ".gedit-plugin" and its key file loads; that descriptor is for the entry, not loaded, and active exactly when its location is in the active list |
| PluginsEngine.Loaded | gedit/gedit-plugins-engine.c:187-234 | only entries ending in ".gedit-plugin" are loaded, and each starts active exactly when its location is in the active list |
| PluginsEngine.AfterListChange | gedit/gedit-plugins-engine.c:629-681 | after a list change a plugin is active exactly when its location is listed and it was active, already loaded or loads now; nothing else about it changes |
| PluginsEngine.ActiveIndices | gedit/gedit-plugins-engine.c:558-582 | the plugins whose UI is updated are exactly the active ones, in list order |
| PluginsEngine.ReactivatedIndicesSpec | gedit/gedit-plugins-engine.c:534-555 | the plugins activated on a new window are exactly the active ones that are or become loaded, in list order |
| PluginsEngine.Reloaded | gedit/gedit-plugins-engine.c:534-555 | reactivation loads a plugin when possible and never changes whether it is active |
| PluginsEngine.Engine.constructor | gedit/gedit-plugins-engine.c:254-288 | the engine starts with no plugin and an empty active list |
| PluginsEngine.Engine.LoadDir | gedit/gedit-plugins-engine.c:187-234 | an unreadable directory changes nothing; otherwise the list is the old list reversed followed by the directory's plugins |
| PluginsEngine.Engine.Init | gedit/gedit-plugins-engine.c:254-288 | without module support nothing loads; otherwise the active list is the stored one; an unreadable directory contributes nothing; when the system directory is readable the plugins are the user directory's in reverse order, then the system directory's, and otherwise the user directory's in listing order |
| PluginsEngine.Engine.Activate | gedit/gedit-plugins-engine.c:410-457 | an active plugin is left alone with success; a plugin that cannot load fails with nothing changed; otherwise it becomes loaded and active and its location is inserted in strcmp order unless already listed; the active list stays sorted, duplicate-free and in step with the flags |
| PluginsEngine.Engine.Deactivate | gedit/gedit-plugins-engine.c:474-523 | always succeeds; an inactive plugin is left alone; otherwise it becomes inactive and the first copy of its location is removed; the list stays sorted and duplicate-free, and in step when locations are distinct |
| PluginsEngine.Engine.ActivePluginsChanged | gedit/gedit-plugins-engine.c:629-681 | an unreadable list changes nothing; otherwise the active list is the new one and each plugin follows it, except that a failed load leaves it inactive; flags and list are then in step |
| PluginsEngine.Engine.ReactivateAll | gedit/gedit-plugins-engine.c:534-555 | each plugin is reloaded when possible, and exactly the active loaded plugins are activated on the window |
| PluginsEngine.Engine.ActivePluginIndices | gedit/gedit-plugins-engine.c:558-582 | the loop touches exactly the active plugins |
| PluginsEngine.Engine.UpdatePluginsUi | gedit/gedit-plugins-engine.c:558-582 | for a new window every plugin is first Reloaded and exactly the reactivated indices are reported, while an old window changes nothing; then exactly the active plugins, in list order and each once, have their UI updated; no plugin's active flag changes |
| PluginsEngine.Engine.IsConfigurable | gedit/gedit-plugins-engine.c:585-595 | only a loaded, active plugin can be configurable, and then its own answer decides |
| LegacyPluginsEngine.HasSoSuffix | src/gedit-plugins-engine.c:106-131 | true exactly when the name ends in ".so" |
| LegacyPluginsEngine.SuffixAgreesOnLongNames | src/gedit-plugins-engine.c:123 | the check as written and the intended one agree on names of three or more characters |
| LegacyPluginsEngine.ShortNameReadsBeforeStart | src/gedit-plugins-engine.c:123 | the two-character name "so" passes the check as written when a '.' lies in memory in front of it, although it does not end in ".so" |
| LegacyPluginsEngine.PluginKeyOutsideBase | src/gedit-plugins-engine.c:241-264 | the settings key of a plugin is not under the "/apps/gedit-2/plugins/" directory: "libtime.so" gives "/apps/gedit-2/pluginslibtime.so" |
| LegacyPluginsEngine.PluginKeyInjective | src/gedit-plugins-engine.c:241-264 | the keys as written still tell plugins apart: equal keys mean equal basenames |
| LegacyPluginsEngine.IntendedPluginKey | src/gedit-plugins-engine.c:241-264 | the intended key lies under the base key plus "/", followed by the basename |
| LegacyPluginsEngine.IntendedPluginKeyInjective | src/gedit-plugins-engine.c:241-264 | distinct basenames get distinct intended keys |
| LegacyPluginsEngine.LoadPlugin | src/gedit-plugins-engine.c:134-284 | loading succeeds exactly when the module opens, exports init, activate and deactivate, init succeeds and the plugin has a name; the configure, save_settings, update_ui and destroy hooks are present exactly when exported |
| LegacyPluginsEngine.InitialState | src/gedit-plugins-engine.c:241-264 | a plugin starts ACTIVATED exactly when its setting, under the key as written (the base key followed directly by the basename), holds true; an unset key means DEACTIVATED |
| LegacyPluginsEngine.LoadedFrom | src/gedit-plugins-engine.c:106-131 | entries are kept by the suffix test as written, which for a short name reads the memory in front of it; at most one plugin per entry is loaded; the plugins loaded from a directory get consecutive handles and their initial states from the settings |
| LegacyPluginsEngine.LoadedFromLongNames | src/gedit-plugins-engine.c:120-128 | when every entry name has three characters or more, every plugin loaded has a basename ending in ".so", whatever lies in memory in front of the names |
| LegacyPluginsEngine.Engine.constructor | src/gedit-plugins-engine.c:64-82 | the engine starts with no plugin and the given settings |
| LegacyPluginsEngine.Engine.Load | src/gedit-plugins-engine.c:134-284 | a plugin that loads is appended with its initial state, read under the key as written; a failed load changes nothing |
| LegacyPluginsEngine.Engine.LoadDirEntry | src/gedit-plugins-engine.c:120-128 | one pass of the directory loop appends what the entry contributes to the directory's plugins, and nothing else |
| LegacyPluginsEngine.Engine.LoadDir | src/gedit-plugins-engine.c:106-131 | an unreadable directory changes nothing; otherwise the entries that pass the suffix test as written and load are appended in listing order with fresh handles |
| LegacyPluginsEngine.Engine.Init | src/gedit-plugins-engine.c:64-103 | without module support nothing loads; otherwise the user directory's plugins (none without a home directory or when it is unreadable), then the system directory's (none when it is unreadable), with handles numbered on from the user ones; both directories are filtered by the suffix test as written |
| LegacyPluginsEngine.Engine.FindPluginInfo | src/gedit-plugins-engine.c:350-369 | the first info whose plugin matches, or none when no plugin matches |
| LegacyPluginsEngine.Engine.Activate | src/gedit-plugins-engine.c:373-397 | the state becomes ACTIVATED only when the plugin is known and its activate hook succeeds; on failure nothing changes |
| LegacyPluginsEngine.Engine.Deactivate | src/gedit-plugins-engine.c:400-424 | the state becomes DEACTIVATED only when the plugin is known and its deactivate hook succeeds; on failure nothing changes |
| LegacyPluginsEngine.Engine.ReactivateAll | src/gedit-plugins-engine.c:427-455 | every ACTIVATED plugin whose activate fails becomes DEACTIVATED; every other plugin is unchanged |
| LegacyPluginsEngine.Engine.UiUpdated | src/gedit-plugins-engine.c:458-498 | exactly the ACTIVATED plugins get their UI updated, in list order |
| LegacyPluginsEngine.Engine.UpdatePluginsUi | src/gedit-plugins-engine.c:458-498 | a new window first reactivates every plugin: an ACTIVATED plugin whose activate hook fails becomes DEACTIVATED and every other plugin is unchanged; an old window changes nothing; then exactly the ACTIVATED plugins that have the hook get their UI updated |
| LegacyPluginsEngine.Engine.SaveSettings | src/gedit-plugins-engine.c:287-338 | each plugin's state is written under its key as written, and exactly the plugins with a save-settings hook run it |
| LegacyPluginsEngine.SaveThenLoad | src/gedit-plugins-engine.c:241-338 | with distinct basenames, a plugin loaded from the saved settings starts in the state that was saved; the keys as written keep distinct basenames apart |
| LegacyPluginsEngine.SavedKeepsOthers | src/gedit-plugins-engine.c:287-338 | saving touches no key other than the plugins' keys as written |
| LegacyPluginsEngine.IsConfigurable | src/gedit-plugins-engine.c:501-508 | configurable exactly when the plugin has a configure hook |
| Overlay.Int32Of | gedit/gedit-overlay.c:202-265 | the 32-bit result is in range, agrees with the value modulo 2^32, and is the value itself when it fits |
| Overlay.Place | gedit/gedit-overlay.c:240-261 | the size is the request; north-east puts the right edge at W - o; north-west puts the left edge at o; south-west puts the bottom edge at H; any other position gives (0, 0); all in 32-bit arithmetic |
| Overlay.Placements | gedit/gedit-overlay.c:226-264 | every child but the main widget is placed, and only those |
| Overlay.PlacementsUsePlace | gedit/gedit-overlay.c:226-264 | each placed child gets the allocation its own position, requisition and offset give |
| Overlay.GeditOverlay.constructor | gedit/gedit-overlay.c:427-453 | an overlay starts with no children and no main widget, and with the relative widget given to `gedit_overlay_new` (none for NULL) |
| Overlay.GeditOverlay.SetMainWidget | gedit/gedit-overlay.c:87-110 | the main widget is appended to the children and recorded |
| Overlay.GeditOverlay.GetOverlayChild | gedit/gedit-overlay.c:268-308 | the first floating child that is the widget or wraps it; none exactly when no child but the main widget is or wraps it |
| Overlay.GeditOverlay.OverlayAdd | gedit/gedit-overlay.c:311-333 | a widget already present, directly or wrapped, is not added again; otherwise it is appended at the end, wrapped in a new floating child unless it is one |
| Overlay.GeditOverlay.Remove | gedit/gedit-overlay.c:336-356 | the first matching child is unlinked; the others keep their order, and the list stays duplicate-free |
| Overlay.GeditOverlay.PreferredExtent | gedit/gedit-overlay.c:148-199 | the preferred minimum and natural sizes are the maxima over visible children, or 0 when no child is visible |
| Overlay.GeditOverlay.SizeAllocate | gedit/gedit-overlay.c:202-265 | the main widget gets (0, 0, width, height); the other children are placed against the relative widget's allocation when one is set, else the overlay's own |

## Left out

- BonoboMdi.Mdi.constructor: takes the mode as a parameter; `bonobo_mdi_set_mode` is modelled only on an MDI that has no children and no windows yet, where it records the mode and nothing else.
- Widget placement and re-parenting in the MDI (`book_*`, drag and drop, `set_mode` on an MDI that holds views, `app_create`/`app_clone`), and its Bonobo UI menus: toolkit plumbing.
- Every dialog, file chooser, message box and status-bar message: the model keeps only the decisions they lead to, with user answers as parameters.
- GConf, GSettings, GIO and GKeyFile: settings are a `map` (plus a set of writable keys), key files are an oracle from file name to an optional map of keys, and file queries (read-only, deleted, local) are fields of the document.
- Dynamic loading (GModule and `dlopen` symbols): a module is a record saying whether it opens, which symbols it exports and whether its init succeeds; plugin hooks return oracle results.
- `strftime` and locale conversion in `get_time`: rendering is an oracle; only the empty-format and failed-conversion cases are modelled.
- `is_in_viewport`, the idle close while saving, and `gedit_window_destroy`: floating point, X screen queries and the event loop.
- The paths built by `g_build_filename`: a directory entry stands for both the file and its basename. So in PluginsEngine, key files are looked up by the bare entry name. A user entry and a system entry with the same name read one key file, where the source reads each directory's own file.
- The order of GtkApplication's window list is taken to be newest first. GeditApp.App.FocusIn does not move the focused window to the front. So GeditApp.App.WindowDestroy picks the newest remaining window, where GTK keeps the most recently focused one first.
- BonoboMdi.Mdi.RemoveView and BonoboMdi.Mdi.RemoveChild: the child's own `remove_view` hook is taken to be a first-match list removal, and the page a notebook shows next is an oracle.
- BonoboMdi.Mdi.AddView: where the new view is placed on screen is not modelled.
- GeditWindow.MiddleTruncate: the gedit-utils.c helper is not part of this model; the stand-in keeps its length promise, not its exact text.
- PluginsEngine.Engine.Init: requires an empty plugin list, as the function's own `g_return_val_if_fail` check on `gedit_plugins_list` does; calling it twice is not modelled.
- GeditWindow.Window.TabRemoved: requires a tab to exist, as the function's own precondition check does; the per-tab "closing" marks are left out.
- GeditWindow.Window.WindowStateEvent: the window-state flags use the GDK bit values; the header declaring them is not part of this model.
- GeditApp.WithBit: a lockdown mask (a guint) is modelled as the set of positions of its set bits, so the bitwise or and and-not become set union and difference.
- GeditApp.WindowDeleteEvent: the saving, printing and session-saving states are three booleans; the header declaring the bit values is not part of this model.
- TimePlugin.GetTime: is modelled only for formats whose expansion is not empty (and ChooseFormatResponse and TimeCb only for such formats); for a format that expands to nothing, such as "%p" in a locale without AM/PM names, strftime returns 0 on every buffer size and get_time never returns.
- TimePlugin.PromptTypeFromConfig: a saved integer outside the enum is read as "prompt"; the source keeps the raw integer, which it only compares with USE_CUSTOM_FORMAT, and writes it back unchanged at finalize, where the model writes 0.
- TimePlugin.Plugin.OkButtonPressed: the uninitialised value read when the list is checked with nothing selected is reported, not modelled; the selected-format key is left alone.
- PluginsEngine.Engine.ActivePluginsChanged: the write of the active list back to GConf, and the re-entrant notification it triggers, are left out.
- PluginsEngine.Engine.Deactivate: keeps the active list in step only when plugin locations are distinct, as duplicated locations would share one list entry.
- PluginsEngine.Engine.UpdatePluginsUi and LegacyPluginsEngine.Engine.UpdatePluginsUi: the per-window activate and update calls are reported as index lists, not performed.
- Plugins are identified by their index (key-file engine) or handle (GModule engine), not by pointer.
- LegacyPluginsEngine.LoadedFrom: the platform module suffix is taken to be "so". The memory in front of each entry name, which the suffix test reads for names shorter than three characters, is an oracle parameter.
- Overlay.GeditOverlay.SetMainWidget: the main-widget property is set once, on an overlay that has none; `gedit_overlay_new` is the constructor followed by this call.
- Overlay.Place: the child positions other than the three corners are collapsed into one case, which places at (0, 0).
- `gedit_overlay_realize` and `gedit_overlay_forall`: GDK window creation and a callback walk.

## Findings

| source | as written | input that shows it | evidently intended | confidence | as-written member | corrected member |
|---|---|---|---|---|---|---|
| gedit/gedit-commands-file.c:148-191 | an already-open file given twice is counted twice, because the duplicate test only looks at the files still to load | the files [7, 7] with 7 already open give a count of 2 | each distinct file is counted once | not executed | CommandsFile.RepeatedOpenFileCountedTwice | CommandsFile.IntendedPartitionCounts |
| src/gedit-plugins-engine.c:123 | the suffix test reads the three characters before the end of the name, even when the name is shorter than ".so" | the entry "so" (after a '.' in memory) passes as a module | only names ending in ".so" pass | not executed | LegacyPluginsEngine.ShortNameReadsBeforeStart | LegacyPluginsEngine.HasSoSuffix |
| src/gedit-plugins-engine.c:241-264 | the settings key is the base key followed directly by the basename, with no '/' between them | "libtime.so" gives "/apps/gedit-2/pluginslibtime.so" | "/apps/gedit-2/plugins/libtime.so", a key under the plugins directory | not executed | LegacyPluginsEngine.PluginKeyOutsideBase | LegacyPluginsEngine.IntendedPluginKey |
