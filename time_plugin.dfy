/** The configuration logic of the "Insert Date/Time" plugin
    (plugins/time/gedit-time-plugin.c): how the prompt type is stored as
    a string, the defaults of unset keys, which row of the format list
    is selected, what the two dialogs write back, and what is inserted.

    The configuration database is a map from key to string together with
    the set of keys that may be written.  strftime, the clock and the
    locale conversion are one parameter, `render`, that gives the text a
    non-empty format expands to, or None when the format cannot be
    converted to the locale's encoding or the expansion cannot be
    converted back to UTF-8. */
module TimePlugin {
  import opened Wrappers

  const TimeBaseKey: string := "/apps/gedit-2/plugins/time"
  const PromptTypeKey: string := TimeBaseKey + "/prompt_type"
  const SelectedFormatKey: string := TimeBaseKey + "/selected_format"
  const CustomFormatKey: string := TimeBaseKey + "/custom_format"

  const DefaultCustomFormat: string := "%d/%m/%Y %H:%M:%S"

  /** The formats offered in the list (the glibc build, which adds the
      RFC 2822 style entry at the end). */
  const Formats: seq<string> := [
    "%c",
    "%x",
    "%X",
    "%x %X",
    "%Y-%m-%d %H:%M:%S",
    "%a %b %d %H:%M:%S %Z %Y",
    "%a %b %d %H:%M:%S %Y",
    "%a %d %b %Y %H:%M:%S %Z",
    "%a %d %b %Y %H:%M:%S",
    "%d/%m/%Y",
    "%d/%m/%y",
    "%D",
    "%A %d %B %Y",
    "%A %B %d %Y",
    "%Y-%m-%d",
    "%d %B %Y",
    "%B %d, %Y",
    "%A %b %d",
    "%H:%M:%S",
    "%H:%M",
    "%I:%M:%S %p",
    "%I:%M %p",
    "%H.%M.%S",
    "%H.%M",
    "%I.%M.%S %p",
    "%I.%M %p",
    "%d/%m/%Y %H:%M:%S",
    "%d/%m/%y %H:%M:%S",
    "%a, %d %b %Y %H:%M:%S %z"
  ]

  // ---------------------------------------------------------------------
  // The prompt type and its string form

  /** GeditTimePluginPromptType. */
  datatype PromptType = PromptForFormat | UseSelectedFormat | UseCustomFormat

  /** set_prompt_type: the name written for each value. */
  function EncodePromptType(p: PromptType): (s: string)
    ensures s in {"PROMPT_FOR_FORMAT", "USE_SELECTED_FORMAT", "USE_CUSTOM_FORMAT"}
  {
    match p
    case UseSelectedFormat => "USE_SELECTED_FORMAT"
    case UseCustomFormat => "USE_CUSTOM_FORMAT"
    case PromptForFormat => "PROMPT_FOR_FORMAT"
  }

  /** get_prompt_type: an unset key or any unknown string means "prompt". */
  function DecodePromptType(s: Option<string>): (p: PromptType)
    ensures p == UseSelectedFormat <==> s == Some("USE_SELECTED_FORMAT")
    ensures p == UseCustomFormat <==> s == Some("USE_CUSTOM_FORMAT")
  {
    if s.None? then PromptForFormat
    else if s.value == "USE_SELECTED_FORMAT" then UseSelectedFormat
    else if s.value == "USE_CUSTOM_FORMAT" then UseCustomFormat
    else PromptForFormat
  }

  /** Reading back what was written gives the same prompt type, and the
      encoding tells the three values apart. */
  lemma PromptTypeRoundTrip(p: PromptType, q: PromptType)
    ensures DecodePromptType(Some(EncodePromptType(p))) == p
    ensures EncodePromptType(p) == EncodePromptType(q) ==> p == q
  {
  }

  /** The integer under which the last prompt type is kept between
      sessions: the enum's value. */
  function PromptTypeToConfig(p: PromptType): (n: int)
    ensures 0 <= n <= 2
  {
    match p
    case PromptForFormat => 0
    case UseSelectedFormat => 1
    case UseCustomFormat => 2
  }

  /** plugin init: the saved integer, 1 (USE_SELECTED_FORMAT) when nothing
      was saved.  An integer outside the enum is read as "prompt". */
  function PromptTypeFromConfig(saved: Option<int>): (p: PromptType)
    ensures saved.None? ==> p == UseSelectedFormat
    ensures saved.Some? ==> (p == UseCustomFormat <==> saved.value == 2)
    ensures saved.Some? ==> (p == UseSelectedFormat <==> saved.value == 1)
  {
    if saved.None? then UseSelectedFormat
    else if saved.value == 1 then UseSelectedFormat
    else if saved.value == 2 then UseCustomFormat
    else PromptForFormat
  }

  /** What finalize saves is read back unchanged by the next init. */
  lemma PromptTypeConfigRoundTrip(p: PromptType)
    ensures PromptTypeFromConfig(Some(PromptTypeToConfig(p))) == p
  {
  }

  // ---------------------------------------------------------------------
  // Row selection in create_model

  /** The rows whose format starts with the stored one (strncmp over the
      stored format's length). */
  predicate RowMatches(sf: string, i: nat)
    requires i < |Formats|
  {
    sf <= Formats[i]
  }

  /** The row left selected: the list is in browse mode, so each match
      replaces the previous selection and the LAST matching row wins;
      without a match the first row is selected. */
  function SelectedRow(sf: string): (r: nat)
    ensures r < |Formats|
    ensures (exists i :: 0 <= i < |Formats| && RowMatches(sf, i)) ==>
              RowMatches(sf, r) && forall j :: r < j < |Formats| ==> !RowMatches(sf, j)
    ensures (forall i :: 0 <= i < |Formats| ==> !RowMatches(sf, i)) ==> r == 0
  {
    LastMatch(sf, |Formats|)
  }

  /** The last row before `n` matching `sf`, or 0. */
  function LastMatch(sf: string, n: nat): (r: nat)
    requires n <= |Formats|
    ensures n > 0 ==> r < n
    ensures n == 0 ==> r == 0
    ensures (exists i :: 0 <= i < n && RowMatches(sf, i)) ==>
              RowMatches(sf, r) && forall j :: r < j < n ==> !RowMatches(sf, j)
    ensures (forall i :: 0 <= i < n ==> !RowMatches(sf, i)) ==> r == 0
  {
    if n == 0 then 0
    else if RowMatches(sf, n - 1) then n - 1
    else LastMatch(sf, n - 1)
  }

  /** create_model's loop over the format list, keeping the selection. */
  method CreateModelSelection(sf: string) returns (row: nat)
    ensures row == SelectedRow(sf)
  {
    var selected: Option<nat> := None;
    var i := 0;
    while i < |Formats|
      invariant 0 <= i <= |Formats|
      invariant selected.None? <==> forall j :: 0 <= j < i ==> !RowMatches(sf, j)
      invariant selected.Some? ==> selected.value == LastMatch(sf, i)
    {
      assert LastMatch(sf, i + 1) == if RowMatches(sf, i) then i else LastMatch(sf, i);
      if RowMatches(sf, i) {
        selected := Some(i);
      }
      i := i + 1;
    }
    // fall back to the first row
    row := if selected.Some? then selected.value else 0;
  }

  /** The first two characters of every row: '%' and a conversion
      letter. */
  function RowHead(j: nat): char
  {
    if j == 0 then 'c'
    else if j == 1 then 'x'
    else if j == 2 then 'X'
    else if j == 3 then 'x'
    else if j == 4 then 'Y'
    else if j == 5 then 'a'
    else if j == 6 then 'a'
    else if j == 7 then 'a'
    else if j == 8 then 'a'
    else if j == 9 then 'd'
    else if j == 10 then 'd'
    else if j == 11 then 'D'
    else if j == 12 then 'A'
    else if j == 13 then 'A'
    else if j == 14 then 'Y'
    else if j == 15 then 'd'
    else if j == 16 then 'B'
    else if j == 17 then 'A'
    else if j == 18 then 'H'
    else if j == 19 then 'H'
    else if j == 20 then 'I'
    else if j == 21 then 'I'
    else if j == 22 then 'H'
    else if j == 23 then 'H'
    else if j == 24 then 'I'
    else if j == 25 then 'I'
    else if j == 26 then 'd'
    else if j == 27 then 'd'
    else 'a'
  }

  lemma RowStart(j: nat)
    requires j < |Formats|
    ensures |Formats[j]| >= 2 && Formats[j][0] == '%' && Formats[j][1] == RowHead(j)
  {
    if j == 0 {
    } else if j == 1 {
    } else if j == 2 {
    } else if j == 3 {
    } else if j == 4 {
    } else if j == 5 {
    } else if j == 6 {
    } else if j == 7 {
    } else if j == 8 {
    } else if j == 9 {
    } else if j == 10 {
    } else if j == 11 {
    } else if j == 12 {
    } else if j == 13 {
    } else if j == 14 {
    } else if j == 15 {
    } else if j == 16 {
    } else if j == 17 {
    } else if j == 18 {
    } else if j == 19 {
    } else if j == 20 {
    } else if j == 21 {
    } else if j == 22 {
    } else if j == 23 {
    } else if j == 24 {
    } else if j == 25 {
    } else if j == 26 {
    } else if j == 27 {
    } else if j == 28 {
    }
  }

  /** Storing the selected row's format and opening the list again
      selects the same row. */
  lemma {:induction false} SelectionIsStable(sf: string)
    ensures SelectedRow(Formats[SelectedRow(sf)]) == SelectedRow(sf)
  {
    var r := SelectedRow(sf);
    var f := Formats[r];
    assert RowMatches(f, r);
    if exists i :: 0 <= i < |Formats| && RowMatches(sf, i) {
      // any later row starting with f would start with sf as well
      forall j | r < j < |Formats| ensures !RowMatches(f, j) {
        assert !RowMatches(sf, j);
        assert sf <= f;
      }
    } else {
      assert r == 0 && f == "%c";
      forall j | 0 < j < |Formats| ensures !RowMatches(f, j) {
        RowStart(j);
      }
    }
  }

  /** Three consequences of the rule: the empty string matches every row
      so the last one is selected, "%x" selects "%x %X", and an unknown
      format falls back to the first row. */
  lemma SelectionExamples()
    ensures SelectedRow("") == |Formats| - 1
    ensures SelectedRow("%x") == 3
    ensures SelectedRow("%Q") == 0
  {
    assert RowMatches("", |Formats| - 1);
    assert RowMatches("%x", 3);
    forall j | 3 < j < |Formats| ensures !RowMatches("%x", j) {
      RowStart(j);
    }
    forall j | 0 <= j < |Formats| ensures !RowMatches("%Q", j) {
      RowStart(j);
    }
  }

  // ---------------------------------------------------------------------
  // get_time and real_insert_time

  /** get_time returns: strftime reports an empty expansion the same way
      as a buffer that is too small, so get_time only returns for a format
      that expands to some text. */
  predicate GetTimeReturns(format: string, render: string -> Option<string>)
  {
    format != [] && render(format).Some? ==> render(format).value != []
  }

  /** get_time: an empty format, or a failed conversion to or from the
      locale's encoding, gives a single space; otherwise the expansion,
      which is never empty. */
  function GetTime(format: string, render: string -> Option<string>): (r: string)
    requires GetTimeReturns(format, render)
    ensures r != []
    ensures format == [] ==> r == " "
    ensures format != [] && render(format).None? ==> r == " "
    ensures format != [] && render(format).Some? ==> r == render(format).value
  {
    if format == [] then " "
    else if render(format).None? then " "
    else render(format).value
  }

  /** real_insert_time: the text is followed by one space. */
  function InsertedText(time: string): (r: string)
    ensures |r| == |time| + 1 && r[..|time|] == time && r[|time|] == ' '
  {
    time + " "
  }

  // ---------------------------------------------------------------------
  // The plugin and its configuration

  datatype Response = Help | Ok | Cancel | OtherResponse

  /** What time_cb does: insert a text, or open the format chooser. */
  datatype TimeAction = Insert(text: string) | ShowChooser

  class Plugin {
    /** The configuration database seen through the plugin's client. */
    var store: map<string, string>
    var writable: set<string>
    /** The choices remembered from the chooser dialog. */
    var lastPromptType: PromptType
    var lastSelectedFormat: Option<string>
    var lastCustomFormat: Option<string>

    /** gedit_time_plugin_init: `saved` is the integer kept from the last
        session, if any. */
    constructor (store: map<string, string>, writable: set<string>, saved: Option<int>)
      ensures this.store == store && this.writable == writable
      ensures lastPromptType == PromptTypeFromConfig(saved)
      ensures saved.None? ==> lastPromptType == UseSelectedFormat
      ensures lastSelectedFormat == None && lastCustomFormat == None
    {
      this.store := store;
      this.writable := writable;
      lastPromptType := PromptTypeFromConfig(saved);
      lastSelectedFormat := None;
      lastCustomFormat := None;
    }

    /** gedit_time_plugin_finalize: the integer saved for the next
        session. */
    method Finalize() returns (saved: int)
      ensures saved == PromptTypeToConfig(lastPromptType)
      ensures PromptTypeFromConfig(Some(saved)) == lastPromptType
    {
      saved := PromptTypeToConfig(lastPromptType);
      PromptTypeConfigRoundTrip(lastPromptType);
    }

    function GetPromptType(): PromptType
      reads this
    {
      DecodePromptType(Lookup(store, PromptTypeKey))
    }

    /** get_selected_format: unset means the first format, "%c". */
    function GetSelectedFormat(): (f: string)
      reads this
      ensures SelectedFormatKey !in store ==> f == Formats[0]
      ensures SelectedFormatKey in store ==> f == store[SelectedFormatKey]
    {
      if SelectedFormatKey in store then store[SelectedFormatKey] else Formats[0]
    }

    /** get_custom_format: unset means "%d/%m/%Y %H:%M:%S". */
    function GetCustomFormat(): (f: string)
      reads this
      ensures CustomFormatKey !in store ==> f == DefaultCustomFormat
      ensures CustomFormatKey in store ==> f == store[CustomFormatKey]
    {
      if CustomFormatKey in store then store[CustomFormatKey] else DefaultCustomFormat
    }

    /** Every setter writes its key only when the key is writable. */
    method SetKey(key: string, value: string)
      modifies this`store
      ensures store == Put(old(store), key, value)
    {
      if key !in writable {
        return;
      }
      store := store[key := value];
    }

    /** set_prompt_type. */
    method SetPromptType(p: PromptType)
      modifies this`store
      ensures store == Put(old(store), PromptTypeKey, EncodePromptType(p))
      ensures PromptTypeKey in writable ==> GetPromptType() == p
    {
      PromptTypeRoundTrip(p, p);
      SetKey(PromptTypeKey, EncodePromptType(p));
    }

    /** ok_button_pressed of the configuration dialog.  `selection` is
        the index of the selected row (get_format_from_list); with no row
        selected the source reads an uninitialised variable and indexes
        the format table with it: the model reports that case in
        `readUninitialised` and leaves the selected-format key alone. */
    method OkButtonPressed(customChecked: bool, listChecked: bool, selection: Option<nat>,
                           customText: string) returns (readUninitialised: bool)
      requires selection.Some? ==> selection.value < |Formats|
      modifies this`store
      ensures readUninitialised <==> !customChecked && listChecked && selection.None?
      ensures customChecked ==>
                store == Put(Put(old(store), PromptTypeKey, EncodePromptType(UseCustomFormat)),
                             CustomFormatKey, customText)
      ensures !customChecked && listChecked && selection.Some? ==>
                store == Put(Put(old(store), PromptTypeKey, EncodePromptType(UseSelectedFormat)),
                             SelectedFormatKey, Formats[selection.value])
      ensures !customChecked && listChecked && selection.None? ==>
                store == Put(old(store), PromptTypeKey, EncodePromptType(UseSelectedFormat))
      ensures !customChecked && !listChecked ==>
                store == Put(old(store), PromptTypeKey, EncodePromptType(PromptForFormat))
    {
      readUninitialised := false;
      if customChecked {
        SetPromptType(UseCustomFormat);
        SetKey(CustomFormatKey, customText);
      } else if listChecked {
        SetPromptType(UseSelectedFormat);
        if selection.Some? {
          SetKey(SelectedFormatKey, Formats[selection.value]);
        } else {
          readUninitialised := true;
        }
      } else {
        SetPromptType(PromptForFormat);
      }
    }

    /** The store after one write through a setter. */
    function Put(s: map<string, string>, key: string, value: string): map<string, string>
      reads this
    {
      if key in writable then s[key := value] else s
    }

    /** A write to a key that is not writable is dropped; a write to a
        writable key is read back and touches no other key. */
    lemma PutFacts(s: map<string, string>, key: string, value: string, other: string)
      ensures key !in writable ==> Put(s, key, value) == s
      ensures key in writable ==> key in Put(s, key, value) && Put(s, key, value)[key] == value
      ensures other != key ==> (other in Put(s, key, value) <==> other in s)
      ensures other != key && other in s ==> Put(s, key, value)[other] == s[other]
    {
    }

    /** choose_format_dialog_response_cb.  On OK the chosen text is
        inserted, the choice is remembered and the matching format key
        written; the stored prompt type is left alone.  Returns the text
        inserted, if any. */
    method ChooseFormatResponse(response: Response, useList: bool, selected: nat,
                                customText: string, render: string -> Option<string>)
      returns (inserted: Option<string>)
      requires selected < |Formats|
      requires response == Ok && useList ==> GetTimeReturns(Formats[selected], render)
      requires response == Ok && !useList ==> GetTimeReturns(customText, render)
      modifies this`store, this`lastPromptType, this`lastSelectedFormat, this`lastCustomFormat
      ensures response != Ok ==> inserted == None && unchanged(this)
      ensures response == Ok && useList ==>
                (inserted == Some(InsertedText(GetTime(Formats[selected], render)))
                 && lastPromptType == UseSelectedFormat
                 && lastSelectedFormat == Some(Formats[selected])
                 && lastCustomFormat == old(lastCustomFormat)
                 && store == Put(old(store), SelectedFormatKey, Formats[selected]))
      ensures response == Ok && !useList ==>
                (inserted == Some(InsertedText(GetTime(customText, render)))
                 && lastPromptType == UseCustomFormat
                 && lastCustomFormat == Some(customText)
                 && lastSelectedFormat == old(lastSelectedFormat)
                 && store == Put(old(store), CustomFormatKey, customText))
      ensures response == Ok ==> GetPromptType() == old(GetPromptType())
    {
      if response != Ok {
        return None;
      }
      var time;
      if useList {
        time := GetTime(Formats[selected], render);
        lastSelectedFormat := Some(Formats[selected]);
        lastPromptType := UseSelectedFormat;
        SetKey(SelectedFormatKey, Formats[selected]);
      } else {
        time := GetTime(customText, render);
        lastCustomFormat := Some(customText);
        lastPromptType := UseCustomFormat;
        SetKey(CustomFormatKey, customText);
      }
      inserted := Some(InsertedText(time));
    }

    /** time_cb: the stored prompt type decides between inserting with
        the custom format, inserting with the selected format, and asking. */
    method TimeCb(render: string -> Option<string>) returns (a: TimeAction)
      requires GetPromptType() == UseCustomFormat ==> GetTimeReturns(GetCustomFormat(), render)
      requires GetPromptType() == UseSelectedFormat ==> GetTimeReturns(GetSelectedFormat(), render)
      ensures GetPromptType() == UseCustomFormat ==> a == Insert(InsertedText(GetTime(GetCustomFormat(), render)))
      ensures GetPromptType() == UseSelectedFormat ==> a == Insert(InsertedText(GetTime(GetSelectedFormat(), render)))
      ensures GetPromptType() == PromptForFormat <==> a == ShowChooser
    {
      var p := GetPromptType();
      if p == UseCustomFormat {
        a := Insert(InsertedText(GetTime(GetCustomFormat(), render)));
      } else if p == UseSelectedFormat {
        a := Insert(InsertedText(GetTime(GetSelectedFormat(), render)));
      } else {
        a := ShowChooser;
      }
    }
  }
}
