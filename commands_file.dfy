/** Decision logic of the file commands (gedit/gedit-commands-file.c):
    which of the requested files get loaded, which documents are saved,
    queued for "Save As" or closed, the "Save As" queue kept on the
    window, and the wording bucket of the revert confirmation.

    Files and pages are opaque identifiers; two files are the same file
    exactly when their identifiers are equal (g_file_equal).  What the
    toolkit reports about a page (its state, whether the document is
    untitled, read-only, modified, local, deleted) is carried in a `Doc`
    record. */
module CommandsFile {
  import opened Wrappers

  type FileId = nat
  type PageId = nat

  // ---------------------------------------------------------------------
  // is_duplicated_file

  /** is_duplicated_file: a walk over the list comparing each element. */
  function IsDuplicatedFile(files: seq<FileId>, file: FileId): (r: bool)
    ensures r <==> exists i :: 0 <= i < |files| && files[i] == file
  {
    if files == [] then false
    else files[0] == file || IsDuplicatedFile(files[1..], file)
  }

  // ---------------------------------------------------------------------
  // load_file_list

  /** The first loop of load_file_list, as written: a file is skipped
      when it is already among the files to load; otherwise an open file
      is counted (its page re-used) and a file not yet open is queued.
      The result is the queue in input order and the number of open
      files counted.  Stated on the prefix so that it follows the loop. */
  function Partition(files: seq<FileId>, open: set<FileId>): (seq<FileId>, nat)
  {
    if files == [] then ([], 0)
    else
      var (queue, hits) := Partition(files[..|files| - 1], open);
      var f := files[|files| - 1];
      if IsDuplicatedFile(queue, f) then (queue, hits)
      else if f in open then (queue, hits + 1)
      else (queue + [f], hits)
  }

  /** The queue lists every file that is not yet open exactly once, in
      the order of first appearance, and nothing else. */
  lemma {:induction false} PartitionQueue(files: seq<FileId>, open: set<FileId>)
    ensures NoDup(Partition(files, open).0)
    ensures forall f :: f in Partition(files, open).0 <==> f in files && f !in open
  {
    if files != [] {
      var init := files[..|files| - 1];
      PartitionQueue(init, open);
      assert files == init + [files[|files| - 1]];
    }
  }

  /** The queue keeps the input order: a file that first appears before
      another one comes before it in the queue. */
  lemma {:induction false} PartitionOrder(files: seq<FileId>, open: set<FileId>, i: nat, j: nat)
    requires i < j < |Partition(files, open).0|
    ensures exists a, b :: 0 <= a < b < |files|
              && files[a] == Partition(files, open).0[i]
              && files[b] == Partition(files, open).0[j]
  {
    var init := files[..|files| - 1];
    var q := Partition(init, open).0;
    var f := files[|files| - 1];
    if j < |q| {
      PartitionOrder(init, open, i, j);
      var a, b :| 0 <= a < b < |init| && init[a] == q[i] && init[b] == q[j];
      assert files[a] == init[a] && files[b] == init[b];
    } else {
      // the last element was just queued
      PartitionQueue(init, open);
      assert q[i] in init;
      var a :| 0 <= a < |init| && init[a] == q[i];
      assert files[a] == init[a];
      assert files[|files| - 1] == Partition(files, open).0[j];
    }
  }

  /** How the pages of the remaining files came out: the untouched
      active document was re-used for the first one, and which of the
      others got a new page. */
  datatype LoadResult = LoadResult(
    activatedFirst: bool,     // the first input file was open: its page became active
    queue: seq<FileId>,       // files not yet open, de-duplicated, in input order
    reusedActive: bool,       // the first queued file went into the untouched active document
    jumpTo: Option<FileId>,   // the file whose new page was created with jump_to set
    count: nat)               // the value returned

  /** Number of files in `fs` for which a page could be created. */
  function Created(fs: seq<FileId>, created: FileId -> bool): nat
  {
    if fs == [] then 0
    else Created(fs[..|fs| - 1], created) + (if created(fs[|fs| - 1]) then 1 else 0)
  }

  /** The first file in `fs` for which a page could be created. */
  function FirstCreated(fs: seq<FileId>, created: FileId -> bool): (r: Option<FileId>)
    ensures r.Some? <==> exists i :: 0 <= i < |fs| && created(fs[i])
    ensures r.Some? ==> exists i :: 0 <= i < |fs| && fs[i] == r.value && created(fs[i])
                         && forall j :: 0 <= j < i ==> !created(fs[j])
  {
    if fs == [] then None
    else if created(fs[0]) then Some(fs[0])
    else
      var r := FirstCreated(fs[1..], created);
      assert forall i :: 1 <= i < |fs| ==> fs[i] == fs[1..][i - 1];
      r
  }

  /** load_file_list.  `open` is the set of files that already have a
      page in the window, `activeUntouched` whether the active page holds
      an untouched document in the normal state, and `created` whether
      gedit_window_create_page_from_uri returns a page for a file.  The
      duplicate test looks only at the files queued so far, so an open
      file is counted each time it is named (PartitionHitsAsWritten). */
  method LoadFileList(files: seq<FileId>, open: set<FileId>, activeUntouched: bool,
                      created: FileId -> bool) returns (r: LoadResult)
    ensures r.queue == Partition(files, open).0
    ensures r.activatedFirst <==> files != [] && files[0] in open
    ensures r.reusedActive <==> r.queue != [] && activeUntouched
    ensures r.count == |OpenPositions(files, open)|
              + (if r.queue == [] then 0
                 else if activeUntouched then 1 + Created(r.queue[1..], created)
                 else Created(r.queue, created))
    ensures r.jumpTo == (if r.activatedFirst || r.reusedActive || r.queue == [] then None
                         else FirstCreated(r.queue, created))
  {
    var queue: seq<FileId> := [];
    var count: nat := 0;
    var jump := true;
    var activatedFirst := false;
    var i := 0;
    while i < |files|
      invariant 0 <= i <= |files|
      invariant (queue, count) == Partition(files[..i], open)
      invariant activatedFirst <==> i > 0 && files[0] in open
      invariant jump == !activatedFirst
    {
      assert files[..i + 1][..i] == files[..i];
      assert i == 0 ==> queue == [];
      if !IsDuplicatedFile(queue, files[i]) {
        if files[i] in open {
          if i == 0 {
            activatedFirst := true;
            jump := false;
          }
          count := count + 1;
        } else {
          queue := queue + [files[i]];
        }
      }
      i := i + 1;
    }
    assert files[..i] == files;
    PartitionHitsAsWritten(files, open);
    if queue == [] {
      return LoadResult(activatedFirst, queue, false, None, count);
    }
    var rest := queue;
    var reused := false;
    if activeUntouched {
      rest := queue[1..];
      jump := false;
      reused := true;
      count := count + 1;
    }
    var jumpTo, pages := CreatePages(rest, created, jump);
    r := LoadResult(activatedFirst, queue, reused, jumpTo, count + pages);
  }

  /** The second loop of load_file_list: a page is requested for each
      remaining file, the first one with jump_to set while `jump` still
      holds; a page that is created clears jump_to.  Returns the file
      whose page was created with jump_to set and how many pages were
      created. */
  method CreatePages(rest: seq<FileId>, created: FileId -> bool, jump: bool)
    returns (jumpTo: Option<FileId>, n: nat)
    ensures n == Created(rest, created)
    ensures jumpTo == (if jump then FirstCreated(rest, created) else None)
  {
    jumpTo := None;
    n := 0;
    var jumping := jump;
    var k := 0;
    while k < |rest|
      invariant 0 <= k <= |rest|
      invariant n == Created(rest[..k], created)
      invariant !jump ==> !jumping && jumpTo == None
      invariant jumping ==> jumpTo == None && forall j :: 0 <= j < k ==> !created(rest[j])
      invariant jump && !jumping ==> jumpTo == FirstCreated(rest, created)
    {
      assert rest[..k + 1][..k] == rest[..k];
      if created(rest[k]) {
        if jumping {
          jumpTo := Some(rest[k]);
          FirstCreatedAt(rest, created, k);
        }
        jumping := false;
        n := n + 1;
      }
      k := k + 1;
    }
    assert rest[..k] == rest;
    if jumping {
      assert FirstCreated(rest, created) == None;
    }
  }

  /** The first created file is found at `k` when none before it is. */
  lemma FirstCreatedAt(fs: seq<FileId>, created: FileId -> bool, k: nat)
    requires k < |fs| && created(fs[k])
    requires forall j :: 0 <= j < k ==> !created(fs[j])
    ensures FirstCreated(fs, created) == Some(fs[k])
  {
    var r := FirstCreated(fs, created);
    var i :| 0 <= i < |fs| && fs[i] == r.value && created(fs[i])
             && forall j :: 0 <= j < i ==> !created(fs[j]);
    assert i == k;
  }

  /** The count of the re-used pages, as written, is the number of input
      POSITIONS holding an open file: a repeated open file is counted
      every time, because the duplicate test only looks at the queue. */
  lemma {:induction false} PartitionHitsAsWritten(files: seq<FileId>, open: set<FileId>)
    ensures Partition(files, open).1 == |OpenPositions(files, open)|
  {
    if files != [] {
      var init := files[..|files| - 1];
      PartitionHitsAsWritten(init, open);
      PartitionQueue(init, open);
      assert files == init + [files[|files| - 1]];
    }
  }

  /** The input files that are already open, position by position. */
  function OpenPositions(files: seq<FileId>, open: set<FileId>): seq<FileId>
  {
    if files == [] then []
    else OpenPositions(files[..|files| - 1], open)
         + (if files[|files| - 1] in open then [files[|files| - 1]] else [])
  }

  /** The input that shows it: one open file named twice is reported as
      two loaded files although the window shows a single page for it. */
  lemma RepeatedOpenFileCountedTwice()
    ensures Partition([7, 7], {7}).1 == 2
  {
    assert [7, 7][..1] == [7];
    assert [7][..0] == [];
  }

  /** The evidently intended partition: a file is skipped when it was
      seen anywhere earlier in the input, open or not.  The queue is
      as before; the second component lists each open file once. */
  function IntendedPartition(files: seq<FileId>, open: set<FileId>): (seq<FileId>, seq<FileId>)
  {
    if files == [] then ([], [])
    else
      var init := files[..|files| - 1];
      var (queue, reused) := IntendedPartition(init, open);
      var f := files[|files| - 1];
      if f in init then (queue, reused)
      else if f in open then (queue, reused + [f])
      else (queue + [f], reused)
  }

  /** With the intended test every distinct file is counted at most once:
      the re-used pages are exactly the distinct open input files, the
      queue is the same as written, and the two never share a file. */
  lemma {:induction false} IntendedPartitionCounts(files: seq<FileId>, open: set<FileId>)
    ensures IntendedPartition(files, open).0 == Partition(files, open).0
    ensures NoDup(IntendedPartition(files, open).1)
    ensures forall f :: f in IntendedPartition(files, open).1 <==> f in files && f in open
    ensures forall f :: f in IntendedPartition(files, open).1 ==> f !in IntendedPartition(files, open).0
  {
    if files != [] {
      var init := files[..|files| - 1];
      IntendedPartitionCounts(init, open);
      PartitionQueue(init, open);
      assert files == init + [files[|files| - 1]];
    }
  }

  // ---------------------------------------------------------------------
  // Documents and their states

  /** GeditViewContainerState. */
  datatype PageState =
    | Normal | Loading | Reverting | Saving | Printing | PrintPreviewing
    | ShowingPrintPreview | GenericNotEditable | LoadingError
    | RevertingError | SavingError | GenericError | Closing

  /** What gedit asks about the document of a page. */
  datatype Doc = Doc(page: PageId, state: PageState, untitled: bool, readonly: bool,
                     modified: bool, local: bool, deleted: bool)

  /** document_needs_saving. */
  function DocumentNeedsSaving(d: Doc): (r: bool)
    ensures r <==> d.modified || (d.local && d.deleted)
  {
    if d.modified then true
    else if d.local && d.deleted then true
    else false
  }

  /** What file_save does with a page: documents without a usable
      location go through "Save As". */
  datatype SaveRoute = SaveAs | SaveInPlace

  function FileSave(d: Doc): (r: SaveRoute)
    ensures r == SaveAs <==> d.untitled || d.readonly
  {
    if d.untitled || d.readonly then SaveAs else SaveInPlace
  }

  // ---------------------------------------------------------------------
  // _gedit_cmd_file_save_documents_list

  /** States in which save_documents_list gives up (g_return_if_fail). */
  predicate SaveListRefuses(s: PageState)
  {
    s == Printing || s == PrintPreviewing || s == Closing
  }

  /** States in which save_documents_list acts on a document. */
  predicate SaveListActs(s: PageState)
  {
    s == Normal || s == ShowingPrintPreview || s == GenericNotEditable
  }

  /** Pages saved in place, in input order. */
  function SavedInPlace(docs: seq<Doc>): seq<PageId>
  {
    if docs == [] then []
    else
      var d := docs[|docs| - 1];
      SavedInPlace(docs[..|docs| - 1])
        + (if SaveListActs(d.state) && FileSave(d) == SaveInPlace then [d.page] else [])
  }

  /** Pages queued for "Save As", in input order. */
  function QueuedForSaveAs(docs: seq<Doc>): seq<PageId>
  {
    if docs == [] then []
    else
      var d := docs[|docs| - 1];
      QueuedForSaveAs(docs[..|docs| - 1])
        + (if SaveListActs(d.state) && FileSave(d) == SaveAs && DocumentNeedsSaving(d)
           then [d.page] else [])
  }

  /** One more document adds at most its own page: at the end of the
      in-place list, or in front of the reversed "Save As" list. */
  lemma SaveListStep(docs: seq<Doc>, i: nat)
    requires i < |docs|
    ensures SavedInPlace(docs[..i + 1]) == SavedInPlace(docs[..i])
              + (if SaveListActs(docs[i].state) && FileSave(docs[i]) == SaveInPlace
                 then [docs[i].page] else [])
    ensures Reverse(QueuedForSaveAs(docs[..i + 1]))
            == (if SaveListActs(docs[i].state) && FileSave(docs[i]) == SaveAs
                   && DocumentNeedsSaving(docs[i]) then [docs[i].page] else [])
               + Reverse(QueuedForSaveAs(docs[..i]))
  {
    assert docs[..i + 1][..i] == docs[..i];
    var q := QueuedForSaveAs(docs[..i]);
    if SaveListActs(docs[i].state) && FileSave(docs[i]) == SaveAs && DocumentNeedsSaving(docs[i]) {
      ReverseSnoc(q, docs[i].page);
    } else {
      assert q + [] == q;
    }
  }

  /** Every document save_documents_list acts on that needs saving lands
      in one of the two lists, and a document goes into one list only. */
  lemma {:induction false} SaveListCovers(docs: seq<Doc>, i: nat)
    requires i < |docs|
    requires SaveListActs(docs[i].state)
    ensures FileSave(docs[i]) == SaveInPlace ==> docs[i].page in SavedInPlace(docs)
    ensures FileSave(docs[i]) == SaveAs && DocumentNeedsSaving(docs[i]) ==>
              docs[i].page in QueuedForSaveAs(docs)
  {
    var init := docs[..|docs| - 1];
    if i < |docs| - 1 {
      assert docs[i] == init[i];
      SaveListCovers(init, i);
    }
  }

  /** Only documents in an acted-on state reach either list, and a
      document reaches the queue only when it cannot be saved in place. */
  lemma {:induction false} SaveListSound(docs: seq<Doc>, p: PageId)
    ensures p in SavedInPlace(docs) ==>
              exists i :: 0 <= i < |docs| && docs[i].page == p && SaveListActs(docs[i].state)
                          && FileSave(docs[i]) == SaveInPlace
    ensures p in QueuedForSaveAs(docs) ==>
              exists i :: 0 <= i < |docs| && docs[i].page == p && SaveListActs(docs[i].state)
                          && FileSave(docs[i]) == SaveAs && DocumentNeedsSaving(docs[i])
  {
    if docs != [] {
      var init := docs[..|docs| - 1];
      SaveListSound(init, p);
      if p in SavedInPlace(init) {
        var i :| 0 <= i < |init| && init[i].page == p && SaveListActs(init[i].state)
                 && FileSave(init[i]) == SaveInPlace;
        assert docs[i] == init[i];
      }
      if p in QueuedForSaveAs(init) {
        var i :| 0 <= i < |init| && init[i].page == p && SaveListActs(init[i].state)
                 && FileSave(init[i]) == SaveAs && DocumentNeedsSaving(init[i]);
        assert docs[i] == init[i];
      }
    }
  }

  /** Index of the first document in a refusing state, or |docs|. */
  function FirstRefused(docs: seq<Doc>): (k: nat)
    ensures k <= |docs|
    ensures k < |docs| ==> SaveListRefuses(docs[k].state)
    ensures forall j :: 0 <= j < k ==> !SaveListRefuses(docs[j].state)
  {
    if docs == [] then 0
    else if SaveListRefuses(docs[0].state) then 0
    else
      var k := FirstRefused(docs[1..]);
      assert forall j :: 1 <= j < |docs| ==> docs[j] == docs[1..][j - 1];
      1 + k
  }

  /** _gedit_cmd_file_save_documents_list.  `windowBusy` is the window
      state PRINTING or SAVING_SESSION, `queuePending` whether the window
      already holds a "Save As" queue.  Returns the pages saved in place
      (in the order the saves were started), the queue installed on the
      window (empty when none is) and whether the call gave up midway. */
  method SaveDocumentsList(windowBusy: bool, docs: seq<Doc>, queuePending: bool)
    returns (saved: seq<PageId>, installed: seq<PageId>, gaveUp: bool)
    ensures windowBusy ==> gaveUp && saved == [] && installed == []
    ensures !windowBusy ==> saved == SavedInPlace(docs[..FirstRefused(docs)])
    ensures !windowBusy && FirstRefused(docs) < |docs| ==> gaveUp && installed == []
    ensures !windowBusy && FirstRefused(docs) == |docs| ==>
              installed == (if queuePending then [] else QueuedForSaveAs(docs))
              && gaveUp == (queuePending && QueuedForSaveAs(docs) != [])
  {
    if windowBusy {
      return [], [], true;
    }
    saved := [];
    // built by prepending and reversed afterwards
    var revQueue: seq<PageId> := [];
    var i := 0;
    ghost var k := FirstRefused(docs);
    while i < |docs|
      invariant 0 <= i <= |docs| && i <= k
      invariant saved == SavedInPlace(docs[..i])
      invariant revQueue == Reverse(QueuedForSaveAs(docs[..i]))
    {
      var d := docs[i];
      if SaveListRefuses(d.state) {
        return saved, [], true;
      }
      SaveListStep(docs, i);
      if SaveListActs(d.state) {
        if d.untitled || d.readonly {
          if DocumentNeedsSaving(d) {
            revQueue := [d.page] + revQueue;
          }
        } else {
          saved := saved + [d.page];
        }
      }
      i := i + 1;
    }
    assert docs[..i] == docs;
    ReverseReverse(QueuedForSaveAs(docs));
    var queue := Reverse(revQueue);
    if queue != [] && queuePending {
      return saved, [], true;
    }
    installed := queue;
    gaveUp := false;
  }

  // ---------------------------------------------------------------------
  // save_and_close_all_documents

  /** Where save_and_close_all_documents puts a page.  `mustSave` is
      whether the page's document is in the list of documents to save. */
  datatype Bucket = Refuse | Keep | CloseOnly | SaveAndClose | SaveAsAndClose

  function CloseAllBucket(d: Doc, mustSave: bool): (b: Bucket)
    ensures b == Keep <==>
              d.state in {SavingError, GenericError, RevertingError}
    ensures b == Refuse <==>
              d.state in {Printing, PrintPreviewing, Closing, Saving}
              || (mustSave && SaveListActs(d.state) && !DocumentNeedsSaving(d))
    ensures b == CloseOnly ==> !mustSave || d.state in {Loading, LoadingError, Reverting}
    ensures b in {SaveAndClose, SaveAsAndClose} ==> mustSave && DocumentNeedsSaving(d)
    ensures b == SaveAsAndClose ==> FileSave(d) == SaveAs
    ensures b == SaveAndClose ==> FileSave(d) == SaveInPlace
  {
    if d.state == Printing || d.state == PrintPreviewing || d.state == Closing || d.state == Saving then Refuse
    else if d.state == SavingError || d.state == GenericError || d.state == RevertingError then Keep
    else if mustSave && d.state != Loading && d.state != LoadingError && d.state != Reverting then
      if !DocumentNeedsSaving(d) then Refuse
      else if d.untitled || d.readonly then SaveAsAndClose
      else SaveAndClose
    else CloseOnly
  }

  /** The pages of `docs` put in bucket `b`, in notebook order. */
  function InBucket(docs: seq<Doc>, toSave: set<PageId>, b: Bucket): seq<PageId>
  {
    if docs == [] then []
    else
      var d := docs[|docs| - 1];
      InBucket(docs[..|docs| - 1], toSave, b)
        + (if CloseAllBucket(d, d.page in toSave) == b then [d.page] else [])
  }

  /** One more page puts that page, and nothing else, in front of the
      reversed list of its own bucket. */
  lemma ReversedBucketStep(docs: seq<Doc>, i: nat, toSave: set<PageId>, b: Bucket)
    requires i < |docs|
    ensures Reverse(InBucket(docs[..i + 1], toSave, b))
            == (if CloseAllBucket(docs[i], docs[i].page in toSave) == b then [docs[i].page] else [])
               + Reverse(InBucket(docs[..i], toSave, b))
  {
    assert docs[..i + 1][..i] == docs[..i];
    var before := InBucket(docs[..i], toSave, b);
    if CloseAllBucket(docs[i], docs[i].page in toSave) == b {
      ReverseSnoc(before, docs[i].page);
    } else {
      assert before + [] == before;
    }
  }

  /** One iteration of the loop of save_and_close_all_documents: the
      page is prepended to the list of its bucket, and each list stays its
      bucket reversed. */
  lemma CloseAllStep(docs: seq<Doc>, i: nat, toSave: set<PageId>,
                     before: (seq<PageId>, seq<PageId>, seq<PageId>),
                     after: (seq<PageId>, seq<PageId>, seq<PageId>))
    requires i < |docs|
    requires before.0 == Reverse(InBucket(docs[..i], toSave, CloseOnly))
    requires before.1 == Reverse(InBucket(docs[..i], toSave, SaveAndClose))
    requires before.2 == Reverse(InBucket(docs[..i], toSave, SaveAsAndClose))
    requires var b := CloseAllBucket(docs[i], docs[i].page in toSave);
             after == (if b == CloseOnly then [docs[i].page] + before.0 else before.0,
                       if b == SaveAndClose then [docs[i].page] + before.1 else before.1,
                       if b == SaveAsAndClose then [docs[i].page] + before.2 else before.2)
    ensures after.0 == Reverse(InBucket(docs[..i + 1], toSave, CloseOnly))
    ensures after.1 == Reverse(InBucket(docs[..i + 1], toSave, SaveAndClose))
    ensures after.2 == Reverse(InBucket(docs[..i + 1], toSave, SaveAsAndClose))
  {
    ReversedBucketStep(docs, i, toSave, CloseOnly);
    ReversedBucketStep(docs, i, toSave, SaveAndClose);
    ReversedBucketStep(docs, i, toSave, SaveAsAndClose);
    var b := CloseAllBucket(docs[i], docs[i].page in toSave);
    if b != CloseOnly { assert [] + before.0 == before.0; }
    if b != SaveAndClose { assert [] + before.1 == before.1; }
    if b != SaveAsAndClose { assert [] + before.2 == before.2; }
  }

  /** Every page goes in exactly one bucket: the three action lists and
      the pages left open together hold each page once. */
  lemma {:induction false} BucketsPartition(docs: seq<Doc>, toSave: set<PageId>)
    requires forall i :: 0 <= i < |docs| ==> CloseAllBucket(docs[i], docs[i].page in toSave) != Refuse
    ensures multiset(InBucket(docs, toSave, CloseOnly))
            + multiset(InBucket(docs, toSave, SaveAndClose))
            + multiset(InBucket(docs, toSave, SaveAsAndClose))
            + multiset(InBucket(docs, toSave, Keep))
            == multiset(Pages(docs))
  {
    if docs != [] {
      var init := docs[..|docs| - 1];
      assert forall i :: 0 <= i < |init| ==> init[i] == docs[i];
      BucketsPartition(init, toSave);
    }
  }

  function Pages(docs: seq<Doc>): seq<PageId>
  {
    if docs == [] then [] else Pages(docs[..|docs| - 1]) + [docs[|docs| - 1].page]
  }

  /** The outcome of save_and_close_all_documents: the order in which
      pages are closed, saved-and-closed, and the "Save As" queue
      installed on the window. */
  datatype CloseAllResult =
    | Refused
    | Done(closed: seq<PageId>, savedAndClosed: seq<PageId>, saveAsQueue: seq<PageId>)

  /** save_and_close_all_documents.  `printing` is the window state
      PRINTING.  The close and save-and-close lists are built by
      prepending and never reversed, so they run in reverse notebook
      order; the "Save As" list is reversed and runs in notebook order.
      When the window already holds a "Save As" queue the new one is not
      installed (the closes and saves have happened already). */
  method SaveAndCloseAll(printing: bool, docs: seq<Doc>, toSave: set<PageId>, queuePending: bool)
    returns (r: CloseAllResult)
    ensures r.Refused? <==>
              (printing || exists i :: 0 <= i < |docs| && CloseAllBucket(docs[i], docs[i].page in toSave) == Refuse)
    ensures r.Done? ==> r.closed == Reverse(InBucket(docs, toSave, CloseOnly))
    ensures r.Done? ==> r.savedAndClosed == Reverse(InBucket(docs, toSave, SaveAndClose))
    ensures r.Done? ==> r.saveAsQueue == (if queuePending then [] else InBucket(docs, toSave, SaveAsAndClose))
  {
    if printing {
      return Refused;
    }
    var close: seq<PageId> := [];
    var saveAndClose: seq<PageId> := [];
    var saveAs: seq<PageId> := [];
    var i := 0;
    while i < |docs|
      invariant 0 <= i <= |docs|
      invariant forall j :: 0 <= j < i ==> CloseAllBucket(docs[j], docs[j].page in toSave) != Refuse
      invariant close == Reverse(InBucket(docs[..i], toSave, CloseOnly))
      invariant saveAndClose == Reverse(InBucket(docs[..i], toSave, SaveAndClose))
      invariant saveAs == Reverse(InBucket(docs[..i], toSave, SaveAsAndClose))
    {
      var d := docs[i];
      var b := CloseAllBucket(d, d.page in toSave);
      if b == Refuse {
        return Refused;
      }
      ghost var before := (close, saveAndClose, saveAs);
      if b == CloseOnly {
        close := [d.page] + close;
      } else if b == SaveAndClose {
        saveAndClose := [d.page] + saveAndClose;
      } else if b == SaveAsAndClose {
        saveAs := [d.page] + saveAs;
      }
      CloseAllStep(docs, i, toSave, before, (close, saveAndClose, saveAs));
      i := i + 1;
    }
    assert docs[..i] == docs;
    ReverseReverse(InBucket(docs, toSave, SaveAsAndClose));
    var queue := Reverse(saveAs);
    r := Done(close, saveAndClose, if queuePending then [] else queue);
  }

  // ---------------------------------------------------------------------
  // The "Save As" queue and the closing flags kept on the window

  /** The data gedit attaches to the window and its pages with
      g_object_set_data: the list of pages still to "Save As"
      (GEDIT_LIST_OF_PAGES_TO_SAVE_AS; empty stands for NULL), the pages
      marked GEDIT_IS_CLOSING_PAGE and the three closing flags. */
  class WindowData {
    var saveAsQueue: seq<PageId>
    var closingPages: set<PageId>
    var closingAll: bool
    var quitting: bool
    var quittingAll: bool

    constructor ()
      ensures saveAsQueue == [] && closingPages == {}
      ensures !closingAll && !quitting && !quittingAll
    {
      saveAsQueue := [];
      closingPages := {};
      closingAll, quitting, quittingAll := false, false, false;
    }

    /** The end of save_and_close_all_documents: every page of the
        save-as bucket (`pages`, in tab order) is marked as closing; then,
        unless a queue
        is already pending (g_return_if_fail), the bucket becomes the
        queue and its head is handed to save_as_and_close, which takes
        the head's mark off.  Returns the page to "Save As" first. */
    method BeginSaveAs(pages: seq<PageId>) returns (first: Option<PageId>)
      modifies this`saveAsQueue, this`closingPages
      ensures pages == [] || old(saveAsQueue) != [] ==>
                first == None && saveAsQueue == old(saveAsQueue)
                && closingPages == old(closingPages) + (set p | p in pages)
      ensures pages != [] && old(saveAsQueue) == [] ==>
                first == Some(pages[0]) && saveAsQueue == pages
                && closingPages == (old(closingPages) + (set p | p in pages)) - {pages[0]}
    {
      closingPages := closingPages + (set p | p in pages);
      if pages == [] || saveAsQueue != [] {
        return None;
      }
      saveAsQueue := pages;
      first := Some(pages[0]);
      closingPages := closingPages - {pages[0]};
    }

    /** The tail of save_dialog_response_cb, run whatever the answer to
        the dialog for `page` was.  Without a queue nothing happens; a
        queue whose head is not `page` is left alone
        (g_return_if_fail).  Otherwise the head is removed and the new
        head, if any, is returned as the next page to "Save As"; its
        closing mark is taken off (its state is then traced instead). */
    method SaveDialogDone(page: PageId) returns (next: Option<PageId>)
      modifies this`saveAsQueue, this`closingPages
      ensures old(saveAsQueue) == [] || old(saveAsQueue)[0] != page ==>
                next == None && saveAsQueue == old(saveAsQueue)
                && closingPages == old(closingPages)
      ensures old(saveAsQueue) != [] && old(saveAsQueue)[0] == page ==>
                saveAsQueue == old(saveAsQueue)[1..]
                && next == (if saveAsQueue == [] then None else Some(saveAsQueue[0]))
                && closingPages == (if saveAsQueue == [] then old(closingPages)
                                    else old(closingPages) - {saveAsQueue[0]})
    {
      if saveAsQueue == [] || saveAsQueue[0] != page {
        return None;
      }
      saveAsQueue := saveAsQueue[1..];
      if saveAsQueue == [] {
        return None;
      }
      next := Some(saveAsQueue[0]);
      closingPages := closingPages - {saveAsQueue[0]};
    }

    /** _gedit_cmd_file_close_page: the three closing flags are cleared,
        then the page is closed when page_can_close agrees. */
    method ClosePage(canClose: bool) returns (closed: bool)
      modifies this`closingAll, this`quitting, this`quittingAll
      ensures !closingAll && !quitting && !quittingAll
      ensures closed == canClose
    {
      closingAll, quitting, quittingAll := false, false, false;
      closed := canClose;
    }
  }

  // ---------------------------------------------------------------------
  // revert_dialog

  /** The secondary message of the revert confirmation. */
  datatype RevertMessage =
    | LastSeconds(seconds: int)
    | LastMinute
    | LastMinuteAnd(seconds: int)
    | LastMinutes(minutes: int)
    | LastHour
    | LastHourAnd(minutes: int)
    | LastHours(hours: int)

  /** The bucketing of revert_dialog; the elapsed time is taken as at
      least one second. */
  function RevertBucket(elapsed: int): (m: RevertMessage)
    ensures m.LastSeconds? <==> elapsed < 55
    ensures m.LastMinute? <==> 55 <= elapsed < 75
    ensures m.LastMinuteAnd? <==> 75 <= elapsed < 110
    ensures m.LastMinutes? <==> 110 <= elapsed < 3600
    ensures m.LastHour? <==> 3600 <= elapsed < 3900
    ensures m.LastHourAnd? <==> 3900 <= elapsed < 7200
    ensures m.LastHours? <==> 7200 <= elapsed
  {
    var s := if elapsed < 1 then 1 else elapsed;
    if s < 55 then LastSeconds(s)
    else if s < 75 then LastMinute
    else if s < 110 then LastMinuteAnd(s - 60)
    else if s < 3600 then LastMinutes(s / 60)
    else if s < 7200 then
      var minutes := (s - 3600) / 60;
      if minutes < 5 then LastHour else LastHourAnd(minutes)
    else LastHours(s / 3600)
  }

  /** Each message names a number in its own range, and the number it
      names never overstates the elapsed time (s = max(1, elapsed)). */
  lemma RevertBucketRanges(elapsed: int)
    ensures var s := if elapsed < 1 then 1 else elapsed;
            match RevertBucket(elapsed)
            case LastSeconds(n) => 1 <= n <= 54 && n == s
            case LastMinute => 55 <= s < 75
            case LastMinuteAnd(n) => 15 <= n <= 49 && 60 + n == s
            case LastMinutes(m) => 1 <= m <= 59 && 60 * m <= s < 60 * m + 60
            case LastHour => 3600 <= s < 3900
            case LastHourAnd(m) => 5 <= m <= 59 && 3600 + 60 * m <= s < 3660 + 60 * m
            case LastHours(h) => 2 <= h && 3600 * h <= s < 3600 * h + 3600
  {
  }
}
