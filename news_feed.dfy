/** The news feed component's state and its event handlers. Each handler is a
    method that updates the fields the component's setters update; results
    of the document store, the blob store and the browser (snapshots,
    download URLs, success or failure of a write, a video's duration, the
    answer to a confirmation dialog, the clock) arrive as parameters. */
module NewsFeed {
  import opened Wrappers
  import opened NewsModel

  /** A submit suspended at its `await`: the payload built when it started,
      the file being uploaded and the record being edited, all captured at
      the click. */
  datatype PendingSubmit = PendingSubmit(payload: Payload, file: Option<File>, editingId: Option<string>)

  /** How the upload awaited at the suspended submit settles. */
  datatype UploadResult =
    | Uploaded(url: string)  // the upload completed and its download URL was fetched
    | UploadRejected         // the upload errored or was cancelled: the error observer fired
    | UrlRejected            // the upload completed but fetching its download URL was rejected

  /** How a suspended submit ends. */
  datatype SubmitOutcome =
    | UploadFailed           // the upload was rejected or cancelled: nothing written
    | WriteFailed(w: Write)  // the write was attempted and threw
    | Saved(w: Write)        // the write went through and the modal closed

  class NewsClient {
    var items: seq<NewsItem>
    var user: Option<User>

    var modalOpen: bool
    var editingId: Option<string>
    var title: string
    var body: string
    var draftFile: Option<File>

    var uploadPct: Option<int>
    var uploadTask: Option<File>
    var uploading: bool

    var pageLimit: nat
    var hasMore: bool

    var alertVisible: bool
    var keywords: seq<string>

    /** The continuation of a submit in flight. */
    var pending: Option<PendingSubmit>

    /** What holds between events. */
    ghost predicate Valid()
      reads this
    {
      WindowValid() && DraftValid() && |keywords| == 3
    }

    /** The visible window: whole pages, at most `pageLimit` items, newest first. */
    ghost predicate WindowValid()
      reads this`pageLimit, this`items
    {
      && FirstLoad <= pageLimit && (pageLimit - FirstLoad) % PageSize == 0
      && |items| <= pageLimit
      && NewestFirst(items)
    }

    /** Only accepted files are attached, and the upload state is set exactly
        while a submit is pending. */
    ghost predicate DraftValid()
      reads this`draftFile, this`uploading, this`pending, this`uploadPct, this`uploadTask
    {
      && (draftFile.Some? ==> IsAllowedType(draftFile.value.mimeType))
      && (uploading <==> pending.Some?)
      && (pending.Some? && pending.value.file.Some? ==> IsAllowedType(pending.value.file.value.mimeType))
      && (uploadPct.Some? ==> uploading)
      && (uploadTask.Some? ==> uploading && uploadTask == pending.value.file)
    }

    /** The first render. */
    constructor ()
      ensures Valid()
      ensures items == [] && user.None? && !modalOpen && editingId.None?
      ensures title == "" && body == "" && draftFile.None?
      ensures uploadPct.None? && uploadTask.None? && !uploading && pending.None?
      ensures pageLimit == FirstLoad && hasMore && !alertVisible
      ensures keywords == ["", "", ""]
    {
      items := [];
      user := None;
      modalOpen := false;
      editingId := None;
      title := "";
      body := "";
      draftFile := None;
      uploadPct := None;
      uploadTask := None;
      uploading := false;
      pageLimit := FirstLoad;
      hasMore := true;
      alertVisible := false;
      keywords := ["", "", ""];
      pending := None;
    }

    /** The auth listener reporting a sign-in or sign-out. */
    method SetUser(u: Option<User>)
      requires Valid()
      modifies this`user
      ensures Valid() && user == u
    {
      user := u;
    }

    /** The live-query callback. `docs` is the query result: newest first and
        at most `pageLimit + 1` long. The visible list is replaced, not merged. */
    method ApplySnapshot(docs: seq<NewsItem>)
      requires Valid()
      requires |docs| <= pageLimit + 1 && NewestFirst(docs)
      modifies this`items, this`hasMore
      ensures Valid()
      ensures hasMore == (|docs| > pageLimit)
      ensures items == Take(docs, pageLimit)
    {
      hasMore := |docs| > pageLimit;
      items := Take(docs, pageLimit);
      TakeNewestFirst(docs, pageLimit);
    }

    /** Load more: widen the window by one page, unless there is nothing more
        or an upload is in progress. */
    method FetchNextPage()
      requires Valid()
      modifies this`pageLimit
      ensures Valid()
      ensures !old(hasMore) || old(uploading) ==> pageLimit == old(pageLimit)
      ensures old(hasMore) && !old(uploading) ==> pageLimit == old(pageLimit) + PageSize
    {
      if !hasMore || uploading {
        return;
      }
      pageLimit := pageLimit + PageSize;
    }

    /** The file picker. For a video `duration` is what the decoder reports
        once its metadata loads (`None`: it never does). */
    method SelectFile(file: File, duration: Option<real>) returns (verdict: FileVerdict)
      requires Valid()
      modifies this`draftFile
      ensures Valid()
      ensures verdict == CheckFile(file.mimeType, duration)
      ensures draftFile == if verdict == Accepted then Some(file) else old(draftFile)
    {
      verdict := CheckFile(file.mimeType, duration);
      if verdict == Accepted {
        draftFile := Some(file);
      }
    }

    /** The "clear" button next to the selected file name. */
    method ClearFile()
      requires Valid()
      modifies this`draftFile
      ensures Valid() && draftFile.None?
    {
      draftFile := None;
    }

    /** Typing in the title field. */
    method EditTitle(s: string)
      requires Valid()
      modifies this`title
      ensures Valid() && title == s
    {
      title := s;
    }

    /** Typing in the body field. */
    method EditBody(s: string)
      requires Valid()
      modifies this`body
      ensures Valid() && body == s
    {
      body := s;
    }

    /** Opens the modal for a new item with an empty form. */
    method OpenAdd()
      requires Valid()
      modifies this`editingId, this`title, this`body, this`draftFile, this`modalOpen
      ensures Valid()
      ensures editingId.None? && title == "" && body == "" && draftFile.None? && modalOpen
    {
      editingId := None;
      title := "";
      body := "";
      draftFile := None;
      modalOpen := true;
    }

    /** Opens the modal on an existing item, its text loaded and no file. */
    method OpenEdit(n: NewsItem)
      requires Valid()
      modifies this`editingId, this`title, this`body, this`draftFile, this`modalOpen
      ensures Valid()
      ensures editingId == Some(n.id) && title == n.title && body == n.body
      ensures draftFile.None? && modalOpen
    {
      editingId := Some(n.id);
      title := n.title;
      body := n.body;
      draftFile := None;
      modalOpen := true;
    }

    /** Closes the modal and clears the form, the alert and the keywords. */
    method CloseModal()
      requires Valid()
      modifies this`modalOpen, this`editingId, this`title, this`body, this`draftFile,
               this`alertVisible, this`keywords
      ensures Valid()
      ensures !modalOpen && editingId.None? && title == "" && body == ""
      ensures draftFile.None? && !alertVisible && keywords == ["", "", ""]
    {
      modalOpen := false;
      editingId := None;
      title := "";
      body := "";
      draftFile := None;
      alertVisible := false;
      keywords := ["", "", ""];
    }

    /** The submit button up to its first `await`. An invalid form only raises
        the alert. A valid one marks the upload as running and builds the
        payload from the form as it is now (`now` is `Timestamp.now()`). The
        button is disabled while an upload runs, so no submit starts then. */
    method BeginSubmit(now: Timestamp) returns (started: bool)
      requires Valid() && !uploading
      modifies this`alertVisible, this`uploading, this`pending, this`uploadTask, this`uploadPct
      ensures Valid()
      ensures started == CanSubmit(old(user), old(title), old(body))
      ensures !started ==> alertVisible && !uploading && pending.None?
                           && uploadTask.None? && uploadPct.None?
      ensures started ==> alertVisible == old(alertVisible) && uploading
      ensures started ==> pending == Some(PendingSubmit(
                BasePayload(title, body, editingId, user.value, now), draftFile, editingId))
      ensures started ==> uploadTask == draftFile
      ensures started ==> uploadPct == if draftFile.Some? then Some(0) else None
    {
      var ok := CanSubmit(user, title, body);
      if !ok {
        alertVisible := true;
        return false;
      }
      var payload := BasePayload(title, body, editingId, user.value, now);
      StartUpload(PendingSubmit(payload, draftFile, editingId));
      started := true;
    }

    /** `setUploading(true)`, and for an attached file the upload task and its
        progress at 0%. */
    method StartUpload(p: PendingSubmit)
      requires Valid() && !uploading
      requires p.file == draftFile
      modifies this`uploading, this`pending, this`uploadTask, this`uploadPct
      ensures Valid()
      ensures uploading && pending == Some(p) && uploadTask == p.file
      ensures uploadPct == if p.file.Some? then Some(0) else None
    {
      uploading := true;
      pending := Some(p);
      if p.file.Some? {
        uploadTask := p.file;
        uploadPct := Some(0);
      }
    }

    /** The rest of the submit, with a failure to fetch the download URL
        handled like any other upload failure. `upload` is how the upload
        settled (ignored when no file was attached) and `writeOk` whether the
        document write succeeded. On success the modal closes; on any failure
        the form stays as it is. Either way the upload state is reset, as the
        `finally` block does. */
    method CompleteSubmit(upload: UploadResult, writeOk: bool) returns (outcome: SubmitOutcome)
      requires Valid() && uploading
      modifies this`uploading, this`pending, this`uploadTask, this`uploadPct,
               this`modalOpen, this`editingId, this`title, this`body, this`draftFile,
               this`alertVisible, this`keywords
      ensures Valid()
      ensures !uploading && pending.None? && uploadTask.None? && uploadPct.None?
      ensures var p := old(pending).value;
        if p.file.Some? && !upload.Uploaded? then
          outcome == UploadFailed
        else
          var w := WriteFor(p.editingId, FinalPayload(p.payload, p.file, if upload.Uploaded? then upload.url else ""));
          outcome == if writeOk then Saved(w) else WriteFailed(w)
      ensures outcome.Saved? ==> !modalOpen && editingId.None? && title == "" && body == ""
                                 && draftFile.None? && !alertVisible && keywords == ["", "", ""]
      ensures !outcome.Saved? ==> modalOpen == old(modalOpen) && editingId == old(editingId)
                                  && title == old(title) && body == old(body)
                                  && draftFile == old(draftFile) && alertVisible == old(alertVisible)
                                  && keywords == old(keywords)
    {
      var p := pending.value;
      if p.file.Some? && !upload.Uploaded? {
        outcome := UploadFailed;
      } else {
        var payload := FinalPayload(p.payload, p.file, if upload.Uploaded? then upload.url else "");
        var w := WriteFor(p.editingId, payload);
        if writeOk {
          CloseModal();
          outcome := Saved(w);
        } else {
          outcome := WriteFailed(w);
        }
      }
      EndUpload();
    }

    /** The `finally` block: the upload state is cleared. */
    method EndUpload()
      requires Valid()
      modifies this`uploading, this`pending, this`uploadTask, this`uploadPct
      ensures Valid()
      ensures !uploading && pending.None? && uploadTask.None? && uploadPct.None?
    {
      uploading := false;
      pending := None;
      uploadPct := None;
      uploadTask := None;
    }

    /** The rest of the submit as the code is written: the download URL is
        fetched in an `async` completion observer whose rejection reaches
        neither `rej` nor the `catch`, so when that fetch fails the awaited
        promise never settles. The submit then stays suspended (`None`) with
        every field as it was; in every other case it is `CompleteSubmit`. */
    method CompleteSubmitAsWritten(upload: UploadResult, writeOk: bool) returns (outcome: Option<SubmitOutcome>)
      requires Valid() && uploading
      modifies this`uploading, this`pending, this`uploadTask, this`uploadPct,
               this`modalOpen, this`editingId, this`title, this`body, this`draftFile,
               this`alertVisible, this`keywords
      ensures Valid()
      ensures outcome.None? <==> old(pending).value.file.Some? && upload.UrlRejected?
      ensures outcome.None? ==> uploading && pending == old(pending) && uploadTask == old(uploadTask)
                                && uploadPct == old(uploadPct) && modalOpen == old(modalOpen)
                                && editingId == old(editingId) && title == old(title) && body == old(body)
                                && draftFile == old(draftFile) && alertVisible == old(alertVisible)
                                && keywords == old(keywords)
      ensures outcome.Some? ==> !uploading && pending.None? && uploadTask.None? && uploadPct.None?
      ensures outcome.Some? ==>
        var p := old(pending).value;
        if p.file.Some? && !upload.Uploaded? then
          outcome.value == UploadFailed
        else
          var w := WriteFor(p.editingId, FinalPayload(p.payload, p.file, if upload.Uploaded? then upload.url else ""));
          outcome.value == if writeOk then Saved(w) else WriteFailed(w)
      ensures outcome.Some? && outcome.value.Saved? ==>
                !modalOpen && editingId.None? && title == "" && body == ""
                && draftFile.None? && !alertVisible && keywords == ["", "", ""]
      ensures outcome.Some? && !outcome.value.Saved? ==>
                modalOpen == old(modalOpen) && editingId == old(editingId)
                && title == old(title) && body == old(body)
                && draftFile == old(draftFile) && alertVisible == old(alertVisible)
                && keywords == old(keywords)
    {
      if pending.value.file.Some? && upload.UrlRejected? {
        return None;
      }
      var o := CompleteSubmit(upload, writeOk);
      outcome := Some(o);
    }

    /** The delete button, after the confirmation dialog (`confirmed`) and the
        document delete (`deleteOk`: it did not throw). The visible list drops
        the record only when the delete went through. The result says whether
        the stored media is then deleted too (best effort, errors ignored). */
    method Delete(n: NewsItem, confirmed: bool, deleteOk: bool) returns (deleteMedia: bool)
      requires Valid()
      modifies this`items
      ensures Valid()
      ensures items == if old(user).Some? && confirmed && deleteOk then RemoveId(old(items), n.id)
                       else old(items)
      ensures deleteMedia <==> user.Some? && confirmed && deleteOk && IsTruthy(n.mediaUrl)
    {
      deleteMedia := false;
      if user.None? || !confirmed {
        return;
      }
      if !deleteOk {
        return;
      }
      deleteMedia := IsTruthy(n.mediaUrl);
      RemoveIdNewestFirst(items, n.id);
      items := RemoveId(items, n.id);
    }
  }

  /** The live query delivers the first `pageLimit + 1` documents of a
      newest-first collection; the view then shows `shown` items and the
      "load more" flag `more`. */
  method Resync(c: NewsClient, coll: seq<NewsItem>) returns (shown: nat, more: bool)
    requires c.Valid() && NewestFirst(coll)
    modifies c`items, c`hasMore
    ensures c.Valid() && c.pageLimit == old(c.pageLimit)
    ensures c.uploading == old(c.uploading)
    ensures shown == (if |coll| < c.pageLimit then |coll| else c.pageLimit)
    ensures more == c.hasMore == (|coll| > c.pageLimit)
    ensures c.items == Take(coll, c.pageLimit)
  {
    TakeNewestFirst(coll, c.pageLimit + 1);
    SnapshotOfCollection(coll, c.pageLimit);
    c.ApplySnapshot(Take(coll, c.pageLimit + 1));
    shown, more := |c.items|, c.hasMore;
  }

  /** The paging walk-through of a 45-record collection: the first load shows
      20 with more to come, one "load more" shows 40 with more to come, a
      second shows all 45 and nothing more. */
  method LoadMoreScenario(coll: seq<NewsItem>) returns (shown: seq<nat>, more: seq<bool>)
    requires |coll| == 45 && NewestFirst(coll)
    ensures shown == [20, 40, 45] && more == [true, true, false]
  {
    var c := new NewsClient();
    var n0, m0 := Resync(c, coll);
    c.FetchNextPage();
    var n1, m1 := Resync(c, coll);
    c.FetchNextPage();
    var n2, m2 := Resync(c, coll);
    shown, more := [n0, n1, n2], [m0, m1, m2];
  }

  /** A delete followed by the live update that confirms it: the visible list
      is the snapshot's window, and the record stays gone. */
  method DeleteThenResync(c: NewsClient, n: NewsItem, docs: seq<NewsItem>)
    requires c.Valid() && c.user.Some?
    requires |docs| <= c.pageLimit + 1 && NewestFirst(docs)
    requires forall k :: 0 <= k < |docs| ==> docs[k].id != n.id
    modifies c`items, c`hasMore
    ensures c.Valid()
    ensures c.items == Take(docs, c.pageLimit)
    ensures forall m :: m in c.items ==> m.id != n.id
  {
    var _ := c.Delete(n, true, true);
    c.ApplySnapshot(docs);
    DeleteThenSnapshot(docs, c.pageLimit, n.id);
  }

  /** The owner signs in, fills in a new item and attaches an image. */
  method FillImageForm() returns (c: NewsClient)
    ensures fresh(c) && c.Valid()
    ensures c.user == Some(User("owner")) && c.title == "t" && c.body == "b"
    ensures c.draftFile == Some(File("a.png", "image/png")) && !c.uploading
    ensures c.hasMore && c.pageLimit == FirstLoad
  {
    c := new NewsClient();
    c.SetUser(Some(User("owner")));
    c.EditTitle("t");
    c.EditBody("b");
    assert "image/png" in AllowedImg;
    var verdict := c.SelectFile(File("a.png", "image/png"), None);
  }

  /** The owner submits that form: the submit is suspended at the upload,
      with more records to page through. */
  method StartImageSubmit() returns (c: NewsClient)
    ensures fresh(c) && c.Valid()
    ensures c.uploading && c.pending.Some? && c.pending.value.file.Some?
    ensures c.hasMore && c.pageLimit == FirstLoad
  {
    c := FillImageForm();
    assert CanSubmit(c.user, c.title, c.body) by {
      assert "t"[0] == 't' && "b"[0] == 'b';
    }
    var started := c.BeginSubmit(0);
  }

  /** The upload completes but fetching its download URL fails. As written,
      the submit never finishes: `uploading` stays true, so "load more" stays
      a no-op although more records are available. */
  method UrlFailureBlocksPaging() returns (stillUploading: bool, pageLimitAfter: nat)
    ensures stillUploading && pageLimitAfter == FirstLoad
  {
    var c := StartImageSubmit();
    var outcome := c.CompleteSubmitAsWritten(UrlRejected, true);
    c.FetchNextPage();
    stillUploading, pageLimitAfter := c.uploading, c.pageLimit;
  }

  /** The same steps with the URL failure handled as an upload failure: the
      submit ends, nothing is written, the upload state is reset and "load
      more" widens the window again. */
  method UrlFailureRecovers() returns (outcome: SubmitOutcome, stillUploading: bool, pageLimitAfter: nat)
    ensures outcome == UploadFailed && !stillUploading && pageLimitAfter == FirstLoad + PageSize
  {
    var c := StartImageSubmit();
    outcome := c.CompleteSubmit(UrlRejected, true);
    c.FetchNextPage();
    stillUploading, pageLimitAfter := c.uploading, c.pageLimit;
  }
}
