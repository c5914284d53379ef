/** The value-level parts of the news feed component: the stored record, the
    constants, the live-query window, the optimistic delete filter, media
    validation, submit validation and the write payload. */
module NewsModel {
  import opened Wrappers
  import opened JsString

  /** A server timestamp; the model only carries and compares them. */
  type Timestamp = int

  datatype MediaType = Image | Video

  /** One news record as stored in the collection; `id` is the document id. */
  datatype NewsItem = NewsItem(
    id: string,
    title: string,
    body: string,
    createdAt: Timestamp,
    updatedAt: Option<Timestamp>,
    createdBy: string,
    mediaUrl: Option<string>,
    mediaType: Option<MediaType>)

  /** The signed-in actor; only its stable id is used. */
  datatype User = User(uid: string)

  /** A file picked in the browser: its name and its MIME type. */
  datatype File = File(name: string, mimeType: string)

  const AllowedImg: seq<string> := ["image/jpeg", "image/png", "image/webp", "image/gif"]
  const AllowedVideo: seq<string> := [
    "video/mp4", "video/webm", "video/ogg", "video/quicktime", "video/x-m4v",
    "video/x-msvideo", "video/x-ms-wmv", "video/mpeg", "video/3gpp", "video/3gpp2"]
  const MaxVideoSec: real := 30.0
  const FirstLoad: nat := 20
  const PageSize: nat := 20

  /** JavaScript truthiness of a nullable string: `null` and "" are falsy. */
  predicate IsTruthy(s: Option<string>) {
    s.Some? && s.value != ""
  }

  // ---------------------------------------------------------------------
  // The live-query window

  /** The first `n` elements (all of them when there are fewer): both the
      query's `limit(n)` and the callback's `slice(0, n)`. */
  function Take(docs: seq<NewsItem>, n: nat): (r: seq<NewsItem>)
    ensures r <= docs
    ensures |r| == if |docs| <= n then |docs| else n
  {
    if |docs| <= n then docs else docs[..n]
  }

  /** The order the query asks for: `createdAt` descending. */
  predicate NewestFirst(s: seq<NewsItem>) {
    forall i, j :: 0 <= i < j < |s| ==> s[i].createdAt >= s[j].createdAt
  }

  /** Over-fetching by one decides `hasMore`: with the collection `coll`
      (newest first) queried at `limit(pageLimit + 1)`, the snapshot has more
      than `pageLimit` documents exactly when the collection does, and the
      visible slice is the collection's first `pageLimit` records. */
  lemma SnapshotOfCollection(coll: seq<NewsItem>, pageLimit: nat)
    ensures |Take(coll, pageLimit + 1)| > pageLimit <==> |coll| > pageLimit
    ensures Take(Take(coll, pageLimit + 1), pageLimit) == Take(coll, pageLimit)
    ensures |coll| <= pageLimit ==> Take(Take(coll, pageLimit + 1), pageLimit) == coll
  {
  }

  /** Growing the window only appends: the old window is a prefix of the new. */
  lemma TakeGrows(docs: seq<NewsItem>, n: nat, m: nat)
    requires n <= m
    ensures Take(docs, n) <= Take(docs, m)
  {
  }

  /** A window of a newest-first snapshot is newest first. */
  lemma TakeNewestFirst(docs: seq<NewsItem>, n: nat)
    requires NewestFirst(docs)
    ensures NewestFirst(Take(docs, n))
  {
  }

  // ---------------------------------------------------------------------
  // The optimistic delete: `prev.filter(m => m.id !== id)`

  function RemoveId(items: seq<NewsItem>, id: string): (r: seq<NewsItem>)
    ensures |r| <= |items|
    ensures forall m :: m in r ==> m in items && m.id != id
  {
    if items == [] then []
    else if items[0].id != id then [items[0]] + RemoveId(items[1..], id)
    else RemoveId(items[1..], id)
  }

  /** `a` is `b` with some elements deleted, the rest in their original order. */
  ghost predicate IsSubsequence(a: seq<NewsItem>, b: seq<NewsItem>)
    decreases |b|
  {
    if a == [] then true
    else if b == [] then false
    else (a[0] == b[0] && IsSubsequence(a[1..], b[1..])) || IsSubsequence(a, b[1..])
  }

  /** The filter drops every copy of a record with the deleted id and keeps
      every copy of every other record. */
  lemma {:induction false} RemoveIdCount(items: seq<NewsItem>, id: string, m: NewsItem)
    ensures multiset(RemoveId(items, id))[m] == if m.id == id then 0 else multiset(items)[m]
  {
    if items != [] {
      RemoveIdCount(items[1..], id, m);
      assert items == [items[0]] + items[1..];
    }
  }

  /** The records that remain keep their relative order. */
  lemma {:induction false} RemoveIdKeepsOrder(items: seq<NewsItem>, id: string)
    ensures IsSubsequence(RemoveId(items, id), items)
  {
    if items != [] {
      RemoveIdKeepsOrder(items[1..], id);
      var rest := RemoveId(items[1..], id);
      if items[0].id != id {
        assert ([items[0]] + rest)[1..] == rest;
      }
    }
  }

  /** Deleting the same id twice is deleting it once. */
  lemma {:induction false} RemoveIdIdempotent(items: seq<NewsItem>, id: string)
    ensures RemoveId(RemoveId(items, id), id) == RemoveId(items, id)
  {
    if items != [] {
      RemoveIdIdempotent(items[1..], id);
      if items[0].id != id {
        assert ([items[0]] + RemoveId(items[1..], id))[1..] == RemoveId(items[1..], id);
      }
    }
  }

  /** Filtering out an id no record carries changes nothing. */
  lemma {:induction false} RemoveIdAbsent(items: seq<NewsItem>, id: string)
    requires forall k :: 0 <= k < |items| ==> items[k].id != id
    ensures RemoveId(items, id) == items
  {
    if items != [] {
      RemoveIdAbsent(items[1..], id);
      assert items == [items[0]] + items[1..];
    }
  }

  /** Dropping the newest record keeps a list newest first. */
  lemma NewestFirstTail(items: seq<NewsItem>)
    requires items != [] && NewestFirst(items)
    ensures NewestFirst(items[1..])
    ensures forall m :: m in items[1..] ==> items[0].createdAt >= m.createdAt
  {
    var tail := items[1..];
    forall i | 0 <= i < |tail| ensures tail[i] == items[i + 1] {
    }
  }

  /** A record no older than any record of a newest-first list can go in
      front of it. */
  lemma NewestFirstCons(x: NewsItem, rest: seq<NewsItem>)
    requires NewestFirst(rest)
    requires forall m :: m in rest ==> x.createdAt >= m.createdAt
    ensures NewestFirst([x] + rest)
  {
    var r := [x] + rest;
    forall i, j | 0 <= i < j < |r| ensures r[i].createdAt >= r[j].createdAt {
      assert r[j] == rest[j - 1];
      if i > 0 {
        assert r[i] == rest[i - 1];
      }
    }
  }

  /** Removing records from a newest-first list leaves it newest first. */
  lemma {:induction false} RemoveIdNewestFirst(items: seq<NewsItem>, id: string)
    requires NewestFirst(items)
    ensures NewestFirst(RemoveId(items, id))
  {
    if items != [] {
      NewestFirstTail(items);
      RemoveIdNewestFirst(items[1..], id);
      if items[0].id != id {
        NewestFirstCons(items[0], RemoveId(items[1..], id));
      }
    }
  }

  /** The optimistic delete and the live update agree: once the store has
      confirmed the deletion, a snapshot lacking the record gives the same
      visible list whether or not the local filter ran on it. */
  lemma DeleteThenSnapshot(docs: seq<NewsItem>, pageLimit: nat, id: string)
    requires forall k :: 0 <= k < |docs| ==> docs[k].id != id
    ensures RemoveId(Take(docs, pageLimit), id) == Take(docs, pageLimit)
    ensures forall m :: m in Take(docs, pageLimit) ==> m.id != id
  {
    var w := Take(docs, pageLimit);
    assert forall k :: 0 <= k < |w| ==> w[k] == docs[k];
    RemoveIdAbsent(w, id);
  }

  // ---------------------------------------------------------------------
  // Media selection

  /** `isImage || isVideo`: the type is on one of the two lists, which is
      also the file input's `accept` list (both lists joined). */
  predicate IsAllowedType(mime: string): (b: bool)
    ensures b <==> mime in AllowedImg + AllowedVideo
    ensures b ==> |mime| > 6 && (mime[..6] == "image/" || mime[..6] == "video/")
  {
    mime in AllowedImg || mime in AllowedVideo
  }

  /** What selecting a file leads to. `AwaitingMetadata`: a video whose
      metadata never loads, so the duration callback never fires. */
  datatype FileVerdict = Unsupported | TooLong | AwaitingMetadata | Accepted

  /** The checks of the file picker. `duration` is the decoded length of a
      video in seconds, `None` while it is not known. */
  function CheckFile(mime: string, duration: Option<real>): (v: FileVerdict)
    ensures v == Unsupported <==> !IsAllowedType(mime)
    ensures v == Accepted ==> IsAllowedType(mime)
    ensures mime in AllowedImg ==> v == Accepted
    ensures mime in AllowedVideo ==> (v == TooLong <==> duration.Some? && duration.value > MaxVideoSec)
    ensures mime in AllowedVideo ==> (v == AwaitingMetadata <==> duration.None?)
  {
    var isImage := mime in AllowedImg;
    var isVideo := mime in AllowedVideo;
    if !isImage && !isVideo then Unsupported
    else if isVideo then
      match duration
      case None => AwaitingMetadata
      case Some(d) => if d > MaxVideoSec then TooLong else Accepted
    else Accepted
  }

  /** No MIME type is on both lists. */
  lemma AllowedListsDisjoint(mime: string)
    ensures !(mime in AllowedImg && mime in AllowedVideo)
  {
  }

  /** The 30-second ceiling is inclusive: 30 s passes, anything longer fails. */
  lemma VideoDurationBoundary(mime: string)
    requires mime in AllowedVideo
    ensures CheckFile(mime, Some(30.0)) == Accepted
    ensures CheckFile(mime, Some(29.0)) == Accepted
    ensures CheckFile(mime, Some(30.5)) == TooLong
    ensures CheckFile(mime, Some(31.0)) == TooLong
  {
  }

  /** The media tag written with an upload. */
  function MediaTypeOf(mime: string): (t: MediaType)
    ensures t == Video <==> mime in AllowedVideo
  {
    if mime in AllowedVideo then Video else Image
  }

  /** For an accepted file the tag names the list its type came from. */
  lemma MediaTypeOfAllowed(mime: string)
    requires IsAllowedType(mime)
    ensures MediaTypeOf(mime) == Image <==> mime in AllowedImg
    ensures MediaTypeOf(mime) == Video <==> mime in AllowedVideo
  {
  }

  // ---------------------------------------------------------------------
  // Submit validation and the write payload

  /** `user && title.trim() && body.trim()`: the guard of the submit handler.
      Submitting is refused exactly when nobody is signed in or the title or
      the body is whitespace only. */
  predicate CanSubmit(user: Option<User>, title: string, body: string): (ok: bool)
    ensures ok <==> user.Some? && !IsBlank(title) && !IsBlank(body)
  {
    TrimEmptyIffBlank(title);
    TrimEmptyIffBlank(body);
    user.Some? && Trim(title) != "" && Trim(body) != ""
  }

  /** `Partial<NewsItem>`: the fields a create or an edit writes. */
  datatype Payload = Payload(
    title: string,
    body: string,
    createdAt: Option<Timestamp>,
    createdBy: Option<string>,
    updatedAt: Option<Timestamp>,
    mediaUrl: Option<string>,
    mediaType: Option<MediaType>)

  /** The payload before any upload: an edit stamps `updatedAt`, a create
      stamps `createdAt` and the author. */
  function BasePayload(title: string, body: string, editingId: Option<string>,
                       user: User, now: Timestamp): (p: Payload)
    ensures p.title == title && p.body == body
    ensures IsTruthy(editingId) ==> p.updatedAt == Some(now) && p.createdAt.None? && p.createdBy.None?
    ensures !IsTruthy(editingId) ==> p.createdAt == Some(now) && p.createdBy == Some(user.uid) && p.updatedAt.None?
    ensures p.mediaUrl.None? && p.mediaType.None?
  {
    if IsTruthy(editingId) then
      Payload(title, body, None, None, Some(now), None, None)
    else
      Payload(title, body, Some(now), Some(user.uid), None, None, None)
  }

  /** `Object.assign(payload, { mediaUrl, mediaType })` after the upload. */
  function WithMedia(p: Payload, file: File, url: string): (q: Payload)
    ensures q.mediaUrl == Some(url) && q.mediaType.Some?
    ensures q.mediaType == Some(Video) <==> file.mimeType in AllowedVideo
    ensures q.(mediaUrl := p.mediaUrl, mediaType := p.mediaType) == p
  {
    p.(mediaUrl := Some(url), mediaType := Some(MediaTypeOf(file.mimeType)))
  }

  /** The payload that is written, given the file captured at submit time and
      the download URL its upload produced (unused without a file). Media
      fields are added only with a file, and then together; from a base
      payload without media, they are present exactly when a file was
      selected. */
  function FinalPayload(base: Payload, file: Option<File>, url: string): (p: Payload)
    ensures file.None? ==> p == base
    ensures file.Some? ==> p.mediaUrl == Some(url)
                           && (p.mediaType == Some(Video) <==> file.value.mimeType in AllowedVideo)
    ensures p.(mediaUrl := base.mediaUrl, mediaType := base.mediaType) == base
    ensures base.mediaUrl.None? && base.mediaType.None? ==>
              (p.mediaUrl.Some? <==> file.Some?) && (p.mediaType.Some? <==> file.Some?)
  {
    if file.Some? then WithMedia(base, file.value, url) else base
  }

  /** The document write a submit performs. */
  datatype Write = Add(payload: Payload) | Update(id: string, payload: Payload)

  function WriteFor(editingId: Option<string>, p: Payload): (w: Write)
    ensures w.payload == p
    ensures w.Update? <==> IsTruthy(editingId)
    ensures w.Update? ==> w.id == editingId.value
  {
    if IsTruthy(editingId) then Update(editingId.value, p) else Add(p)
  }

  // ---------------------------------------------------------------------
  // What the document store does with a write (its field-merge semantics)

  /** `updateDoc`: fields present in the payload overwrite, absent ones stay. */
  function ApplyUpdate(item: NewsItem, p: Payload): NewsItem {
    item.(title := p.title, body := p.body,
          createdAt := if p.createdAt.Some? then p.createdAt.value else item.createdAt,
          createdBy := if p.createdBy.Some? then p.createdBy.value else item.createdBy,
          updatedAt := if p.updatedAt.Some? then p.updatedAt else item.updatedAt,
          mediaUrl := if p.mediaUrl.Some? then p.mediaUrl else item.mediaUrl,
          mediaType := if p.mediaType.Some? then p.mediaType else item.mediaType)
  }

  /** `addDoc`: the record created from a create payload under a new id. */
  function Created(id: string, p: Payload): NewsItem
    requires p.createdAt.Some? && p.createdBy.Some?
  {
    NewsItem(id, p.title, p.body, p.createdAt.value, p.updatedAt, p.createdBy.value,
             p.mediaUrl, p.mediaType)
  }

  /** A stored record's media fields are present together or absent together. */
  predicate MediaPaired(n: NewsItem) {
    n.mediaUrl.Some? <==> n.mediaType.Some?
  }

  /** An edit submitted without a new file keeps the record's media, its
      creation stamp and its author, and stamps the edit time. */
  lemma EditWithoutFileKeepsMedia(item: NewsItem, title: string, body: string, editId: string,
                                  user: User, now: Timestamp, url: string)
    requires editId != ""
    ensures var n := ApplyUpdate(item, FinalPayload(BasePayload(title, body, Some(editId), user, now), None, url));
      && n.mediaUrl == item.mediaUrl && n.mediaType == item.mediaType
      && n.createdAt == item.createdAt && n.createdBy == item.createdBy
      && n.title == title && n.body == body && n.updatedAt == Some(now)
  {
  }

  /** Every write a submit can make keeps `mediaUrl` and `mediaType` paired:
      a created record starts paired, and an update keeps a paired record
      paired. */
  lemma SubmitKeepsMediaPaired(item: NewsItem, newId: string, title: string, body: string,
                               editingId: Option<string>, user: User, now: Timestamp,
                               file: Option<File>, url: string)
    ensures var p := FinalPayload(BasePayload(title, body, editingId, user, now), file, url);
      && (!IsTruthy(editingId) ==> p.createdAt.Some? && p.createdBy.Some? && MediaPaired(Created(newId, p)))
      && (MediaPaired(item) ==> MediaPaired(ApplyUpdate(item, p)))
  {
  }
}
