/**
 * Image sidebar: what a drop on the sidebar saves (dropped image files
 * first, otherwise one URL taken from the drag data), the IndexedDB object
 * store keyed by `id` that holds the saved images, and the drag data the
 * sidebar offers when one of its images is dragged out.
 */
module ImageSidebar {
  import opened Maybe
  import opened JsText
  import opened DroppedFiles

  /** A record of the `images` object store. */
  datatype StoredImage = StoredImage(id: string, data: string)

  /** The drag data of a drop: its files and its string items by format. */
  datatype DataTransfer = DataTransfer(files: seq<DroppedFile>, items: map<string, string>)

  /** `getData(format)`: the item of that format, or `""` when there is none. */
  function GetData(dt: DataTransfer, format: string): (r: string)
    ensures format !in dt.items ==> r == ""
  {
    if format in dt.items then dt.items[format] else ""
  }

  // ---------------------------------------------- the URL candidate of a drop

  predicate IsQuote(c: char) {
    c == '"' || c == '\''
  }

  /** The class `[^"']`. */
  predicate NotQuote(c: char) {
    !IsQuote(c)
  }

  /**
   * The capture group of `/src=["']([^"']+)["']/` when the pattern matches
   * at index `i`: after `src=` and a quote, the run of non-quote characters,
   * which must be non-empty and followed by a quote (of either kind).
   */
  function SrcCaptureAt(html: string, i: int): (r: Option<string>)
    ensures r.Some? ==> r.value != [] && forall k :: 0 <= k < |r.value| ==> !IsQuote(r.value[k])
  {
    if OccursAt(html, "src=", i) && i + 4 < |html| && IsQuote(html[i + 4]) then
      var run := TakeWhile(html[i + 5..], NotQuote);
      if run != [] && i + 5 + |run| < |html| then Some(run) else None
    else None
  }

  /** The capture of the leftmost match of the `src` pattern, if the pattern matches. */
  function HtmlSrc(html: string): (r: Option<string>)
    ensures r.Some? ==> exists i :: 0 <= i <= |html| && SrcCaptureAt(html, i) == r
                          && forall j :: 0 <= j < i ==> SrcCaptureAt(html, j).None?
    ensures r.None? ==> forall i :: SrcCaptureAt(html, i).None?
  {
    var p := i => SrcCaptureAt(html, i).Some?;
    assert forall j :: p(j) == SrcCaptureAt(html, j).Some?;
    match FirstIndex(p, 0, |html| + 1)
    case None => None
    case Some(i) => SrcCaptureAt(html, i)
  }

  /**
   * The URL of a drop without files: the `text/uri-list` item, else the
   * `src` in the `text/html` item, else the `text/plain` item.
   */
  function UrlCandidate(dt: DataTransfer): (r: string)
    ensures r != "" ==> r == GetData(dt, "text/uri-list") || HtmlSrc(GetData(dt, "text/html")) == Some(r) || r == GetData(dt, "text/plain")
    ensures GetData(dt, "text/uri-list") != "" ==> r == GetData(dt, "text/uri-list")
  {
    var uri := GetData(dt, "text/uri-list");
    if uri != "" then uri
    else match HtmlSrc(GetData(dt, "text/html"))
      case Some(src) => src
      case None => GetData(dt, "text/plain")
  }

  /** The candidate is chosen in priority order, and a later item is read only when the earlier ones give nothing. */
  lemma UrlCandidatePriority(dt: DataTransfer)
    ensures GetData(dt, "text/uri-list") != "" ==> UrlCandidate(dt) == GetData(dt, "text/uri-list")
    ensures GetData(dt, "text/uri-list") == "" && HtmlSrc(GetData(dt, "text/html")).Some?
            ==> UrlCandidate(dt) == HtmlSrc(GetData(dt, "text/html")).value
    ensures GetData(dt, "text/uri-list") == "" && HtmlSrc(GetData(dt, "text/html")).None?
            ==> UrlCandidate(dt) == GetData(dt, "text/plain")
    ensures UrlCandidate(dt) == "" <==>
              GetData(dt, "text/uri-list") == "" && HtmlSrc(GetData(dt, "text/html")).None? && GetData(dt, "text/plain") == ""
  {
  }

  /** The `img` markup the sidebar puts in `text/html` when one of its images is dragged out. */
  function ImgTag(src: string): string {
    "<img src=\"" + src + "\" alt=\"Image\">"
  }

  /** A capture at `i` with no capture before it is the one `HtmlSrc` returns. */
  lemma HtmlSrcAt(html: string, i: int)
    requires 0 <= i && SrcCaptureAt(html, i).Some?
    requires forall j :: 0 <= j < i ==> SrcCaptureAt(html, j).None?
    ensures HtmlSrc(html) == SrcCaptureAt(html, i)
  {
    var r := HtmlSrc(html);
    assert r.Some?;
    var i' :| 0 <= i' <= |html| && SrcCaptureAt(html, i') == r
              && forall j :: 0 <= j < i' ==> SrcCaptureAt(html, j).None?;
    assert i' == i;
  }

  /** In the sidebar's `img` markup the pattern captures the URL right after `src="`. */
  lemma CaptureInImgTag(src: string)
    requires src != [] && forall k :: 0 <= k < |src| ==> !IsQuote(src[k])
    ensures SrcCaptureAt(ImgTag(src), 5) == Some(src)
  {
    var html := ImgTag(src);
    var tail := "\" alt=\"Image\">";
    assert html == "<img src=\"" + (src + tail);
    assert html[5..9] == "src=" && html[9] == '"';
    assert html[10..] == src + tail;
    TakeWhileStopsAt(src, tail, NotQuote);
  }

  /** The `src` pattern reads back the URL of the sidebar's `img` markup when the URL is non-empty and has no quote. */
  lemma HtmlSrcOfImgTag(src: string)
    requires src != [] && forall k :: 0 <= k < |src| ==> !IsQuote(src[k])
    ensures HtmlSrc(ImgTag(src)) == Some(src)
  {
    var html := ImgTag(src);
    CaptureInImgTag(src);
    forall j | 0 <= j < 5
      ensures SrcCaptureAt(html, j).None?
    {
      assert html[j] != 's';
    }
    HtmlSrcAt(html, 5);
  }

  /** TakeWhile over `a + b` stops at the end of `a` when `a` satisfies `p` throughout and `b` starts with a character that does not. */
  lemma {:induction false} TakeWhileStopsAt(a: string, b: string, p: char -> bool)
    requires forall k :: 0 <= k < |a| ==> p(a[k])
    requires b != [] && !p(b[0])
    ensures TakeWhile(a + b, p) == a
  {
    if a != [] {
      assert (a + b)[0] == a[0];
      assert (a + b)[1..] == a[1..] + b;
      TakeWhileStopsAt(a[1..], b, p);
      assert [a[0]] + a[1..] == a;
    } else {
      assert a + b == b;
    }
  }

  // ------------------------------------------------------------- the drop

  /** What the drop handler does with a drop. */
  datatype DropPlan =
    | ReadFiles(files: seq<DroppedFile>)  // read each image file as a data URL, then save it
    | SaveVerbatim(url: string)           // save a `data:image/` URL as it is
    | FetchUrl(url: string)               // fetch the URL, then decide
    | Nothing

  /** The drop handler's decision, from the drag data alone. */
  function PlanDrop(dt: DataTransfer): (r: DropPlan)
    ensures r.ReadFiles? <==> |dt.files| > 0
    ensures r.SaveVerbatim? ==> StartsWith(r.url, "data:image/") && r.url == UrlCandidate(dt)
    ensures r.FetchUrl? ==> r.url != "" && !StartsWith(r.url, "data:image/") && r.url == UrlCandidate(dt)
    ensures r.Nothing? <==> |dt.files| == 0 && UrlCandidate(dt) == ""
  {
    if |dt.files| > 0 then ReadFiles(ImageFiles(dt.files))
    else
      var url := UrlCandidate(dt);
      if url == "" then Nothing
      else if StartsWith(url, "data:image/") then SaveVerbatim(url)
      else FetchUrl(url)
  }

  /**
   * A drop with files reads exactly its image files and never looks at a
   * URL; a drop without files never reads a file.
   */
  lemma FilesFirst(dt: DataTransfer)
    ensures |dt.files| > 0 ==> PlanDrop(dt) == ReadFiles(ImageFiles(dt.files))
    ensures |dt.files| > 0 ==> forall f :: f in PlanDrop(dt).files <==> f in dt.files && IsImage(f)
    ensures |dt.files| == 0 ==> !PlanDrop(dt).ReadFiles?
    ensures |dt.files| == 0 && UrlCandidate(dt) != "" ==> PlanDrop(dt).SaveVerbatim? || PlanDrop(dt).FetchUrl?
  {
    if |dt.files| > 0 {
      forall f | f in dt.files && IsImage(f)
        ensures f in ImageFiles(dt.files)
      {
        ImageFilesCount(dt.files, f);
        assert f in multiset(dt.files);
      }
    }
  }

  /** How fetching a dropped URL ended: it threw, or it gave a blob of some type read as a data URL. */
  datatype FetchResult = FetchFailed | Blob(mimeType: string, dataUrl: string)

  /**
   * What a URL drop stores: a `data:image/` URL as it is, without fetching;
   * otherwise the data URL of an image blob, nothing for a blob of another
   * type, and the raw URL when the fetch failed.
   */
  function SavedFromUrl(url: string, fetched: FetchResult): (r: Option<string>)
    ensures StartsWith(url, "data:image/") ==> r == Some(url)
    ensures !StartsWith(url, "data:image/") && fetched.FetchFailed? ==> r == Some(url)
    ensures !StartsWith(url, "data:image/") && fetched.Blob? ==>
              (r.Some? <==> StartsWith(fetched.mimeType, "image/")) && (r.Some? ==> r.value == fetched.dataUrl)
  {
    if StartsWith(url, "data:image/") then Some(url)
    else match fetched
      case FetchFailed => Some(url)
      case Blob(mimeType, dataUrl) => if StartsWith(mimeType, "image/") then Some(dataUrl) else None
  }

  /** A `data:image/` URL is stored the same whatever a fetch would have given. */
  lemma DataUrlNotFetched(url: string, f1: FetchResult, f2: FetchResult)
    requires StartsWith(url, "data:image/")
    ensures SavedFromUrl(url, f1) == SavedFromUrl(url, f2) == Some(url)
  {
  }

  // ------------------------------------------------------------ drag out

  /** The extension of the drag-out file: the part after the first `/` of the blob type, or `png`. */
  function Extension(blobType: string): (r: string)
    ensures r != ""
  {
    var parts := Split(blobType, '/');
    if |parts| > 1 && parts[1] != "" then parts[1] else "png"
  }

  /** The name of the file offered when an image is dragged out. */
  function DragOutName(id: string, blobType: string): string {
    "image-" + id + "." + Extension(blobType)
  }

  /** A `type/subtype` blob gives the subtype as extension. */
  lemma ExtensionOfType(main: string, sub: string)
    requires '/' !in main && '/' !in sub && sub != ""
    ensures Extension(main + "/" + sub) == sub
  {
    SplitPieceThenSeparator(main, sub, '/');
    assert main + "/" + sub == main + ['/'] + sub;
    SplitPrefix(sub, [], '/');
    assert sub + [] == sub;
  }

  /** A blob type without a subtype (no `/`, or nothing after it) gives `png`. */
  lemma ExtensionFallback(main: string)
    requires '/' !in main
    ensures Extension(main) == "png"
    ensures Extension(main + "/") == "png"
  {
    SplitPrefix(main, [], '/');
    assert main + [] == main;
    SplitPieceThenSeparator(main, "", '/');
    assert main + "/" == main + ['/'] + "";
  }

  /**
   * The drag data the sidebar sets when an image is dragged out: a file
   * when a blob could be had (`blobType`), and the image's data as URI
   * list, `img` markup and plain text.
   */
  function DragOutData(img: StoredImage, blobType: Option<string>): (dt: DataTransfer)
    ensures GetData(dt, "text/uri-list") == img.data && GetData(dt, "text/plain") == img.data
    ensures GetData(dt, "text/html") == ImgTag(img.data)
  {
    var files := match blobType
      case None => []
      case Some(t) => [DroppedFile(DragOutName(img.id, t), t)];
    DataTransfer(files, map["text/uri-list" := img.data, "text/html" := ImgTag(img.data), "text/plain" := img.data])
  }

  /**
   * Dropping a sidebar image back on the sidebar: without a file, its data
   * is taken as the URL; with a file, only the file counts, and a file
   * whose type is not an image is dropped silently.
   */
  lemma DragOutDropBack(img: StoredImage, blobType: Option<string>)
    ensures blobType.None? && img.data != "" ==> UrlCandidate(DragOutData(img, blobType)) == img.data
    ensures blobType.Some? ==>
              PlanDrop(DragOutData(img, blobType))
              == ReadFiles(if StartsWith(blobType.value, "image/") then [DroppedFile(DragOutName(img.id, blobType.value), blobType.value)] else [])
  {
    if blobType.Some? {
      var f := DroppedFile(DragOutName(img.id, blobType.value), blobType.value);
      assert DragOutData(img, blobType).files == [f];
      assert [f][1..] == [];
    }
  }

  /**
   * The page's own capturing `dragstart` listener: dragging an `img` with a
   * source puts that source in `text/uri-list` and the element's markup in
   * `text/html`.
   */
  function PageDragStart(dt: DataTransfer, isImg: bool, src: string, currentSrc: string, outerHtml: string): (r: DataTransfer)
    ensures r.files == dt.files
  {
    var imgSrc := if src != "" then src else currentSrc;
    if isImg && imgSrc != "" then
      DataTransfer(dt.files, dt.items["text/uri-list" := imgSrc]["text/html" := outerHtml])
    else dt
  }

  /** An image dragged from a page (no files) is offered to the sidebar by its source URL. */
  lemma PageImageDropUsesSrc(dt: DataTransfer, src: string, currentSrc: string, outerHtml: string)
    requires |dt.files| == 0 && (src != "" || currentSrc != "")
    ensures UrlCandidate(PageDragStart(dt, true, src, currentSrc, outerHtml)) == if src != "" then src else currentSrc
    ensures PlanDrop(PageDragStart(dt, true, src, currentSrc, outerHtml)) != Nothing
  {
  }

  // ------------------------------------------------------ the object store

  /** The `images` object store, keyed by `id`, and the drop handler that fills it. */
  class Sidebar {
    var store: map<string, string>

    /** The store as it was left by earlier visits. */
    constructor (initial: map<string, string>)
      ensures store == initial
    {
      store := initial;
    }

    /** `getAll()`: the records, at most one per id. */
    function Records(): (r: set<StoredImage>)
      reads this
      ensures forall x :: x in r <==> x.id in store && store[x.id] == x.data
      ensures forall x, y :: x in r && y in r && x.id == y.id ==> x == y
    {
      set id | id in store :: StoredImage(id, store[id])
    }

    /** saveImage: `put` replaces any record with the same id and keeps every other. */
    method SaveImage(img: StoredImage)
      modifies this
      ensures store == old(store)[img.id := img.data]
      ensures StoredImage(img.id, img.data) in Records()
      ensures forall x: StoredImage :: x.id != img.id ==> (x in Records() <==> x in old(Records()))
    {
      store := store[img.id := img.data];
    }

    /** deleteImage: removes the record with that id and only it. */
    method DeleteImage(id: string)
      modifies this
      ensures store == old(store) - {id}
      ensures forall x: StoredImage :: x in Records() <==> x in old(Records()) && x.id != id
    {
      store := store - {id};
    }

    /**
     * The drop handler up to its asynchronous steps: with files, the image
     * files whose reads it starts, in order; otherwise what it does with
     * the URL candidate. The store is not touched yet.
     */
    method Drop(dt: DataTransfer) returns (plan: DropPlan)
      ensures plan == PlanDrop(dt)
    {
      if |dt.files| > 0 {
        var started: seq<DroppedFile> := [];
        for i := 0 to |dt.files|
          invariant started == ImageFiles(dt.files[..i])
        {
          ImageFilesAppend(dt.files[..i], [dt.files[i]]);
          assert dt.files[..i + 1] == dt.files[..i] + [dt.files[i]];
          if !StartsWith(dt.files[i].mimeType, "image/") {
            continue;
          }
          started := started + [dt.files[i]];
        }
        assert dt.files[..|dt.files|] == dt.files;
        return ReadFiles(started);
      }
      var url := UrlCandidate(dt);
      if url == "" {
        return Nothing;
      }
      if StartsWith(url, "data:image/") {
        return SaveVerbatim(url);
      }
      return FetchUrl(url);
    }

    /** A file read finished: its data URL is saved under a fresh id. */
    method FileRead(dataUrl: string, freshId: string)
      modifies this
      ensures store == old(store)[freshId := dataUrl]
    {
      SaveImage(StoredImage(freshId, dataUrl));
    }

    /** The URL path of the drop finished, with the fetch ending as `fetched`. */
    method UrlDropped(url: string, fetched: FetchResult, freshId: string)
      modifies this
      ensures SavedFromUrl(url, fetched).Some? ==> store == old(store)[freshId := SavedFromUrl(url, fetched).value]
      ensures SavedFromUrl(url, fetched).None? ==> store == old(store)
    {
      if StartsWith(url, "data:image/") {
        SaveImage(StoredImage(freshId, url));
        return;
      }
      match fetched {
        case FetchFailed =>
          SaveImage(StoredImage(freshId, url));
        case Blob(mimeType, dataUrl) =>
          if StartsWith(mimeType, "image/") {
            SaveImage(StoredImage(freshId, dataUrl));
          }
      }
    }
  }

  /** Deleting after saving under the same id leaves the store as deleting alone would. */
  lemma SaveThenDelete(m: map<string, string>, img: StoredImage)
    ensures m[img.id := img.data] - {img.id} == m - {img.id}
  {
  }

  /** Saving twice under one id keeps only the later data. */
  lemma SaveTwice(m: map<string, string>, id: string, d1: string, d2: string)
    ensures m[id := d1][id := d2] == m[id := d2]
  {
  }
}
