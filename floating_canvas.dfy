/**
 * The earlier, non-persistent floating-image canvas: images dropped on any
 * page float over it, can be dragged, resized with the wheel and removed
 * with a double-click; nothing is stored.
 */
module FloatingCanvas {
  import opened Gestures
  import opened DroppedFiles

  /** The `max-width` every image is rendered with. */
  const MaxWidth: nat := 300

  datatype Cursor = Grab | Grabbing

  /**
   * One `<img>`: its `src`, `style.left`/`style.top`, rendered `width`,
   * `style.cursor` and its drag closure.
   */
  datatype PlainImage = PlainImage(src: string, left: int, top: int, width: nat, cursor: Cursor, drag: DragState)

  /** The rendered width for a requested width: the `max-width` caps it. */
  function Rendered(w: nat): (r: nat)
    ensures r <= MaxWidth && r <= w
    ensures r == w || r == MaxWidth
  {
    if w <= MaxWidth then w else MaxWidth
  }

  /**
   * `img.width = img.width * scale`: the width attribute takes the truncated
   * product and the image is rendered capped at the max-width.
   */
  function CappedWheel(w: nat, deltaY: int): nat {
    Rendered(WheelWidth(w, deltaY))
  }

  /**
   * On a rendered image a tick towards the user grows it exactly when it is
   * at least 10 pixels wide and below the cap; a tick away shrinks every
   * image wider than 0. The cap is never passed.
   */
  lemma CappedWheelBounds(w: nat, deltaY: int)
    requires w <= MaxWidth
    ensures CappedWheel(w, deltaY) <= MaxWidth
    ensures deltaY < 0 ==> w <= CappedWheel(w, deltaY) && (w < CappedWheel(w, deltaY) <==> 10 <= w < MaxWidth)
    ensures deltaY >= 0 ==> CappedWheel(w, deltaY) <= w && (CappedWheel(w, deltaY) < w <==> 1 <= w)
  {
    if deltaY < 0 {
      WheelUpGrows(w, deltaY);
    } else {
      WheelDownShrinks(w, deltaY);
    }
  }

  /** A new image: at the drop point, rendered at most 300 wide, ready to grab. */
  function Create(src: string, x: int, y: int, naturalWidth: nat): PlainImage {
    PlainImage(src, x, y, Rendered(naturalWidth), Grab, Idle)
  }

  /** A mousemove as one element's document listener sees it. */
  function Move(e: PlainImage, clientX: int, clientY: int): (r: PlainImage)
    ensures e.drag.Idle? ==> r == e
    ensures e.drag.Dragging? ==> r == e.(left := clientX - e.drag.offsetX, top := clientY - e.drag.offsetY)
  {
    if e.drag.Dragging? then
      var (left, top) := DragTo(e.drag, clientX, clientY);
      e.(left := left, top := top)
    else e
  }

  /** A mouseup as one element's document listener sees it: whether or not it was dragged. */
  function Release(e: PlainImage): PlainImage {
    e.(drag := Idle, cursor := Grab)
  }

  /** Every image is within the cap, and shows the grabbing cursor exactly while it is dragged. */
  predicate WellShown(e: PlainImage) {
    e.width <= MaxWidth && (e.cursor == Grabbing <==> e.drag.Dragging?)
  }

  /** The overlay and its images, in document order. */
  class Canvas {
    var images: seq<PlainImage>

    ghost predicate Valid()
      reads this
    {
      forall k :: 0 <= k < |images| ==> WellShown(images[k])
    }

    /** The overlay is created empty when the script starts. */
    constructor ()
      ensures Valid() && images == []
    {
      images := [];
    }

    /** dragover: the default is always suppressed so that a drop can happen. */
    method DragOver() returns (defaultPrevented: bool)
      ensures defaultPrevented
    {
      defaultPrevented := true;
    }

    /**
     * handleDrop: the default is suppressed, and each image file, in drop
     * order, starts one read placed at the drop point; other files are skipped.
     */
    method Drop(files: seq<DroppedFile>, clientX: int, clientY: int)
      returns (pending: seq<PendingRead>, defaultPrevented: bool)
      ensures defaultPrevented
      ensures pending == ReadsAt(ImageFiles(files), clientX, clientY)
    {
      defaultPrevented := true;
      pending := [];
      for i := 0 to |files|
        invariant pending == ReadsAt(ImageFiles(files[..i]), clientX, clientY)
      {
        DropStep(files, i, clientX, clientY);
        if IsImage(files[i]) {
          pending := pending + [PendingRead(files[i], clientX, clientY)];
        }
      }
      assert files[..|files|] == files;
    }

    /** A read completes: its image is appended to the overlay. */
    method ReadLoaded(p: PendingRead, dataUrl: string, naturalWidth: nat)
      requires Valid()
      modifies this
      ensures Valid()
      ensures images == old(images) + [Create(dataUrl, p.clientX, p.clientY, naturalWidth)]
    {
      images := images + [Create(dataUrl, p.clientX, p.clientY, naturalWidth)];
    }

    /** A wheel tick on image `k` rescales it, within the cap. */
    method Wheel(k: int, deltaY: int)
      requires Valid() && 0 <= k < |images|
      modifies this
      ensures Valid()
      ensures images == old(images)[k := old(images[k]).(width := CappedWheel(old(images[k].width), deltaY))]
    {
      images := images[k := images[k].(width := CappedWheel(images[k].width, deltaY))];
    }

    /** A double-click removes image `k` and no other. */
    method DoubleClick(k: int)
      requires Valid() && 0 <= k < |images|
      modifies this
      ensures Valid()
      ensures images == old(images[..k] + images[k + 1..])
    {
      images := images[..k] + images[k + 1..];
    }

    /** mousedown on image `k`: its drag starts and the cursor becomes grabbing. */
    method MouseDown(k: int, clientX: int, clientY: int)
      requires Valid() && 0 <= k < |images|
      modifies this
      ensures Valid()
      ensures images == old(images)[k := old(images[k]).(drag := Press(clientX, clientY, old(images[k].left), old(images[k].top)), cursor := Grabbing)]
    {
      var e := images[k];
      images := images[k := e.(drag := Press(clientX, clientY, e.left, e.top), cursor := Grabbing)];
    }

    /** mousemove: every dragged image follows the pointer; the others stay. */
    method MouseMove(clientX: int, clientY: int)
      requires Valid()
      modifies this
      ensures Valid()
      ensures |images| == |old(images)|
      ensures forall k :: 0 <= k < |images| ==> images[k] == Move(old(images[k]), clientX, clientY)
    {
      for i := 0 to |images|
        invariant |images| == |old(images)|
        invariant forall j :: 0 <= j < i ==> images[j] == Move(old(images[j]), clientX, clientY)
        invariant forall j :: i <= j < |images| ==> images[j] == old(images[j])
      {
        if images[i].drag.Dragging? {
          images := images[i := Move(images[i], clientX, clientY)];
        }
      }
    }

    /** mouseup: every image stops dragging and shows the grab cursor, whether it was dragged or not. */
    method MouseUp()
      requires Valid()
      modifies this
      ensures Valid()
      ensures |images| == |old(images)|
      ensures forall k :: 0 <= k < |images| ==> images[k] == Release(old(images[k]))
    {
      for i := 0 to |images|
        invariant |images| == |old(images)|
        invariant forall j :: 0 <= j < i ==> images[j] == Release(old(images[j]))
        invariant forall j :: i <= j < |images| ==> images[j] == old(images[j])
      {
        images := images[i := Release(images[i])];
      }
    }
  }

  /**
   * After a mouseup no image is dragged or shows the grabbing cursor, none
   * has moved or been resized, and later mousemoves leave it where it is.
   */
  lemma ReleaseSettles(e: PlainImage, clientX: int, clientY: int)
    ensures Release(e).drag.Idle? && Release(e).cursor == Grab
    ensures Release(e).left == e.left && Release(e).top == e.top && Release(e).width == e.width
    ensures Move(Release(e), clientX, clientY) == Release(e)
  {
  }
}
