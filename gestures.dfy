/**
 * The pointer arithmetic both floating-image canvases share: the wheel
 * resize of an image's `width` and the drag offset captured at mousedown.
 */
module Gestures {
  /**
   * `img.width *= e.deltaY < 0 ? 1.1 : 0.9`. `img.width` is an unsigned
   * integer attribute, so the scaled value is truncated when it is stored.
   */
  function WheelWidth(w: nat, deltaY: int): (r: nat)
    ensures deltaY < 0 ==> 10 * r <= 11 * w < 10 * r + 10
    ensures deltaY >= 0 ==> 10 * r <= 9 * w < 10 * r + 10
  {
    if deltaY < 0 then w * 11 / 10 else w * 9 / 10
  }

  /**
   * A tick towards the user (deltaY < 0) never shrinks an image and grows
   * it exactly when it is at least 10 pixels wide; narrower images stay put
   * because a tenth of their width truncates away.
   */
  lemma WheelUpGrows(w: nat, deltaY: int)
    requires deltaY < 0
    ensures WheelWidth(w, deltaY) >= w
    ensures WheelWidth(w, deltaY) > w <==> w >= 10
  {
  }

  /** A tick away from the user shrinks every image that has a width at all. */
  lemma WheelDownShrinks(w: nat, deltaY: int)
    requires deltaY >= 0
    ensures WheelWidth(w, deltaY) <= w
    ensures WheelWidth(w, deltaY) < w <==> w >= 1
  {
  }

  /** Wider images stay at least as wide after the same tick. */
  lemma WheelMonotone(w1: nat, w2: nat, deltaY: int)
    requires w1 <= w2
    ensures WheelWidth(w1, deltaY) <= WheelWidth(w2, deltaY)
  {
  }

  /** The width after `n` ticks in the same direction. */
  function WheelTicks(w: nat, deltaY: int, n: nat): nat {
    if n == 0 then w else WheelWidth(WheelTicks(w, deltaY, n - 1), deltaY)
  }

  /** Consecutive ticks towards the user strictly grow an image of width 10 or more. */
  lemma {:induction false} WheelTicksGrow(w: nat, deltaY: int, n: nat)
    requires deltaY < 0 && w >= 10
    ensures WheelTicks(w, deltaY, n) >= w + n
  {
    if n > 0 {
      WheelTicksGrow(w, deltaY, n - 1);
      WheelUpGrows(WheelTicks(w, deltaY, n - 1), deltaY);
    }
  }

  /** Consecutive ticks away from the user strictly shrink an image until it has width 0. */
  lemma {:induction false} WheelTicksShrink(w: nat, deltaY: int, n: nat)
    requires deltaY >= 0 && n <= w
    ensures WheelTicks(w, deltaY, n) <= w - n
  {
    if n > 0 {
      WheelTicksShrink(w, deltaY, n - 1);
      WheelDownShrinks(WheelTicks(w, deltaY, n - 1), deltaY);
    }
  }

  /** The drag state of one image: the pointer offset is captured at mousedown. */
  datatype DragState = Idle | Dragging(offsetX: int, offsetY: int)

  /** mousedown: the offset from the element's top-left corner to the pointer. */
  function Press(clientX: int, clientY: int, left: int, top: int): DragState {
    Dragging(clientX - left, clientY - top)
  }

  /** The element's top-left corner for a pointer position while dragging. */
  function DragTo(d: DragState, clientX: int, clientY: int): (int, int)
    requires d.Dragging?
  {
    (clientX - d.offsetX, clientY - d.offsetY)
  }

  /**
   * Pressing inside an element and moving the pointer moves the element by
   * exactly the pointer's displacement: the grip point stays under the pointer.
   */
  lemma DragFollowsPointer(left: int, top: int, pressX: int, pressY: int, moveX: int, moveY: int)
    ensures DragTo(Press(pressX, pressY, left, top), moveX, moveY)
            == (left + (moveX - pressX), top + (moveY - pressY))
  {
  }
}

/** The files of a drop event, and the `file.type.startsWith('image/')` filter. */
module DroppedFiles {
  import opened JsText

  /** A dropped file: its name and its declared MIME type. */
  datatype DroppedFile = DroppedFile(name: string, mimeType: string)

  predicate IsImage(f: DroppedFile) {
    StartsWith(f.mimeType, "image/")
  }

  /** The image files of a drop, in drop order. */
  function ImageFiles(files: seq<DroppedFile>): (r: seq<DroppedFile>)
    ensures |r| <= |files|
    ensures forall f :: f in r ==> f in files && IsImage(f)
  {
    if files == [] then []
    else (if IsImage(files[0]) then [files[0]] else []) + ImageFiles(files[1..])
  }

  lemma {:induction false} ImageFilesAppend(a: seq<DroppedFile>, b: seq<DroppedFile>)
    ensures ImageFiles(a + b) == ImageFiles(a) + ImageFiles(b)
  {
    if a == [] {
      assert a + b == b;
    } else {
      assert (a + b)[0] == a[0];
      assert (a + b)[1..] == a[1..] + b;
      ImageFilesAppend(a[1..], b);
    }
  }

  /** Every image file of the drop is kept, as often as it was dropped; nothing else is. */
  lemma {:induction false} ImageFilesCount(files: seq<DroppedFile>, f: DroppedFile)
    ensures multiset(ImageFiles(files))[f] == if IsImage(f) then multiset(files)[f] else 0
  {
    if files != [] {
      ImageFilesCount(files[1..], f);
      assert files == [files[0]] + files[1..];
    }
  }

  /** A file read the drop handler started: the file and the drop point. */
  datatype PendingRead = PendingRead(file: DroppedFile, clientX: int, clientY: int)

  /** One read per file, all at the drop point. */
  function ReadsAt(files: seq<DroppedFile>, clientX: int, clientY: int): (r: seq<PendingRead>)
    ensures |r| == |files|
    ensures forall k :: 0 <= k < |r| ==> r[k].file == files[k] && r[k].clientX == clientX && r[k].clientY == clientY
  {
    seq(|files|, k requires 0 <= k < |files| => PendingRead(files[k], clientX, clientY))
  }
  /** Reading two batches of files is reading their concatenation. */
  lemma ReadsAtAppend(a: seq<DroppedFile>, b: seq<DroppedFile>, clientX: int, clientY: int)
    ensures ReadsAt(a + b, clientX, clientY) == ReadsAt(a, clientX, clientY) + ReadsAt(b, clientX, clientY)
  {
    var l, r := ReadsAt(a + b, clientX, clientY), ReadsAt(a, clientX, clientY) + ReadsAt(b, clientX, clientY);
    assert |l| == |r|;
    forall k | 0 <= k < |l|
      ensures l[k] == r[k]
    {
      if k < |a| {
        assert (a + b)[k] == a[k];
      } else {
        assert (a + b)[k] == b[k - |a|];
      }
    }
  }

  /** One more dropped file adds one read exactly when it is an image. */
  lemma DropStep(files: seq<DroppedFile>, i: int, clientX: int, clientY: int)
    requires 0 <= i < |files|
    ensures ReadsAt(ImageFiles(files[..i + 1]), clientX, clientY)
            == ReadsAt(ImageFiles(files[..i]), clientX, clientY)
               + (if IsImage(files[i]) then [PendingRead(files[i], clientX, clientY)] else [])
  {
    assert files[..i + 1] == files[..i] + [files[i]];
    ImageFilesAppend(files[..i], [files[i]]);
    assert [files[i]][1..] == [];
    var last := if IsImage(files[i]) then [files[i]] else [];
    assert ImageFiles([files[i]]) == last;
    ReadsAtAppend(ImageFiles(files[..i]), last, clientX, clientY);
    assert ReadsAt(last, clientX, clientY) == (if IsImage(files[i]) then [PendingRead(files[i], clientX, clientY)] else []);
  }
}
