/**
 * The Instagram floating-image canvas: the page state of the script (the
 * current thread, its overlay of floating images and localStorage) and the
 * handlers that change it — navigation checks, wheel, double-click, the
 * mouse drag and the file drop.
 */
module IgCanvas {
  import opened Maybe
  import opened Gestures
  import opened DroppedFiles
  import opened IgThread
  import opened IgStore

  /** The width a dropped image is stored with. */
  const DefaultWidth: nat := 300

  /**
   * One `<img>` of the overlay: its `data-id`, `src`, `style.left`/`style.top`,
   * `width`, and the drag closure `makeDraggable` attached to it.
   */
  datatype FloatingImage = FloatingImage(id: string, src: string, left: int, top: int, width: nat, drag: DragState)

  /**
   * The element shows the record: same id, source and width, and the same
   * position unless a drag has moved it and not yet been committed.
   */
  predicate Shows(e: FloatingImage, r: ImageRecord) {
    e.id == r.id && e.src == r.src && e.width == r.width
    && (e.drag.Idle? ==> e.left == r.x && e.top == r.y)
  }

  /** The overlay shows the stored list, element by element, in order. */
  predicate InSync(es: seq<FloatingImage>, rs: seq<ImageRecord>) {
    |es| == |rs| && forall k :: 0 <= k < |es| ==> Shows(es[k], rs[k])
  }

  /** Every list stored under any key has unique ids (each one a fresh UUID). */
  ghost predicate WellFormed(st: Storage) {
    forall key :: key in st && st[key].Serialized? ==> UniqueIds(st[key].records)
  }

  /** Whatever loads from a well-formed storage has unique ids. */
  lemma LoadUnique(st: Storage, key: string)
    requires WellFormed(st)
    ensures UniqueIds(Load(st, key))
  {
  }

  /** Writing a list with unique ids keeps the storage well formed. */
  lemma SaveWellFormed(st: Storage, key: string, rs: seq<ImageRecord>)
    requires WellFormed(st) && UniqueIds(rs)
    ensures WellFormed(Save(st, key, rs))
  {
  }

  /** createFloatingImage: an element at the record's position with its width, not being dragged. */
  function Render(r: ImageRecord): (e: FloatingImage)
    ensures e.drag.Idle? && Shows(e, r)
  {
    FloatingImage(r.id, r.src, r.x, r.y, r.width, Idle)
  }

  /** A mousemove: every element whose drag is in progress follows the pointer. */
  function Move(e: FloatingImage, clientX: int, clientY: int): FloatingImage {
    if e.drag.Dragging? then
      var (left, top) := DragTo(e.drag, clientX, clientY);
      e.(left := left, top := top)
    else e
  }

  function MoveAll(es: seq<FloatingImage>, clientX: int, clientY: int): (r: seq<FloatingImage>)
    ensures |r| == |es|
  {
    seq(|es|, k requires 0 <= k < |es| => Move(es[k], clientX, clientY))
  }

  /** A mousemove changes positions only, and only of dragged elements; the overlay keeps showing the store. */
  lemma MoveKeepsSync(es: seq<FloatingImage>, rs: seq<ImageRecord>, clientX: int, clientY: int)
    requires InSync(es, rs)
    ensures InSync(MoveAll(es, clientX, clientY), rs)
    ensures forall k :: 0 <= k < |es| && es[k].drag.Idle? ==> MoveAll(es, clientX, clientY)[k] == es[k]
  {
  }

  /** The fields a mouseup commits: the element's final left and top. */
  function DragPatch(e: FloatingImage): Patch {
    Patch(Some(e.left), Some(e.top), None)
  }

  /** The stored list once the first `n` elements have handled a mouseup. */
  function Committed(rs: seq<ImageRecord>, es: seq<FloatingImage>, n: int): (r: seq<ImageRecord>)
    requires |es| == |rs|
    ensures |r| == |rs|
  {
    seq(|rs|, j requires 0 <= j < |rs| =>
      if j < n && es[j].drag.Dragging? then Merge(rs[j], DragPatch(es[j])) else rs[j])
  }

  /** A commit keeps every id where it was, so unique ids stay unique. */
  lemma CommittedIds(rs: seq<ImageRecord>, es: seq<FloatingImage>, n: int)
    requires |es| == |rs| && UniqueIds(rs)
    ensures UniqueIds(Committed(rs, es, n))
  {
    var c := Committed(rs, es, n);
    assert forall j :: 0 <= j < |c| ==> c[j].id == rs[j].id;
  }

  /**
   * The mouseup of element `n`, while it is being dragged, rewrites exactly
   * record `n` with the element's position.
   */
  lemma CommitStep(rs: seq<ImageRecord>, es: seq<FloatingImage>, n: int)
    requires InSync(es, rs) && UniqueIds(rs) && 0 <= n < |rs| && es[n].drag.Dragging?
    ensures UpdateRecords(Committed(rs, es, n), es[n].id, DragPatch(es[n])) == Some(Committed(rs, es, n + 1))
    ensures UniqueIds(Committed(rs, es, n + 1))
  {
    var c := Committed(rs, es, n);
    assert c[n] == rs[n];
    CommittedIds(rs, es, n);
    CommittedIds(rs, es, n + 1);
    UpdateUnique(c, n, DragPatch(es[n]));
    assert c[n := Merge(c[n], DragPatch(es[n]))] == Committed(rs, es, n + 1);
  }

  predicate NoneDragging(es: seq<FloatingImage>) {
    forall k :: 0 <= k < |es| ==> es[k].drag.Idle?
  }

  lemma NoneDraggingExtend(es: seq<FloatingImage>, i: int)
    requires 0 <= i < |es|
    ensures NoneDragging(es[..i + 1]) <==> NoneDragging(es[..i]) && es[i].drag.Idle?
  {
    assert es[..i + 1][i] == es[i];
    assert forall j :: 0 <= j < i ==> es[..i + 1][j] == es[..i][j];
  }

  /** A mouseup: every element's drag ends. */
  function ReleaseAll(es: seq<FloatingImage>): (r: seq<FloatingImage>)
    ensures |r| == |es| && NoneDragging(r)
  {
    seq(|es|, k requires 0 <= k < |es| => es[k].(drag := Idle))
  }

  /** After a mouseup no element is dragged and each committed position is what the store holds. */
  lemma ReleaseKeepsSync(es: seq<FloatingImage>, rs: seq<ImageRecord>)
    requires InSync(es, rs)
    ensures InSync(ReleaseAll(es), Committed(rs, es, |es|))
  {
  }

  /**
   * One dragged element's mouseup on the storage: the current key ends up
   * holding the list with one more position committed, and no other key
   * differs from the storage before the mouseup.
   */
  lemma CommitStorageStep(st0: Storage, st: Storage, written: bool, key: string,
                          rs: seq<ImageRecord>, es: seq<FloatingImage>, i: int)
    requires InSync(es, rs) && UniqueIds(rs) && 0 <= i < |rs| && es[i].drag.Dragging?
    requires Load(st, key) == Committed(rs, es, i)
    requires st == if written then st0[key := Encode(Committed(rs, es, i))] else st0
    ensures UpdateStorage(st, key, es[i].id, DragPatch(es[i])) == st0[key := Encode(Committed(rs, es, i + 1))]
  {
    CommitStep(rs, es, i);
  }

  /** The record a completed read stores. */
  function NewRecord(p: PendingRead, dataUrl: string, freshId: string): ImageRecord {
    ImageRecord(freshId, dataUrl, p.clientX, p.clientY, DefaultWidth)
  }

  /**
   * The script's page state. `overlay` is `None` until the first valid
   * thread is opened (the `overlay = null` of the script); afterwards it
   * holds the images of the overlay element in document order.
   */
  class InstagramCanvas {
    var storage: Storage
    var currentThreadId: Option<string>
    var overlay: Option<seq<FloatingImage>>

    /**
     * The overlay exists exactly once a thread is current, the thread is a
     * valid one, and the overlay shows what is stored under its key.
     */
    ghost predicate Valid()
      reads this
    {
      WellFormed(storage)
      && (currentThreadId.None? <==> overlay.None?)
      && (currentThreadId.Some? ==>
            currentThreadId.value in ValidThreadIds && InSync(overlay.value, LoadState()))
    }

    /** storageKey() for the current thread. */
    function Key(): string
      reads this
    {
      StorageKey(currentThreadId)
    }

    /** loadState() for the current thread. */
    function LoadState(): seq<ImageRecord>
      reads this
    {
      Load(storage, Key())
    }

    /** The page as the script finds it: no thread, no overlay, whatever localStorage holds. */
    constructor (initial: Storage)
      requires WellFormed(initial)
      ensures Valid()
      ensures storage == initial && currentThreadId.None? && overlay.None?
    {
      storage := initial;
      currentThreadId := None;
      overlay := None;
    }

    /**
     * checkThreadChange, run on start-up and on every navigation: a new
     * valid thread becomes current and gets a fresh overlay showing its
     * stored images; any other path changes nothing.
     */
    method CheckThreadChange(path: string)
      requires Valid()
      modifies this
      ensures Valid()
      ensures currentThreadId == NextThread(old(currentThreadId), path)
      ensures storage == old(storage)
      ensures Switches(old(currentThreadId), path) ==> overlay == Some(RenderAll(LoadState()))
      ensures !Switches(old(currentThreadId), path) ==> overlay == old(overlay)
    {
      var threadId := GetThreadId(path);
      if threadId.Some? && threadId != currentThreadId && threadId.value in ValidThreadIds {
        currentThreadId := threadId;
        overlay := Some([]);
        RestoreImages();
        RenderAllSync(LoadState());
      }
    }

    /** restoreImages: one element per stored record, appended in order. */
    method RestoreImages()
      requires overlay.Some?
      modifies this
      ensures overlay == Some(RenderAll(LoadState()))
      ensures storage == old(storage) && currentThreadId == old(currentThreadId)
    {
      var state := LoadState();
      overlay := Some([]);
      for i := 0 to |state|
        invariant storage == old(storage) && currentThreadId == old(currentThreadId)
        invariant overlay.Some? && |overlay.value| == i
        invariant forall k :: 0 <= k < i ==> overlay.value[k] == Render(state[k])
      {
        overlay := Some(overlay.value + [Render(state[i])]);
      }
      assert overlay.value == RenderAll(state);
    }

    /** updateImage(id, data) on the current key. */
    method UpdateImage(id: string, p: Patch)
      modifies this
      ensures storage == UpdateStorage(old(storage), Key(), id, p)
      ensures currentThreadId == old(currentThreadId) && overlay == old(overlay)
    {
      var state := LoadState();
      var found := FindById(state, id);
      if found.None? {
        return;
      }
      var k := found.value;
      state := state[k := Merge(state[k], p)];
      storage := Save(storage, Key(), state);
    }

    /** removeImage(id) on the current key: the filtered list is written back. */
    method RemoveImage(id: string)
      modifies this
      ensures storage == RemoveStorage(old(storage), Key(), id)
      ensures currentThreadId == old(currentThreadId) && overlay == old(overlay)
    {
      storage := Save(storage, Key(), RemoveRecords(LoadState(), id));
    }

    /** A wheel tick on element `k` rescales it and persists the new width at once. */
    method Wheel(k: int, deltaY: int)
      requires Valid() && overlay.Some? && 0 <= k < |overlay.value|
      modifies this
      ensures Valid()
      ensures currentThreadId == old(currentThreadId)
      ensures overlay == Some(old(overlay.value)[k := old(overlay.value[k]).(width := WheelWidth(old(overlay.value[k].width), deltaY))])
      ensures storage == UpdateStorage(old(storage), Key(), old(overlay.value[k].id),
                                       Patch(None, None, Some(WheelWidth(old(overlay.value[k].width), deltaY))))
      ensures LoadState() == old(LoadState()[k := LoadState()[k].(width := WheelWidth(overlay.value[k].width, deltaY))])
    {
      var e := overlay.value[k];
      var w := WheelWidth(e.width, deltaY);
      ghost var rs := LoadState();
      LoadUnique(storage, Key());
      overlay := Some(overlay.value[k := e.(width := w)]);
      UpdateUnique(rs, k, Patch(None, None, Some(w)));
      UpdateImage(e.id, Patch(None, None, Some(w)));
      assert LoadState() == rs[k := Merge(rs[k], Patch(None, None, Some(w)))];
    }

    /** A double-click on element `k` drops its records from the store and removes the element. */
    method DoubleClick(k: int)
      requires Valid() && overlay.Some? && 0 <= k < |overlay.value|
      modifies this
      ensures Valid()
      ensures currentThreadId == old(currentThreadId)
      ensures overlay == Some(old(overlay.value[..k] + overlay.value[k + 1..]))
      ensures storage == RemoveStorage(old(storage), Key(), old(overlay.value[k].id))
      ensures LoadState() == old(LoadState()[..k] + LoadState()[k + 1..])
    {
      ghost var rs := LoadState();
      var es := overlay.value;
      LoadUnique(storage, Key());
      RemoveUnique(rs, es[k].id, k);
      RemoveAtUnique(rs, k);
      RemoveImage(es[k].id);
      overlay := Some(es[..k] + es[k + 1..]);
      RemoveAtKeepsSync(es, rs, k);
    }

    /** mousedown on element `k`: its drag starts, gripped at the pointer. */
    method MouseDown(k: int, clientX: int, clientY: int)
      requires Valid() && overlay.Some? && 0 <= k < |overlay.value|
      modifies this
      ensures Valid()
      ensures storage == old(storage) && currentThreadId == old(currentThreadId)
      ensures overlay == Some(old(overlay.value)[k := old(overlay.value[k]).(drag := Press(clientX, clientY, overlay.value[k].left, overlay.value[k].top))])
    {
      var e := overlay.value[k];
      overlay := Some(overlay.value[k := e.(drag := Press(clientX, clientY, e.left, e.top))]);
    }

    /**
     * mousemove, as seen by the document listener of every element: each
     * element being dragged follows the pointer; nothing is stored.
     */
    method MouseMove(clientX: int, clientY: int)
      requires Valid()
      modifies this
      ensures Valid()
      ensures storage == old(storage) && currentThreadId == old(currentThreadId)
      ensures old(overlay).None? ==> overlay.None?
      ensures old(overlay).Some? ==> overlay == Some(MoveAll(old(overlay.value), clientX, clientY))
    {
      if overlay.None? {
        return;
      }
      var es := overlay.value;
      var out := es;
      for i := 0 to |es|
        invariant |out| == |es|
        invariant forall j :: 0 <= j < i ==> out[j] == Move(es[j], clientX, clientY)
        invariant forall j :: i <= j < |es| ==> out[j] == es[j]
      {
        if es[i].drag.Dragging? {
          out := out[i := Move(es[i], clientX, clientY)];
        }
      }
      assert out == MoveAll(es, clientX, clientY);
      MoveKeepsSync(es, LoadState(), clientX, clientY);
      overlay := Some(out);
    }

    /**
     * mouseup, as seen by the document listener of every element: each
     * element being dragged stops and commits its position; elements that
     * were not being dragged write nothing, and only the current key changes.
     */
    method MouseUp()
      requires Valid()
      modifies this
      ensures Valid()
      ensures currentThreadId == old(currentThreadId)
      ensures old(overlay).None? ==> overlay.None? && storage == old(storage)
      ensures old(overlay).Some? ==> overlay == Some(ReleaseAll(old(overlay).value))
      ensures old(overlay).Some? ==> LoadState() == Committed(old(LoadState()), old(overlay).value, |old(overlay).value|)
      ensures storage == old(storage) || storage == old(storage)[Key() := Encode(LoadState())]
      ensures old(overlay).Some? && NoneDragging(old(overlay).value) ==> storage == old(storage)
    {
      if overlay.None? {
        return;
      }
      var es := overlay.value;
      ghost var rs := LoadState();
      LoadUnique(storage, Key());
      CommitDrags(es, rs);
      CommittedIds(rs, es, |es|);
      SaveWellFormed(old(storage), Key(), Committed(rs, es, |es|));
      ReleaseKeepsSync(es, rs);
      overlay := Some(ReleaseAll(es));
    }

    /**
     * The commits of a mouseup, element by element in document order: each
     * dragged element merges its position into its record under the current
     * key; the others write nothing.
     */
    method CommitDrags(es: seq<FloatingImage>, ghost rs: seq<ImageRecord>)
      requires InSync(es, rs) && UniqueIds(rs) && LoadState() == rs
      modifies this
      ensures currentThreadId == old(currentThreadId) && overlay == old(overlay)
      ensures LoadState() == Committed(rs, es, |es|)
      ensures storage == old(storage) || storage == old(storage)[Key() := Encode(Committed(rs, es, |es|))]
      ensures NoneDragging(es) ==> storage == old(storage)
    {
      var key := Key();
      var i := 0;
      ghost var written := false;
      while i < |es|
        invariant 0 <= i <= |es|
        invariant currentThreadId == old(currentThreadId) && overlay == old(overlay) && key == Key()
        invariant Load(storage, key) == Committed(rs, es, i)
        invariant storage == if written then old(storage)[key := Encode(Committed(rs, es, i))] else old(storage)
        invariant written <==> !NoneDragging(es[..i])
      {
        if es[i].drag.Dragging? {
          CommitStorageStep(old(storage), storage, written, key, rs, es, i);
          UpdateImage(es[i].id, DragPatch(es[i]));
          written := true;
        } else {
          assert Committed(rs, es, i + 1) == Committed(rs, es, i);
        }
        NoneDraggingExtend(es, i);
        i := i + 1;
      }
      assert es[..|es|] == es;
    }

    /**
     * The drop handler: nothing when no thread is current; otherwise one
     * read per image file, in drop order, all at the drop point.
     */
    method Drop(files: seq<DroppedFile>, clientX: int, clientY: int) returns (pending: seq<PendingRead>)
      ensures currentThreadId.None? ==> pending == []
      ensures currentThreadId.Some? ==> pending == ReadsAt(ImageFiles(files), clientX, clientY)
    {
      pending := [];
      if currentThreadId.None? {
        return;
      }
      for i := 0 to |files|
        invariant pending == ReadsAt(ImageFiles(files[..i]), clientX, clientY)
      {
        DropStep(files, i, clientX, clientY);
        if IsImage(files[i]) {
          pending := pending + [PendingRead(files[i], clientX, clientY)];
        }
      }
      assert files[..|files|] == files;
    }

    /**
     * A read completes: the record (a fresh id, the data URL, the drop point,
     * width 300) is appended to the list of the thread current now, and its
     * element to the overlay.
     */
    method ReadLoaded(p: PendingRead, dataUrl: string, freshId: string)
      requires Valid() && currentThreadId.Some?
      requires !HasId(LoadState(), freshId)
      modifies this
      ensures Valid()
      ensures currentThreadId == old(currentThreadId)
      ensures storage == AppendStorage(old(storage), Key(), NewRecord(p, dataUrl, freshId))
      ensures LoadState() == old(LoadState()) + [NewRecord(p, dataUrl, freshId)]
      ensures overlay == Some(old(overlay.value) + [Render(NewRecord(p, dataUrl, freshId))])
    {
      var r := NewRecord(p, dataUrl, freshId);
      var state := LoadState();
      LoadUnique(storage, Key());
      AppendFreshUnique(state, r);
      storage := Save(storage, Key(), state + [r]);
      overlay := Some(overlay.value + [Render(r)]);
    }
  }

  /** restoreImages: the elements of a freshly restored overlay. */
  function RenderAll(rs: seq<ImageRecord>): (es: seq<FloatingImage>)
    ensures |es| == |rs|
    ensures forall k :: 0 <= k < |es| ==> es[k] == Render(rs[k])
  {
    seq(|rs|, k requires 0 <= k < |rs| => Render(rs[k]))
  }

  /** A restored overlay shows the stored list, with no drag in progress. */
  lemma RenderAllSync(rs: seq<ImageRecord>)
    ensures InSync(RenderAll(rs), rs)
    ensures forall k :: 0 <= k < |rs| ==> RenderAll(rs)[k].drag.Idle?
  {
  }

  /** Removing element `k` and record `k` together keeps the overlay in step with the store. */
  lemma RemoveAtKeepsSync(es: seq<FloatingImage>, rs: seq<ImageRecord>, k: int)
    requires InSync(es, rs) && 0 <= k < |es|
    ensures InSync(es[..k] + es[k + 1..], rs[..k] + rs[k + 1..])
  {
    var es', rs' := es[..k] + es[k + 1..], rs[..k] + rs[k + 1..];
    forall j | 0 <= j < |es'|
      ensures Shows(es'[j], rs'[j])
    {
      if j < k {
        assert es'[j] == es[j] && rs'[j] == rs[j];
      } else {
        assert es'[j] == es[j + 1] && rs'[j] == rs[j + 1];
      }
    }
  }

  /** Removing one record of a list with unique ids leaves the ids unique. */
  lemma RemoveAtUnique(rs: seq<ImageRecord>, k: int)
    requires UniqueIds(rs) && 0 <= k < |rs|
    ensures UniqueIds(rs[..k] + rs[k + 1..])
  {
    var rs' := rs[..k] + rs[k + 1..];
    assert forall j :: 0 <= j < |rs'| ==> rs'[j] == (if j < k then rs[j] else rs[j + 1]);
  }
}
