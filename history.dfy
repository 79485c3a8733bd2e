/**
 * The editor's bounded linear history (js/master-editor-complete.js,
 * saveState, undo, redo, restoreState): a list of snapshots and a cursor.
 */
module History {
  import opened Arith
  import opened Layers

  /** One saved state: a copy of every layer plus the active index and the canvas size. */
  datatype HistoryEntry = HistoryEntry(
    description: string,
    timestamp: int,
    layers: seq<Layer>,
    activeLayerIndex: int,
    canvasWidth: int,
    canvasHeight: int)

  /** The editor's `maxHistorySteps`. */
  const MaxHistorySteps: int := 50

  /**
   * A document the editor can be in: at least one well-formed layer, an
   * active index inside the list, ids unique and handed out by the counter.
   */
  predicate Document(layers: seq<Layer>, active: int, counter: int)
  {
    1 <= |layers| && 0 <= active < |layers| && 0 <= counter &&
    (forall i :: 0 <= i < |layers| ==> WellFormed(layers[i])) &&
    UniqueIds(layers) && IdsAtMost(layers, counter)
  }

  /** An entry saveState can have written while the id counter was at most `counter`. */
  predicate SavedDocument(e: HistoryEntry, counter: int)
  {
    Document(e.layers, e.activeLayerIndex, counter) && 0 < e.canvasWidth && 0 < e.canvasHeight
  }

  /**
   * saveState's effect on the list and the cursor: the entries after the
   * cursor are dropped, the new entry is appended, and past the maximum the
   * oldest entry is evicted with the cursor moving down with it.
   */
  function Saved(entries: seq<HistoryEntry>, step: int, entry: HistoryEntry, max: int): (r: (seq<HistoryEntry>, int))
    requires -1 <= step < |entries| && 1 <= max
  {
    var kept := entries[..step + 1] + [entry];
    if |kept| > max then (kept[1..], step) else (kept, step + 1)
  }

  /**
   * restoreState's copy of one stored layer: createLayer with the stored
   * name and size (so id `created` is taken from the counter), then the
   * stored id, flags and pixels written over it.
   */
  function RestoredLayer(stored: Layer, created: nat, canvasWidth: int, canvasHeight: int): (l: Layer)
    requires WellFormed(stored) && 0 < canvasWidth && 0 < canvasHeight
  {
    var made := NewLayer(created, stored.name, stored.width, stored.height, canvasWidth, canvasHeight);
    made.(id := stored.id, visible := stored.visible, opacity := stored.opacity,
           blendMode := stored.blendMode, locked := stored.locked, pixels := stored.pixels)
  }

  /** The layer list restoreState rebuilds, the counter starting at `counter`. */
  function RestoredLayers(stored: seq<Layer>, counter: nat, canvasWidth: int, canvasHeight: int): (r: seq<Layer>)
    requires (forall i :: 0 <= i < |stored| ==> WellFormed(stored[i])) && 0 < canvasWidth && 0 < canvasHeight
    ensures |r| == |stored|
  {
    seq(|stored|, i requires 0 <= i < |stored| => RestoredLayer(stored[i], counter + i + 1, canvasWidth, canvasHeight))
  }

  /** The canvas size after restoreState: the stored size when both dimensions are non-zero. */
  function RestoredCanvas(e: HistoryEntry, canvasWidth: int, canvasHeight: int): (int, int)
  {
    if e.canvasWidth != 0 && e.canvasHeight != 0 then (e.canvasWidth, e.canvasHeight) else (canvasWidth, canvasHeight)
  }

  // ---------- properties ----------

  /**
   * After saveState the cursor is on the new entry, which is the last one;
   * the list never grows past the maximum; what stays before the new entry
   * is the old history up to the cursor, minus at most its oldest entry.
   */
  lemma SavedShape(entries: seq<HistoryEntry>, step: int, entry: HistoryEntry, max: int)
    requires -1 <= step < |entries| <= max && 1 <= max
    ensures var (h, s) := Saved(entries, step, entry, max);
      s == |h| - 1 && |h| <= max && h[s] == entry &&
      |h| == Min(step + 2, max) &&
      h[..s] == entries[step + 2 - |h|..step + 1]
  {
    var kept := entries[..step + 1] + [entry];
    var (h, s) := Saved(entries, step, entry, max);
    assert kept[..|kept| - 1] == entries[..step + 1];
    if |kept| > max {
      assert h[..s] == kept[1..|kept| - 1];
    }
  }

  /** Saving from the middle of the history leaves nothing to redo. */
  lemma SavedDropsRedo(entries: seq<HistoryEntry>, step: int, entry: HistoryEntry, max: int)
    requires -1 <= step < |entries| <= max && 1 <= max
    ensures var (h, s) := Saved(entries, step, entry, max); !(s < |h| - 1)
  {
    SavedShape(entries, step, entry, max);
  }

  /** Saved entries describe documents; the counter may only have grown since. */
  lemma SavedKeepsDocuments(entries: seq<HistoryEntry>, step: int, entry: HistoryEntry, max: int, counter: int)
    requires -1 <= step < |entries| <= max && 1 <= max
    requires forall i :: 0 <= i < |entries| ==> SavedDocument(entries[i], counter)
    requires SavedDocument(entry, counter)
    ensures var h := Saved(entries, step, entry, max).0; forall i :: 0 <= i < |h| ==> SavedDocument(h[i], counter)
  {
    var kept := entries[..step + 1] + [entry];
    assert forall i :: 0 <= i < |kept| ==> SavedDocument(kept[i], counter);
  }

  /**
   * Undo or redo to a snapshot of a document gives that document back:
   * the same layers in the same order with the same ids, names, pixels and
   * flags, the same active index and canvas size. Only the id counter moves,
   * by one per restored layer.
   */
  lemma RestoreSnapshot(layers: seq<Layer>, active: int, counter: nat, canvasWidth: int, canvasHeight: int,
                        description: string, timestamp: int, w0: int, h0: int)
    requires Document(layers, active, counter) && 0 < canvasWidth && 0 < canvasHeight && 0 < w0 && 0 < h0
    ensures var e := HistoryEntry(description, timestamp, layers, active, canvasWidth, canvasHeight);
      RestoredCanvas(e, w0, h0) == (canvasWidth, canvasHeight) &&
      RestoredLayers(e.layers, counter, canvasWidth, canvasHeight) == layers &&
      Min(e.activeLayerIndex, |layers| - 1) == active
  {
    var r := RestoredLayers(layers, counter, canvasWidth, canvasHeight);
    forall i | 0 <= i < |layers|
      ensures r[i] == layers[i]
    {
      assert WellFormed(layers[i]);
    }
  }

  /** Restoring an entry yields a document with the stored ids, and the stored layers are reached in order. */
  lemma RestoredDocument(e: HistoryEntry, counter: nat, canvasWidth: int, canvasHeight: int)
    requires SavedDocument(e, counter) && 0 < canvasWidth && 0 < canvasHeight
    ensures var (w, h) := RestoredCanvas(e, canvasWidth, canvasHeight);
      var r := RestoredLayers(e.layers, counter, w, h);
      Document(r, Min(e.activeLayerIndex, |r| - 1), counter + |r|) &&
      forall i :: 0 <= i < |r| ==> r[i].id == e.layers[i].id && r[i].pixels == e.layers[i].pixels
  {
    var (w, h) := RestoredCanvas(e, canvasWidth, canvasHeight);
    var r := RestoredLayers(e.layers, counter, w, h);
    forall i | 0 <= i < |r|
      ensures WellFormed(r[i]) && r[i].id == e.layers[i].id
    {
      assert WellFormed(e.layers[i]);
    }
  }

  /** addLayer keeps a document: the new layer carries the next id and becomes the active one. */
  lemma InsertedDocument(layers: seq<Layer>, active: int, counter: int, layer: Layer, insertIndex: int)
    requires Document(layers, active, counter) && WellFormed(layer) && layer.id == counter + 1
    requires insertIndex == -1 || 0 <= insertIndex
    ensures var (r, a) := Inserted(layers, layer, insertIndex); Document(r, a, counter + 1)
  {
    InsertedFreshId(layers, layer, insertIndex, counter);
    InsertedThenRemoved(layers, layer, insertIndex);
    var (r, a) := Inserted(layers, layer, insertIndex);
    forall i | 0 <= i < |r|
      ensures WellFormed(r[i])
    {
      if i != a {
        assert Removed(r, a)[if i < a then i else i - 1] == r[i];
      }
    }
  }

  /** removeLayer on a list of two or more keeps a document once the active index is pulled back into the list. */
  lemma RemovedDocument(layers: seq<Layer>, active: int, counter: int, index: int)
    requires Document(layers, active, counter) && 0 <= index < |layers| && 2 <= |layers|
    ensures var r := Removed(layers, index); Document(r, Min(active, |r| - 1), counter)
  {
    RemovedIds(layers, index, counter);
    var r := Removed(layers, index);
    forall i | 0 <= i < |r|
      ensures WellFormed(r[i])
    {
      assert r[i] == layers[if i < index then i else i + 1];
    }
  }

  /** Replacing one layer by a well-formed layer with the same id keeps a document. */
  lemma UpdatedDocument(layers: seq<Layer>, active: int, counter: int, index: int, l: Layer)
    requires Document(layers, active, counter) && 0 <= index < |layers| && WellFormed(l) && l.id == layers[index].id
    ensures Document(layers[index := l], active, counter)
  {
    var r := layers[index := l];
    forall i, j | 0 <= i < j < |r|
      ensures r[i].id != r[j].id
    {
      assert r[i].id == layers[i].id && r[j].id == layers[j].id;
    }
  }

  /** Entries saved under a counter stay valid once the counter has grown. */
  lemma CounterGrows(entries: seq<HistoryEntry>, counter: int, grown: int)
    requires counter <= grown && forall i :: 0 <= i < |entries| ==> SavedDocument(entries[i], counter)
    ensures forall i :: 0 <= i < |entries| ==> SavedDocument(entries[i], grown)
  {
  }
}
