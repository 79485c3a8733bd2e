/**
 * MasterImageEditor (js/master-editor-complete.js) without its canvases and
 * DOM: the layer list and active index, the id counter, the canvas size, the
 * history and its cursor, the drawing flag and the tool settings the tools
 * read. Each layer's canvas is reduced to its RGBA bytes.
 */
module Editor {
  import opened Wrappers
  import opened Arith
  import opened Colors
  import opened Pixels
  import opened Layers
  import opened History
  import Bucket = FloodFill

  /** The phase argument of executeToolAction: 'start', 'move' or 'end'. */
  datatype Phase = Start | Move | End

  /** The characters String.prototype.trim strips: ECMAScript's WhiteSpace and LineTerminator. */
  predicate IsTrimmable(ch: char)
  {
    ch == '\t' || ch == '\n' || ch == '\U{B}' || ch == '\U{C}' || ch == '\r' || ch == ' ' ||
    ch == '\U{A0}' || ch == '\U{1680}' || ('\U{2000}' <= ch <= '\U{200A}') || ch == '\U{2028}' ||
    ch == '\U{2029}' || ch == '\U{202F}' || ch == '\U{205F}' || ch == '\U{3000}' || ch == '\U{FEFF}'
  }

  /** String.prototype.trim: the text between the leading and the trailing run of such characters. */
  function Trim(s: string): (t: string)
    ensures |t| <= |s|
    ensures t != [] ==> !IsTrimmable(t[0]) && !IsTrimmable(t[|t| - 1])
    ensures s != [] && !IsTrimmable(s[0]) && !IsTrimmable(s[|s| - 1]) ==> t == s
    decreases |s|
  {
    if s != [] && IsTrimmable(s[0]) then Trim(s[1..])
    else if s != [] && IsTrimmable(s[|s| - 1]) then Trim(s[..|s| - 1])
    else s
  }

  /** Trimming twice trims no more than trimming once. */
  lemma TrimTwice(s: string)
    ensures Trim(Trim(s)) == Trim(s)
  {
  }

  /** `text.trim() === ''` exactly when every character of text is one trim strips. */
  lemma {:induction false} TrimEmpty(s: string)
    ensures Trim(s) == [] <==> forall i :: 0 <= i < |s| ==> IsTrimmable(s[i])
    decreases |s|
  {
    if s != [] && IsTrimmable(s[0]) {
      TrimEmpty(s[1..]);
      assert forall i :: 1 <= i < |s| ==> s[i] == s[1..][i - 1];
    } else if s != [] && IsTrimmable(s[|s| - 1]) {
      TrimEmpty(s[..|s| - 1]);
      assert forall i :: 0 <= i < |s| - 1 ==> s[i] == s[..|s| - 1][i];
    }
  }

  class MasterImageEditor {
    var layers: seq<Layer>
    var activeLayerIndex: int
    var layerIdCounter: int
    var canvasWidth: int
    var canvasHeight: int
    var history: seq<HistoryEntry>
    var historyStep: int
    var isDrawing: bool
    var lastX: real
    var lastY: real
    var currentTool: string
    /** toolSettings.brush.color, toolSettings.bucket.color/tolerance and toolSettings.text.color. */
    var brushColor: string
    var bucketColor: string
    var bucketTolerance: int
    var textColor: string

    /** The layers, canvas size and counter form a document the editor can show. */
    ghost predicate DocumentValid()
      reads this
    {
      0 < canvasWidth && 0 < canvasHeight && Document(layers, activeLayerIndex, layerIdCounter)
    }

    /** The cursor lies in the bounded history, whose entries are documents saved under the current counter. */
    ghost predicate HistoryValid()
      reads this
    {
      -1 <= historyStep < |history| <= MaxHistorySteps &&
      forall i :: 0 <= i < |history| ==> SavedDocument(history[i], layerIdCounter)
    }

    ghost predicate Valid()
      reads this
    {
      DocumentValid() && HistoryValid() && 0 <= historyStep
    }

    /** After restoreState(e) from a state with this counter and canvas size. */
    ghost predicate RestoredFrom(e: HistoryEntry, counter: int, oldWidth: int, oldHeight: int)
      reads this
    {
      0 <= counter && SavedDocument(e, counter) && 0 < oldWidth && 0 < oldHeight &&
      (canvasWidth, canvasHeight) == RestoredCanvas(e, oldWidth, oldHeight) &&
      layers == RestoredLayers(e.layers, counter, canvasWidth, canvasHeight) &&
      activeLayerIndex == Min(e.activeLayerIndex, |layers| - 1) &&
      layerIdCounter == counter + |e.layers|
    }

    /**
     * The constructor followed by createInitialDocument(800, 600): one white
     * "Background" layer, active, and the history holding "New Document".
     */
    constructor (now: int)
      ensures Valid()
      ensures canvasWidth == 800 && canvasHeight == 600
      ensures layers == [Layer(1, "Background", 800, 600, White(800, 600), true, 1.0, "source-over", false)]
      ensures activeLayerIndex == 0 && layerIdCounter == 1
      ensures history == [HistoryEntry("New Document", now, layers, 0, 800, 600)] && historyStep == 0
      ensures !isDrawing && currentTool == "brush"
      ensures brushColor == "#000000" && bucketColor == "#000000" && bucketTolerance == 32 && textColor == "#000000"
    {
      layers := [];
      activeLayerIndex := 0;
      layerIdCounter := 0;
      currentTool := "brush";
      brushColor := "#000000";
      bucketColor := "#000000";
      bucketTolerance := 32;
      textColor := "#000000";
      isDrawing := false;
      lastX := 0.0;
      lastY := 0.0;
      history := [];
      historyStep := -1;
      canvasWidth, canvasHeight := 800, 600;
      new;
      var background := CreateLayer("Background", 800, 600);
      background := background.(pixels := White(800, 600));
      layers := layers + [background];
      activeLayerIndex := 0;
      SaveState("New Document", now);
    }

    /** createLayer: takes the next id from the counter and builds the layer record; the list is not touched. */
    method CreateLayer(name: string, width: int, height: int) returns (layer: Layer)
      requires 0 <= layerIdCounter && 0 < canvasWidth && 0 < canvasHeight && 0 <= width && 0 <= height
      modifies this`layerIdCounter
      ensures layerIdCounter == old(layerIdCounter) + 1
      ensures layer == NewLayer(layerIdCounter, name, width, height, canvasWidth, canvasHeight)
    {
      layerIdCounter := layerIdCounter + 1;
      layer := NewLayer(layerIdCounter, name, width, height, canvasWidth, canvasHeight);
    }

    /** addLayer(name, insertIndex): a new canvas-sized layer, placed and made active, then saved. */
    method AddLayer(name: string, insertIndex: int, now: int) returns (layer: Layer)
      requires Valid() && (insertIndex == -1 || 0 <= insertIndex)
      modifies this`layers, this`activeLayerIndex, this`layerIdCounter, this`history, this`historyStep
      ensures Valid()
      ensures layerIdCounter == old(layerIdCounter) + 1
      ensures layer == NewLayer(layerIdCounter, name, 0, 0, canvasWidth, canvasHeight)
      ensures (layers, activeLayerIndex) == Inserted(old(layers), layer, insertIndex)
      ensures (history, historyStep) == Saved(old(history), old(historyStep),
        HistoryEntry("Add Layer: " + layer.name, now, layers, activeLayerIndex, canvasWidth, canvasHeight), MaxHistorySteps)
    {
      layer := CreateLayer(name, 0, 0);
      InsertedDocument(layers, activeLayerIndex, layerIdCounter - 1, layer, insertIndex);
      CounterGrows(history, layerIdCounter - 1, layerIdCounter);
      if insertIndex == -1 || insertIndex >= |layers| {
        layers := layers + [layer];
        activeLayerIndex := |layers| - 1;
      } else {
        layers := layers[..insertIndex] + [layer] + layers[insertIndex..];
        activeLayerIndex := insertIndex;
      }
      assert (layers, activeLayerIndex) == Inserted(old(layers), layer, insertIndex);
      SaveState("Add Layer: " + layer.name, now);
    }

    /**
     * removeLayer(index): refuses to remove the only layer; otherwise removes
     * the layer at index, pulls the active index back into the list and saves.
     */
    method RemoveLayer(index: int, now: int) returns (removed: bool)
      requires Valid() && (|layers| <= 1 || 0 <= index < |layers|)
      modifies this`layers, this`activeLayerIndex, this`history, this`historyStep
      ensures Valid()
      ensures removed <==> |old(layers)| > 1
      ensures !removed ==>
        layers == old(layers) && activeLayerIndex == old(activeLayerIndex) &&
        history == old(history) && historyStep == old(historyStep)
      ensures removed ==>
        layers == Removed(old(layers), index) &&
        activeLayerIndex == Min(old(activeLayerIndex), |layers| - 1) &&
        (history, historyStep) == Saved(old(history), old(historyStep),
          HistoryEntry("Remove Layer: " + old(layers)[index].name, now, layers, activeLayerIndex, canvasWidth, canvasHeight),
          MaxHistorySteps)
    {
      if |layers| <= 1 {
        return false;
      }
      var removedLayer := layers[index];
      RemovedDocument(layers, activeLayerIndex, layerIdCounter, index);
      layers := layers[..index] + layers[index + 1..];
      activeLayerIndex := Min(activeLayerIndex, |layers| - 1);
      SaveState("Remove Layer: " + removedLayer.name, now);
      removed := true;
    }

    /** getActiveLayer: the layer at the active index, or null. */
    function GetActiveLayer(): (l: Option<Layer>)
      reads this
      ensures l.Some? <==> 0 <= activeLayerIndex < |layers|
      ensures l.Some? ==> l.value == layers[activeLayerIndex]
    {
      if 0 <= activeLayerIndex < |layers| then Some(layers[activeLayerIndex]) else None
    }

    /** setActiveLayer(index): only an index inside the list is taken. */
    method SetActiveLayer(index: int) returns (ok: bool)
      requires Valid()
      modifies this`activeLayerIndex
      ensures Valid()
      ensures ok <==> 0 <= index < |layers|
      ensures activeLayerIndex == if ok then index else old(activeLayerIndex)
    {
      if 0 <= index < |layers| {
        activeLayerIndex := index;
        return true;
      }
      return false;
    }

    /** setLayerOpacity(index, opacity): the layer's opacity becomes opacity clamped to [0, 1]. */
    method SetLayerOpacity(index: int, opacity: real)
      requires Valid()
      modifies this`layers
      ensures Valid()
      ensures layers == if 0 <= index < |old(layers)| then old(layers)[index := old(layers)[index].(opacity := ClampUnit(opacity))]
        else old(layers)
    {
      if 0 <= index < |layers| {
        layers := layers[index := layers[index].(opacity := ClampUnit(opacity))];
        UpdatedDocument(old(layers), activeLayerIndex, layerIdCounter, index, layers[index]);
      }
    }

    /** toggleLayerVisibility(index). */
    method ToggleLayerVisibility(index: int)
      requires Valid()
      modifies this`layers
      ensures Valid()
      ensures layers == if 0 <= index < |old(layers)| then old(layers)[index := old(layers)[index].(visible := !old(layers)[index].visible)]
        else old(layers)
    {
      if 0 <= index < |layers| {
        layers := layers[index := layers[index].(visible := !layers[index].visible)];
        UpdatedDocument(old(layers), activeLayerIndex, layerIdCounter, index, layers[index]);
      }
    }

    /** setLayerBlendMode(index, blendMode). */
    method SetLayerBlendMode(index: int, blendMode: string)
      requires Valid()
      modifies this`layers
      ensures Valid()
      ensures layers == if 0 <= index < |old(layers)| then old(layers)[index := old(layers)[index].(blendMode := blendMode)]
        else old(layers)
    {
      if 0 <= index < |layers| {
        layers := layers[index := layers[index].(blendMode := blendMode)];
        UpdatedDocument(old(layers), activeLayerIndex, layerIdCounter, index, layers[index]);
      }
    }

    /** setTool(toolName). */
    method SetTool(toolName: string)
      modifies this`currentTool
      ensures currentTool == toolName
    {
      currentTool := toolName;
    }

    // ---------- history ----------

    /**
     * saveState(description): drop the redo tail, append a copy of the
     * document, evict the oldest entry past maxHistorySteps. `now` stands
     * for Date.now().
     */
    method SaveState(description: string, now: int)
      requires DocumentValid() && HistoryValid()
      modifies this`history, this`historyStep
      ensures Valid()
      ensures (history, historyStep) == Saved(old(history), old(historyStep),
        HistoryEntry(description, now, layers, activeLayerIndex, canvasWidth, canvasHeight), MaxHistorySteps)
    {
      var state := HistoryEntry(description, now, layers, activeLayerIndex, canvasWidth, canvasHeight);
      SavedShape(history, historyStep, state, MaxHistorySteps);
      SavedKeepsDocuments(history, historyStep, state, MaxHistorySteps, layerIdCounter);
      historyStep := historyStep + 1;
      if historyStep < |history| {
        history := history[..historyStep];
      }
      assert history == old(history)[..historyStep];
      history := history + [state];
      if |history| > MaxHistorySteps {
        history := history[1..];
        historyStep := historyStep - 1;
      }
    }

    /** undo: with an entry before the cursor, step back to it and restore it. */
    method Undo() returns (done: bool)
      requires Valid()
      modifies this`historyStep, this`layers, this`activeLayerIndex, this`layerIdCounter, this`canvasWidth, this`canvasHeight
      ensures Valid()
      ensures done <==> old(historyStep) > 0
      ensures !done ==> (historyStep == old(historyStep) && layers == old(layers) && activeLayerIndex == old(activeLayerIndex) &&
        layerIdCounter == old(layerIdCounter) && canvasWidth == old(canvasWidth) && canvasHeight == old(canvasHeight))
      ensures done ==> (historyStep == old(historyStep) - 1 &&
        RestoredFrom(history[historyStep], old(layerIdCounter), old(canvasWidth), old(canvasHeight)))
    {
      if historyStep > 0 {
        historyStep := historyStep - 1;
        var state := history[historyStep];
        RestoreState(state);
        return true;
      }
      return false;
    }

    /** redo: with an entry after the cursor, step forward to it and restore it. */
    method Redo() returns (done: bool)
      requires Valid()
      modifies this`historyStep, this`layers, this`activeLayerIndex, this`layerIdCounter, this`canvasWidth, this`canvasHeight
      ensures Valid()
      ensures done <==> old(historyStep) < |history| - 1
      ensures !done ==> (historyStep == old(historyStep) && layers == old(layers) && activeLayerIndex == old(activeLayerIndex) &&
        layerIdCounter == old(layerIdCounter) && canvasWidth == old(canvasWidth) && canvasHeight == old(canvasHeight))
      ensures done ==> (historyStep == old(historyStep) + 1 &&
        RestoredFrom(history[historyStep], old(layerIdCounter), old(canvasWidth), old(canvasHeight)))
    {
      if historyStep < |history| - 1 {
        historyStep := historyStep + 1;
        var state := history[historyStep];
        RestoreState(state);
        return true;
      }
      return false;
    }

    /**
     * restoreState(state): take the stored canvas size when both dimensions
     * are set, rebuild every layer through createLayer with the stored id,
     * flags and pixels, and clamp the active index into the new list.
     */
    method RestoreState(state: HistoryEntry)
      requires DocumentValid() && HistoryValid() && SavedDocument(state, layerIdCounter)
      modifies this`layers, this`activeLayerIndex, this`layerIdCounter, this`canvasWidth, this`canvasHeight
      ensures DocumentValid() && HistoryValid()
      ensures RestoredFrom(state, old(layerIdCounter), old(canvasWidth), old(canvasHeight))
    {
      if state.canvasWidth != 0 && state.canvasHeight != 0 {
        if canvasWidth != state.canvasWidth || canvasHeight != state.canvasHeight {
          canvasWidth, canvasHeight := state.canvasWidth, state.canvasHeight;
        }
      }
      ghost var counter := layerIdCounter;
      ghost var (width, height) := RestoredCanvas(state, old(canvasWidth), old(canvasHeight));
      assert canvasWidth == width && canvasHeight == height;
      ghost var target := RestoredLayers(state.layers, counter, width, height);
      layers := [];
      var index := 0;
      while index < |state.layers|
        invariant 0 <= index <= |state.layers|
        invariant canvasWidth == width && canvasHeight == height
        invariant layerIdCounter == counter + index
        invariant layers == target[..index]
      {
        var layerState := state.layers[index];
        assert WellFormed(layerState);
        var layer := CreateLayer(layerState.name, layerState.width, layerState.height);
        layer := layer.(id := layerState.id, visible := layerState.visible, opacity := layerState.opacity,
                        blendMode := layerState.blendMode, locked := layerState.locked);
        layer := layer.(pixels := layerState.pixels);
        assert layer == target[index];
        assert target[..index + 1] == target[..index] + [layer];
        layers := layers + [layer];
        index := index + 1;
      }
      activeLayerIndex := Min(state.activeLayerIndex, |layers| - 1);
      RestoredDocument(state, counter, old(canvasWidth), old(canvasHeight));
      CounterGrows(history, counter, layerIdCounter);
    }

    // ---------- filters ----------

    /**
     * applyFilter(filterName, ...params): run processImageData on the active
     * layer's pixels; a recognised filter's result replaces them and is
     * saved as "Filter: <name>", an unknown name changes nothing.
     */
    method ApplyFilter(filterName: string, params: seq<int>, now: int)
      requires Valid()
      modifies this`layers, this`history, this`historyStep
      ensures Valid()
      ensures var l := old(layers)[activeLayerIndex];
        if filterName in FilterNames then
          layers == old(layers)[activeLayerIndex := l.(pixels := Apply(ParseFilter(filterName, params).value, l.pixels, l.width, l.height))] &&
          (history, historyStep) == Saved(old(history), old(historyStep),
            HistoryEntry("Filter: " + filterName, now, layers, activeLayerIndex, canvasWidth, canvasHeight), MaxHistorySteps)
        else layers == old(layers) && history == old(history) && historyStep == old(historyStep)
    {
      var activeLayer := layers[activeLayerIndex];
      assert WellFormed(activeLayer);
      var filteredData := ProcessImageData(activeLayer.pixels, activeLayer.width, activeLayer.height, filterName, params);
      if filteredData.Some? {
        layers := layers[activeLayerIndex := activeLayer.(pixels := filteredData.value)];
        UpdatedDocument(old(layers), activeLayerIndex, layerIdCounter, activeLayerIndex, layers[activeLayerIndex]);
        SaveState("Filter: " + filterName, now);
      }
    }

    /** clear: the active layer becomes fully transparent, saved as "Clear Layer". */
    method Clear(now: int)
      requires Valid()
      modifies this`layers, this`history, this`historyStep
      ensures Valid()
      ensures var l := old(layers)[activeLayerIndex];
        layers == old(layers)[activeLayerIndex := l.(pixels := Transparent(l.width, l.height))]
      ensures (history, historyStep) == Saved(old(history), old(historyStep),
        HistoryEntry("Clear Layer", now, layers, activeLayerIndex, canvasWidth, canvasHeight), MaxHistorySteps)
    {
      var activeLayer := layers[activeLayerIndex];
      assert WellFormed(activeLayer);
      layers := layers[activeLayerIndex := activeLayer.(pixels := Transparent(activeLayer.width, activeLayer.height))];
      UpdatedDocument(old(layers), activeLayerIndex, layerIdCounter, activeLayerIndex, layers[activeLayerIndex]);
      SaveState("Clear Layer", now);
    }

    // ---------- tools ----------

    /** floodFill on the active layer: its pixels are read out, filled and written back. */
    method FloodFill(startX: real, startY: real, fillColor: string, tolerance: int)
      requires Valid()
      modifies this`layers
      ensures Valid()
      ensures var l := old(layers)[activeLayerIndex];
        layers == old(layers)[activeLayerIndex := l.(pixels := layers[activeLayerIndex].pixels)] &&
        Bucket.Filled(l.pixels, layers[activeLayerIndex].pixels, l.width, l.height, startX, startY, fillColor, tolerance)
    {
      var activeLayer := layers[activeLayerIndex];
      assert WellFormed(activeLayer);
      var pixels := activeLayer.pixels;
      var data := new int[|pixels|](i requires 0 <= i < |pixels| => pixels[i]);
      assert data[..] == pixels;
      ghost var region := Bucket.Fill(data, activeLayer.width, activeLayer.height, startX, startY, fillColor, tolerance);
      layers := layers[activeLayerIndex := activeLayer.(pixels := data[..])];
      UpdatedDocument(old(layers), activeLayerIndex, layerIdCounter, activeLayerIndex, layers[activeLayerIndex]);
    }

    /** What executeToolAction(x, y, phase) does to the document, the history and the tool colours. */
    twostate predicate ToolAction(x: real, y: real, phase: Phase, screen: seq<int>, answer: string, now: int)
      reads this
    {
      var a := old(activeLayerIndex);
      0 <= a < |old(layers)| && activeLayerIndex == a &&
      var l := old(layers)[a];
      var acts := !l.locked;
      var saves := acts && (
        (currentTool == "bucket" && phase == Start) ||
        (currentTool == "text" && phase == Start && Trim(answer) != "") ||
        (currentTool == "brush" && phase == End) ||
        (currentTool == "eraser" && phase == End));
      var picks := acts && currentTool == "eyedropper" && phase == Start && IsImage(screen, canvasWidth, canvasHeight);
      (if acts && currentTool == "bucket" && phase == Start then
         WellFormed(l) && |layers| == |old(layers)| &&
         layers == old(layers)[a := l.(pixels := layers[a].pixels)] &&
         Bucket.Filled(l.pixels, layers[a].pixels, l.width, l.height, x, y, old(bucketColor), bucketTolerance)
       else layers == old(layers)) &&
      (if saves then
         -1 <= old(historyStep) < |old(history)| &&
         (history, historyStep) == Saved(old(history), old(historyStep),
           HistoryEntry(if currentTool == "bucket" then "Bucket Fill" else if currentTool == "text" then "Add Text"
             else if currentTool == "brush" then "Brush" else "Erase",
             now, layers, activeLayerIndex, canvasWidth, canvasHeight), MaxHistorySteps)
       else history == old(history) && historyStep == old(historyStep)) &&
      (if picks then
         brushColor == GetPixelColor(screen, canvasWidth, canvasHeight, x, y) &&
         bucketColor == brushColor && textColor == brushColor
       else brushColor == old(brushColor) && bucketColor == old(bucketColor) && textColor == old(textColor))
    }

    /**
     * executeToolAction(x, y, phase): nothing on a locked active layer;
     * otherwise the current tool's handler. `screen` is the displayed
     * canvas the eyedropper reads; `answer` is what prompt returns to the
     * text tool, "" when the prompt is cancelled.
     */
    method ExecuteToolAction(x: real, y: real, phase: Phase, screen: seq<int>, answer: string, now: int)
      requires Valid() && IsImage(screen, canvasWidth, canvasHeight)
      modifies this`layers, this`history, this`historyStep, this`brushColor, this`bucketColor, this`textColor
      ensures Valid()
      ensures ToolAction(x, y, phase, screen, answer, now)
    {
      var activeLayer := layers[activeLayerIndex];
      if activeLayer.locked {
        return;
      }
      if currentTool == "brush" {
        if phase == End {
          SaveState("Brush", now);
        }
      } else if currentTool == "eraser" {
        if phase == End {
          SaveState("Erase", now);
        }
      } else if currentTool == "bucket" {
        if phase == Start {
          FloodFill(x, y, bucketColor, bucketTolerance);
          SaveState("Bucket Fill", now);
        }
      } else if currentTool == "eyedropper" {
        if phase == Start {
          var color := GetPixelColor(screen, canvasWidth, canvasHeight, x, y);
          brushColor := color;
          bucketColor := color;
          textColor := color;
        }
      } else if currentTool == "text" {
        if phase == Start && Trim(answer) != "" {
          SaveState("Add Text", now);
        }
      }
    }

    // ---------- mouse ----------

    /** handleMouseDown: start drawing and run the tool's 'start' phase. */
    method HandleMouseDown(x: real, y: real, screen: seq<int>, answer: string, now: int)
      requires Valid() && IsImage(screen, canvasWidth, canvasHeight)
      modifies this`layers, this`history, this`historyStep, this`brushColor, this`bucketColor, this`textColor,
        this`isDrawing, this`lastX, this`lastY
      ensures Valid()
      ensures isDrawing && lastX == x && lastY == y
      ensures ToolAction(x, y, Start, screen, answer, now)
    {
      isDrawing := true;
      lastX := x;
      lastY := y;
      ExecuteToolAction(x, y, Start, screen, answer, now);
    }

    /** handleMouseMove: the 'move' phase only while drawing; the last position always follows the mouse. */
    method HandleMouseMove(x: real, y: real, screen: seq<int>, answer: string, now: int)
      requires Valid() && IsImage(screen, canvasWidth, canvasHeight)
      modifies this`layers, this`history, this`historyStep, this`brushColor, this`bucketColor, this`textColor,
        this`lastX, this`lastY
      ensures Valid()
      ensures lastX == x && lastY == y
      ensures old(isDrawing) ==> ToolAction(x, y, Move, screen, answer, now)
      ensures !old(isDrawing) ==> (layers == old(layers) && history == old(history) && historyStep == old(historyStep) &&
        brushColor == old(brushColor) && bucketColor == old(bucketColor) && textColor == old(textColor))
    {
      if isDrawing {
        ExecuteToolAction(x, y, Move, screen, answer, now);
      }
      lastX := x;
      lastY := y;
    }

    /** handleMouseUp: only while drawing, the 'end' phase, then drawing stops. */
    method HandleMouseUp(x: real, y: real, screen: seq<int>, answer: string, now: int)
      requires Valid() && IsImage(screen, canvasWidth, canvasHeight)
      modifies this`layers, this`history, this`historyStep, this`brushColor, this`bucketColor, this`textColor,
        this`isDrawing
      ensures Valid()
      ensures !isDrawing
      ensures old(isDrawing) ==> ToolAction(x, y, End, screen, answer, now)
      ensures !old(isDrawing) ==> (layers == old(layers) && history == old(history) && historyStep == old(historyStep) &&
        brushColor == old(brushColor) && bucketColor == old(bucketColor) && textColor == old(textColor))
    {
      if !isDrawing {
        return;
      }
      ExecuteToolAction(x, y, End, screen, answer, now);
      isDrawing := false;
    }
  }
}
