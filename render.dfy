/**
 * What render (js/master-editor-complete.js) hands to the canvas: one draw
 * call per visible layer, bottom to top, with the global alpha and the
 * composite operation it sets. The blending itself is the browser's.
 */
module Render {
  import opened Layers

  /** One `drawImage` of layer `index` under the given globalAlpha and globalCompositeOperation. */
  datatype DrawStep = DrawStep(index: int, alpha: real, blendMode: string)

  /** `layer.opacity || 1.0`: 0 is falsy, so it becomes 1.0. */
  function AlphaAsWritten(opacity: real): real
  {
    if opacity == 0.0 then 1.0 else opacity
  }

  /** `layer.blendMode || 'source-over'`. */
  function CompositeOperation(blendMode: string): string
  {
    if blendMode == "" then "source-over" else blendMode
  }

  /** The draw calls for layers[from..], as render issues them. */
  function DrawSteps(layers: seq<Layer>, from: nat): (steps: seq<DrawStep>)
    requires from <= |layers|
    ensures |steps| <= |layers| - from
    decreases |layers| - from
  {
    if from == |layers| then []
    else
      var rest := DrawSteps(layers, from + 1);
      var l := layers[from];
      if l.visible then [DrawStep(from, AlphaAsWritten(l.opacity), CompositeOperation(l.blendMode))] + rest else rest
  }

  /** One step of DrawSteps: a visible layer's call comes first, then the calls for the layers above it. */
  lemma Unfold(layers: seq<Layer>, from: nat)
    requires from < |layers|
    ensures var steps, rest := DrawSteps(layers, from), DrawSteps(layers, from + 1);
      if layers[from].visible then
        |steps| == |rest| + 1 && steps[0].index == from &&
        forall k :: 1 <= k < |steps| ==> steps[k] == rest[k - 1]
      else steps == rest
  {
  }

  /** Each draw call is for a visible layer at or above `from`, with that layer's alpha and composite operation. */
  lemma {:induction false} DrawStepsVisible(layers: seq<Layer>, from: nat)
    requires from <= |layers|
    ensures var steps := DrawSteps(layers, from);
      forall k :: 0 <= k < |steps| ==>
        from <= steps[k].index < |layers| && layers[steps[k].index].visible &&
        steps[k].alpha == AlphaAsWritten(layers[steps[k].index].opacity) &&
        steps[k].blendMode == CompositeOperation(layers[steps[k].index].blendMode)
    decreases |layers| - from
  {
    if from < |layers| {
      DrawStepsVisible(layers, from + 1);
      Unfold(layers, from);
    }
  }

  /** The draw calls go bottom to top: their layer indices strictly increase. */
  lemma {:induction false} DrawStepsOrdered(layers: seq<Layer>, from: nat)
    requires from <= |layers|
    ensures var steps := DrawSteps(layers, from);
      forall k, m :: 0 <= k < m < |steps| ==> steps[k].index < steps[m].index
    decreases |layers| - from
  {
    if from < |layers| {
      DrawStepsOrdered(layers, from + 1);
      DrawStepsVisible(layers, from + 1);
      Unfold(layers, from);
    }
  }

  /** Every visible layer at or above `from` is drawn; only invisible ones are skipped. */
  lemma {:induction false} DrawStepsComplete(layers: seq<Layer>, from: nat, i: int)
    requires from <= i < |layers| && layers[i].visible
    ensures var steps := DrawSteps(layers, from);
      exists k :: 0 <= k < |steps| && steps[k].index == i
    decreases |layers| - from
  {
    var steps := DrawSteps(layers, from);
    Unfold(layers, from);
    if i == from {
      assert steps[0].index == i;
    } else {
      DrawStepsComplete(layers, from + 1, i);
      var rest := DrawSteps(layers, from + 1);
      var k :| 0 <= k < |rest| && rest[k].index == i;
      if layers[from].visible {
        assert steps[k + 1].index == i;
      } else {
        assert steps[k].index == i;
      }
    }
  }

  // ---------- the opacity-0 finding ----------

  /**
   * As written, every visible layer whose opacity was set to 0 is drawn, and
   * drawn fully opaque: `0 || 1.0` is 1.0.
   */
  lemma {:induction false} OpacityZeroDrawnOpaque(layers: seq<Layer>)
    ensures var steps := DrawSteps(layers, 0);
      forall i :: 0 <= i < |layers| && layers[i].visible && layers[i].opacity == 0.0 ==>
        exists k :: 0 <= k < |steps| && steps[k].index == i && steps[k].alpha == 1.0
  {
    var steps := DrawSteps(layers, 0);
    DrawStepsVisible(layers, 0);
    forall i | 0 <= i < |layers| && layers[i].visible && layers[i].opacity == 0.0
      ensures exists k :: 0 <= k < |steps| && steps[k].index == i && steps[k].alpha == 1.0
    {
      DrawStepsComplete(layers, 0, i);
      var k :| 0 <= k < |steps| && steps[k].index == i;
      assert steps[k].alpha == AlphaAsWritten(layers[i].opacity);
    }
  }

  /** The draw calls with the intended alpha. */
  function IntendedDrawSteps(layers: seq<Layer>, from: nat): seq<DrawStep>
    requires from <= |layers|
    decreases |layers| - from
  {
    if from == |layers| then []
    else
      var rest := IntendedDrawSteps(layers, from + 1);
      var l := layers[from];
      if l.visible then [DrawStep(from, l.opacity, CompositeOperation(l.blendMode))] + rest else rest
  }

  /**
   * With the intended alpha, every draw call uses its layer's clamped
   * opacity, so an opacity of 0 contributes nothing; the draw calls are
   * otherwise those render issues.
   */
  lemma {:induction false} IntendedAlpha(layers: seq<Layer>, from: nat)
    requires from <= |layers|
    requires forall i :: 0 <= i < |layers| ==> 0.0 <= layers[i].opacity <= 1.0
    ensures var steps := IntendedDrawSteps(layers, from);
      var written := DrawSteps(layers, from);
      |steps| == |written| &&
      forall k :: 0 <= k < |steps| ==>
        steps[k].index == written[k].index && steps[k].blendMode == written[k].blendMode &&
        0 <= steps[k].index < |layers| && steps[k].alpha == layers[steps[k].index].opacity && 0.0 <= steps[k].alpha <= 1.0 &&
        (steps[k].alpha != written[k].alpha <==> steps[k].alpha == 0.0)
    decreases |layers| - from
  {
    if from < |layers| {
      IntendedAlpha(layers, from + 1);
      DrawStepsVisible(layers, from);
    }
  }

  /**
   * render's forEach over the layers: each visible layer, bottom to top, is
   * drawn with globalAlpha `opacity || 1.0` and its composite operation.
   */
  method Draw(layers: seq<Layer>) returns (steps: seq<DrawStep>)
    ensures steps == DrawSteps(layers, 0)
  {
    steps := [];
    var index := 0;
    while index < |layers|
      invariant 0 <= index <= |layers|
      invariant steps + DrawSteps(layers, index) == DrawSteps(layers, 0)
    {
      var layer := layers[index];
      if layer.visible {
        steps := steps + [DrawStep(index, AlphaAsWritten(layer.opacity), CompositeOperation(layer.blendMode))];
      }
      index := index + 1;
    }
  }
}
