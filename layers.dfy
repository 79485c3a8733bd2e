/**
 * The layer records of MasterImageEditor (js/master-editor-complete.js,
 * createLayer, addLayer, removeLayer, setLayerOpacity): a layer is a value,
 * the document keeps them bottom to top in a sequence.
 */
module Layers {

  /** A layer with its canvas reduced to the RGBA bytes it holds. */
  datatype Layer = Layer(
    id: int,
    name: string,
    width: int,
    height: int,
    pixels: seq<int>,
    visible: bool,
    opacity: real,
    blendMode: string,
    locked: bool)

  /** A named layer whose pixel data covers its non-empty canvas, with an opacity in [0, 1]. */
  predicate WellFormed(l: Layer)
  {
    0 < l.width && 0 < l.height && |l.pixels| == l.width * l.height * 4 && l.name != "" &&
    0.0 <= l.opacity <= 1.0
  }

  /** A freshly created canvas: every byte 0, i.e. transparent black. */
  function Transparent(w: int, h: int): (s: seq<int>)
    requires 0 <= w && 0 <= h
    ensures |s| == w * h * 4 && forall i :: 0 <= i < |s| ==> s[i] == 0
  {
    seq(w * h * 4, _ => 0)
  }

  /** A canvas after `fillRect` with '#ffffff': every byte 255. */
  function White(w: int, h: int): (s: seq<int>)
    requires 0 <= w && 0 <= h
    ensures |s| == w * h * 4 && forall i :: 0 <= i < |s| ==> s[i] == 255
  {
    seq(w * h * 4, _ => 255)
  }

  /** The number a string of decimal digits spells, most significant digit first. */
  function DigitsValue(s: string): int
  {
    if s == [] then 0 else 10 * DigitsValue(s[..|s| - 1]) + (s[|s| - 1] as int - '0' as int)
  }

  /** A number in a template literal: its decimal digits, which spell it. */
  function Decimal(n: nat): (s: string)
    ensures 1 <= |s| && forall i :: 0 <= i < |s| ==> '0' <= s[i] <= '9'
    ensures DigitsValue(s) == n
    ensures n != 0 ==> s[0] != '0'
  {
    if n < 10 then ["0123456789"[n]]
    else
      var prefix, last := Decimal(n / 10), ["0123456789"[n % 10]];
      assert (prefix + last)[..|prefix|] == prefix;
      prefix + last
  }

  /** `v || fallback` on a number: 0 is falsy. */
  function OrDefault(v: int, fallback: int): int
  {
    if v == 0 then fallback else v
  }

  /**
   * The record createLayer(name, width, height) builds once layerIdCounter
   * has been incremented to id: a missing name becomes "Layer <id>", a
   * missing size the main canvas's size.
   */
  function NewLayer(id: nat, name: string, width: int, height: int, canvasWidth: int, canvasHeight: int): (l: Layer)
    requires 0 <= width && 0 <= height && 0 < canvasWidth && 0 < canvasHeight
    ensures WellFormed(l) && l.id == id
  {
    var w := OrDefault(width, canvasWidth);
    var h := OrDefault(height, canvasHeight);
    Layer(id, if name == "" then "Layer " + Decimal(id) else name, w, h, Transparent(w, h),
      true, 1.0, "source-over", false)
  }

  /** No two layers share an id. */
  predicate UniqueIds(layers: seq<Layer>)
  {
    forall i, j :: 0 <= i < j < |layers| ==> layers[i].id != layers[j].id
  }

  /** Every id was handed out by a counter that has reached `counter`. */
  predicate IdsAtMost(layers: seq<Layer>, counter: int)
  {
    forall i :: 0 <= i < |layers| ==> layers[i].id <= counter
  }

  function Ids(layers: seq<Layer>): set<int>
  {
    set i | 0 <= i < |layers| :: layers[i].id
  }

  /**
   * addLayer's placement: insertIndex -1 or past the end appends, any other
   * index splices the layer in there; the new layer's index becomes active.
   * A negative index other than -1 (splice from the end) is not accepted.
   */
  function Inserted(layers: seq<Layer>, layer: Layer, insertIndex: int): (r: (seq<Layer>, int))
    requires insertIndex == -1 || 0 <= insertIndex
    ensures |r.0| == |layers| + 1 && 0 <= r.1 < |r.0| && r.0[r.1] == layer
    ensures r.0[..r.1] == layers[..r.1] && r.0[r.1 + 1..] == layers[r.1..]
    ensures 0 <= insertIndex <= |layers| ==> r.1 == insertIndex
    ensures insertIndex == -1 || insertIndex >= |layers| ==> r.1 == |layers|
  {
    if insertIndex == -1 || insertIndex >= |layers| then (layers + [layer], |layers|)
    else (layers[..insertIndex] + [layer] + layers[insertIndex..], insertIndex)
  }

  /** `layers.splice(index, 1)`. */
  function Removed(layers: seq<Layer>, index: int): (r: seq<Layer>)
    requires 0 <= index < |layers|
    ensures |r| == |layers| - 1
  {
    layers[..index] + layers[index + 1..]
  }

  /** `Math.max(0, Math.min(1, opacity))`. */
  function ClampUnit(opacity: real): (r: real)
    ensures 0.0 <= r <= 1.0
    ensures 0.0 <= opacity <= 1.0 ==> r == opacity
    ensures opacity < 0.0 ==> r == 0.0
    ensures 1.0 < opacity ==> r == 1.0
  {
    if opacity < 0.0 then 0.0 else if opacity > 1.0 then 1.0 else opacity
  }

  // ---------- properties ----------

  /** The inserted layer sits at the returned active index, and removing it gives back the old list. */
  lemma InsertedThenRemoved(layers: seq<Layer>, layer: Layer, insertIndex: int)
    requires insertIndex == -1 || 0 <= insertIndex
    ensures var (r, active) := Inserted(layers, layer, insertIndex);
      |r| == |layers| + 1 && 0 <= active < |r| && r[active] == layer && Removed(r, active) == layers
  {
    var (r, active) := Inserted(layers, layer, insertIndex);
    if !(insertIndex == -1 || insertIndex >= |layers|) {
      assert r[..active] == layers[..insertIndex];
      assert r[active + 1..] == layers[insertIndex..];
    } else {
      assert r[..active] == layers;
    }
  }

  /** Removing the layer at index and adding it back at index restores the list and makes it active. */
  lemma RemovedThenInserted(layers: seq<Layer>, index: int)
    requires 0 <= index < |layers|
    ensures Inserted(Removed(layers, index), layers[index], index) == (layers, index)
  {
    var rest := Removed(layers, index);
    if index < |rest| {
      assert rest[..index] == layers[..index];
      assert rest[index..] == layers[index + 1..];
      assert layers == layers[..index] + [layers[index]] + layers[index + 1..];
    } else {
      assert rest + [layers[index]] == layers;
    }
  }

  /** A layer with the next id keeps ids unique wherever it is inserted. */
  lemma InsertedFreshId(layers: seq<Layer>, layer: Layer, insertIndex: int, counter: int)
    requires insertIndex == -1 || 0 <= insertIndex
    requires UniqueIds(layers) && IdsAtMost(layers, counter) && layer.id == counter + 1
    ensures var r := Inserted(layers, layer, insertIndex).0;
      UniqueIds(r) && IdsAtMost(r, counter + 1) && Ids(r) == Ids(layers) + {layer.id}
  {
    var (r, active) := Inserted(layers, layer, insertIndex);
    InsertedThenRemoved(layers, layer, insertIndex);
    FreshAt(r, active, layers, counter);
  }

  /** A list that is `layers` with one layer of id counter + 1 added at `active`. */
  lemma FreshAt(r: seq<Layer>, active: int, layers: seq<Layer>, counter: int)
    requires 0 <= active < |r| && Removed(r, active) == layers && r[active].id == counter + 1
    requires UniqueIds(layers) && IdsAtMost(layers, counter)
    ensures UniqueIds(r) && IdsAtMost(r, counter + 1) && Ids(r) == Ids(layers) + {r[active].id}
  {
    RemovedAt(r, active, layers);
    FreshUnique(r, active, layers, counter);
    FreshIds(r, active, layers);
  }

  /** The ids of r are unique when those of `layers` are and r[active]'s id is above them all. */
  lemma FreshUnique(r: seq<Layer>, active: int, layers: seq<Layer>, counter: int)
    requires 0 <= active < |r| && |layers| == |r| - 1 && r[active].id == counter + 1
    requires forall i :: 0 <= i < |r| && i != active ==> r[i] == layers[if i < active then i else i - 1]
    requires UniqueIds(layers) && IdsAtMost(layers, counter)
    ensures UniqueIds(r) && IdsAtMost(r, counter + 1)
  {
    forall i, j | 0 <= i < j < |r|
      ensures r[i].id != r[j].id
    {
      if i != active && j != active {
        assert r[i] == layers[if i < active then i else i - 1];
        assert r[j] == layers[if j < active then j else j - 1];
      } else if i != active {
        assert r[i] == layers[if i < active then i else i - 1];
      } else {
        assert r[j] == layers[if j < active then j else j - 1];
      }
    }
  }

  /** The ids of r are those of `layers` and r[active]'s. */
  lemma FreshIds(r: seq<Layer>, active: int, layers: seq<Layer>)
    requires 0 <= active < |r| && |layers| == |r| - 1
    requires forall i :: 0 <= i < |r| && i != active ==> r[i] == layers[if i < active then i else i - 1]
    requires forall k :: 0 <= k < |layers| ==> r[if k < active then k else k + 1] == layers[k]
    ensures Ids(r) == Ids(layers) + {r[active].id}
  {
    forall id | id in Ids(r)
      ensures id in Ids(layers) + {r[active].id}
    {
      var k :| 0 <= k < |r| && r[k].id == id;
      if k != active {
        assert r[k] == layers[if k < active then k else k - 1];
      }
    }
    forall id | id in Ids(layers) + {r[active].id}
      ensures id in Ids(r)
    {
      if id != r[active].id {
        var k :| 0 <= k < |layers| && layers[k].id == id;
        assert r[if k < active then k else k + 1] == layers[k];
      }
    }
  }

  /** Where each layer of `layers` sits in r once r's layer at `active` is removed. */
  lemma RemovedAt(r: seq<Layer>, active: int, layers: seq<Layer>)
    requires 0 <= active < |r| && Removed(r, active) == layers
    ensures forall i :: 0 <= i < |r| && i != active ==> r[i] == layers[if i < active then i else i - 1]
    ensures forall k :: 0 <= k < |layers| ==> r[if k < active then k else k + 1] == layers[k]
  {
    forall i | 0 <= i < |r| && i != active
      ensures r[i] == layers[if i < active then i else i - 1]
    {
      assert Removed(r, active)[if i < active then i else i - 1] == r[i];
    }
  }

  /** splice(index, 1) drops exactly the id of the layer at index. */
  lemma RemovedIds(layers: seq<Layer>, index: int, counter: int)
    requires 0 <= index < |layers| && UniqueIds(layers) && IdsAtMost(layers, counter)
    ensures var r := Removed(layers, index);
      UniqueIds(r) && IdsAtMost(r, counter) && Ids(r) == Ids(layers) - {layers[index].id}
  {
    var r := Removed(layers, index);
    assert forall i :: 0 <= i < |r| ==> r[i] == layers[if i < index then i else i + 1];
    forall i, j | 0 <= i < j < |r|
      ensures r[i].id != r[j].id
    {
      assert r[i] == layers[if i < index then i else i + 1];
      assert r[j] == layers[if j < index then j else j + 1];
    }
    forall id | id in Ids(layers) - {layers[index].id}
      ensures id in Ids(r)
    {
      var k :| 0 <= k < |layers| && layers[k].id == id;
      assert r[if k < index then k else k - 1] == layers[k];
    }
  }
}
