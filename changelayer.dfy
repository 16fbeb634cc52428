/**
 * The undoable "change one value of a layer" command (ChangeValueCommand in
 * src/tiled/changelayer.h) and the layer commands built on it.
 *
 * A layer is modelled by the values its setters change, one per
 * LayerProperty; each concrete command subclass is a ChangeValueCommand bound
 * to one property, so its get() and set() read and write that entry.  The
 * value types of the properties (QString, bool, qreal, QColor, QPointF,
 * QSize) are one type parameter.
 *
 * QUndoStack (not part of this model) asks the command on top of the stack
 * to absorb a newly pushed one only when both report the same id() and that
 * id is not -1, after the new command's redo() has run; a merged command that
 * reports itself obsolete is dropped.
 */
module LayerCommands {

  datatype LayerProperty = Name | Visible | Locked | Opacity | TintColor | Offset | ParallaxFactor | TileLayerSize

  /** The values of undocommands.h that the layer commands report; NoId is QUndoCommand's default -1. */
  datatype CommandId =
    | ChangeLayerName | ChangeLayerVisible | ChangeLayerLocked | ChangeLayerOpacity
    | ChangeLayerTintColor | ChangeLayerOffset | ChangeLayerParallaxFactor | NoId

  /** The id() overrides as written: SetLayerParallaxFactor reports the offset id. */
  function CommandIdAsWritten(p: LayerProperty): CommandId
  {
    match p
    case Name => ChangeLayerName
    case Visible => ChangeLayerVisible
    case Locked => ChangeLayerLocked
    case Opacity => ChangeLayerOpacity
    case TintColor => ChangeLayerTintColor
    case Offset => ChangeLayerOffset
    case ParallaxFactor => ChangeLayerOffset
    case TileLayerSize => NoId
  }

  /** The id() overrides with a parallax id of its own; SetTileLayerSize keeps the default. */
  function CommandIdOf(p: LayerProperty): CommandId
  {
    match p
    case Name => ChangeLayerName
    case Visible => ChangeLayerVisible
    case Locked => ChangeLayerLocked
    case Opacity => ChangeLayerOpacity
    case TintColor => ChangeLayerTintColor
    case Offset => ChangeLayerOffset
    case ParallaxFactor => ChangeLayerParallaxFactor
    case TileLayerSize => NoId
  }

  /** As written, the offset and the parallax commands share an id. */
  lemma ParallaxIdCollides()
    ensures CommandIdAsWritten(Offset) == CommandIdAsWritten(ParallaxFactor) != NoId
  {
  }

  /** With the corrected ids, two commands that may merge change the same property. */
  lemma CommandIdsIdentifyProperty(p: LayerProperty, q: LayerProperty)
    ensures CommandIdOf(p) != NoId && CommandIdOf(p) == CommandIdOf(q) <==> p == q && p != TileLayerSize
  {
  }

  // ---------------------------------------------------------------------
  // The command as a state machine on values.

  /**
   * set(std::exchange(mValue, get())): the layer gets the stored value and
   * the command keeps the layer's previous value.
   */
  function Swap<V>(values: map<LayerProperty, V>, p: LayerProperty, stored: V): (r: (map<LayerProperty, V>, V))
    requires p in values
    ensures r.0.Keys == values.Keys
    ensures r.0[p] == stored && r.1 == values[p]
    ensures forall q :: q in values && q != p ==> r.0[q] == values[q]
  {
    (values[p := stored], values[p])
  }

  /** redo() followed by undo() (or the other way round) restores the layer and the command. */
  lemma SwapTwice<V>(values: map<LayerProperty, V>, p: LayerProperty, stored: V)
    requires p in values
    ensures var once := Swap(values, p, stored);
      Swap(once.0, p, once.1) == (values, stored)
  {
    var once := Swap(values, p, stored);
    assert once.0[p := once.1] == values;
  }

  /** Whether QUndoStack asks `top` to absorb `pushed` and mergeWith accepts (same document and layer). */
  predicate Merges(idOf: LayerProperty -> CommandId, top: LayerProperty, pushed: LayerProperty, sameTarget: bool)
  {
    idOf(top) != NoId && idOf(top) == idOf(pushed) && sameTarget
  }

  /**
   * The layer after two commands were pushed (and their redo() run) and the
   * merged one was undone: only the first command survives, and its undo
   * writes back what its redo() had replaced.
   */
  function UndoAfterMerge<V>(values: map<LayerProperty, V>, first: LayerProperty, firstValue: V, second: LayerProperty, secondValue: V): map<LayerProperty, V>
    requires first in values && second in values
  {
    var afterFirst := Swap(values, first, firstValue);
    var afterSecond := Swap(afterFirst.0, second, secondValue);
    Swap(afterSecond.0, first, afterFirst.1).0
  }

  /**
   * As written, a parallax change pushed right after an offset change of the
   * same layer is merged into the offset command, and undoing that command
   * leaves the new parallax factor in place.
   */
  lemma ParallaxChangeSurvivesUndo<V>(values: map<LayerProperty, V>, offset: V, factor: V)
    requires Offset in values && ParallaxFactor in values && factor != values[ParallaxFactor]
    ensures Merges(CommandIdAsWritten, Offset, ParallaxFactor, true)
    ensures UndoAfterMerge(values, Offset, offset, ParallaxFactor, factor)[ParallaxFactor] == factor
    ensures UndoAfterMerge(values, Offset, offset, ParallaxFactor, factor) != values
  {
  }

  /**
   * With the corrected ids, whenever two commands merge, undoing the merged
   * command restores the layer exactly as it was before both.
   */
  lemma MergedUndoRestores<V>(values: map<LayerProperty, V>, first: LayerProperty, firstValue: V, second: LayerProperty, secondValue: V)
    requires first in values && second in values
    requires Merges(CommandIdOf, first, second, true)
    ensures UndoAfterMerge(values, first, firstValue, second, secondValue) == values
  {
    CommandIdsIdentifyProperty(first, second);
    assert values[first := firstValue][first := secondValue][first := values[first]] == values;
  }

  /** After a merge, the command is obsolete exactly when the layer is back at the remembered value. */
  lemma ObsoleteMeansNoChange<V>(values: map<LayerProperty, V>, first: LayerProperty, firstValue: V, secondValue: V)
    requires first in values
    ensures var afterFirst := Swap(values, first, firstValue);
      var afterSecond := Swap(afterFirst.0, first, secondValue);
      (afterSecond.0[first] == afterFirst.1) <==> afterSecond.0 == values
  {
    var afterFirst := Swap(values, first, firstValue);
    var afterSecond := Swap(afterFirst.0, first, secondValue);
    if afterSecond.0[first] == afterFirst.1 {
      assert afterSecond.0 == values;
    }
  }

  // ---------------------------------------------------------------------
  // The objects.

  /** The document a command belongs to; only its identity matters. */
  class Document {
    constructor ()
    {
    }
  }

  /** A layer, seen through the values its setters change. */
  class Layer<V> {
    var values: map<LayerProperty, V>

    constructor (values: map<LayerProperty, V>)
      ensures this.values == values
    {
      this.values := values;
    }
  }

  /** ChangeValueCommand<Layer, Value> bound to one property, with its obsolete flag. */
  class ChangeValueCommand<V(==)> {
    const document: Document
    const target: Layer<V>
    const property: LayerProperty
    var value: V
    var obsolete: bool

    /** The constructor only stores; the layer is not touched. */
    constructor (document: Document, target: Layer<V>, property: LayerProperty, value: V)
      ensures this.document == document && this.target == target && this.property == property
      ensures this.value == value && !obsolete
    {
      this.document := document;
      this.target := target;
      this.property := property;
      this.value := value;
      obsolete := false;
    }

    /** id() as the corrected overrides report it. */
    function Id(): CommandId
    {
      CommandIdOf(property)
    }

    function Get(): V
      reads target
      requires property in target.values
    {
      target.values[property]
    }

    method Redo()
      requires property in target.values
      modifies this, target
      ensures (target.values, value) == Swap(old(target.values), property, old(value))
      ensures obsolete == old(obsolete)
    {
      var previous := Get();
      target.values := target.values[property := value];
      value := previous;
    }

    method Undo()
      requires property in target.values
      modifies this, target
      ensures (target.values, value) == Swap(old(target.values), property, old(value))
      ensures obsolete == old(obsolete)
    {
      var previous := Get();
      target.values := target.values[property := value];
      value := previous;
    }

    /**
     * mergeWith: accepted exactly for the same document and layer; the
     * remembered value stays, and the command becomes obsolete when the
     * layer holds that value again.
     */
    method MergeWith(other: ChangeValueCommand<V>) returns (merged: bool)
      requires property in target.values
      modifies this
      ensures merged <==> document == other.document && target == other.target
      ensures merged ==> obsolete == (target.values[property] == value)
      ensures !merged ==> obsolete == old(obsolete)
      ensures value == old(value)
    {
      if document == other.document && target == other.target {
        obsolete := Get() == value;
        return true;
      }
      return false;
    }
  }
}
