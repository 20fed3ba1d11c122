/**
 * The state-handling part of drawing_tab.py: the field list shown beside
 * the canvas, the double-click that picks the field to draw next, and the
 * preloading of saved rectangles.  The list widget is reduced to its items'
 * text and stored key; colouring them is outside the model, so the
 * canvas's `notices` log records every call of `mark_field_used`, the
 * callback the tab hands to its canvas.
 */
module Drawing {
  import opened Options
  import opened Text
  import opened QtGeometry
  import opened Canvas

  /** The marker the data file uses in place of a line break. */
  const Marker := "3==D"

  /**
   * The text shown for a field: `field.replace("3==D", " ").strip()`.  It
   * never shows the marker and never starts or ends with whitespace.
   */
  function DisplayName(field: string): (shown: string)
    ensures NoOccurrence(shown, Marker)
    ensures Trimmed(shown)
  {
    var spaced := ReplaceAll(field, Marker, " ");
    ReplaceAllRemoves(field, Marker, " ");
    StripKeepsNoOccurrence(spaced, Marker);
    StripTrims(spaced);
    Strip(spaced)
  }

  /**
   * A display name never shows the marker and never starts or ends with
   * whitespace; a field that has neither is shown as it is.
   */
  lemma DisplayNameClean(field: string)
    ensures NoOccurrence(DisplayName(field), Marker)
    ensures Trimmed(DisplayName(field))
    ensures NoOccurrence(field, Marker) && Trimmed(field) ==> DisplayName(field) == field
  {
    if NoOccurrence(field, Marker) {
      ReplaceAllNoOccurrence(field, Marker, " ");
      StripTrims(field);
    }
  }

  /** A list entry: the text it shows and the field stored under `Qt.UserRole`. */
  datatype ListItem = ListItem(text: string, key: string)

  /** The loop that fills the field list: one item per field, in order. */
  method ListItems(fields: seq<string>) returns (items: seq<ListItem>)
    ensures |items| == |fields|
    ensures forall i :: 0 <= i < |fields| ==> items[i] == ListItem(DisplayName(fields[i]), fields[i])
  {
    items := [];
    var i := 0;
    while i < |fields|
      invariant 0 <= i <= |fields| && |items| == i
      invariant forall k :: 0 <= k < i ==> items[k] == ListItem(DisplayName(fields[k]), fields[k])
    {
      items := AppendItem(items, fields[i]);
      i := i + 1;
    }
  }

  /** One pass of that loop: the item for `field` joins the list. */
  method AppendItem(items: seq<ListItem>, field: string) returns (items': seq<ListItem>)
    ensures items' == items + [ListItem(DisplayName(field), field)]
  {
    var shown := DisplayName(field);
    items' := items + [ListItem(shown, field)];
  }

  /** The saved `(rect, field)` pairs as canvas entries, in the same order. */
  function Tagged(rectData: seq<(Rect, string)>): seq<Placed>
  {
    if |rectData| == 0 then []
    else
      var last := rectData[|rectData| - 1];
      Tagged(rectData[..|rectData| - 1]) + [Placed(last.0, RectColor, last.1)]
  }

  /** One `mark_field_used(field)` per saved pair. */
  function Marks(rectData: seq<(Rect, string)>): seq<Notice>
  {
    if |rectData| == 0 then []
    else Marks(rectData[..|rectData| - 1]) + [Notice(rectData[|rectData| - 1].1, false)]
  }

  /**
   * Entry `i` of the loaded list is saved pair `i` in the standard colour,
   * and the mark for it is a `remove=False` call for its field.
   */
  lemma {:induction false} TaggedEntries(rectData: seq<(Rect, string)>)
    ensures |Tagged(rectData)| == |rectData| && |Marks(rectData)| == |rectData|
    ensures forall i :: 0 <= i < |rectData| ==> Tagged(rectData)[i] == Placed(rectData[i].0, RectColor, rectData[i].1)
    ensures forall i :: 0 <= i < |rectData| ==> Marks(rectData)[i] == Notice(rectData[i].1, false)
  {
    if |rectData| > 0 {
      TaggedEntries(rectData[..|rectData| - 1]);
    }
  }

  /** Loading one more saved pair appends one entry and one mark. */
  lemma TaggedSnoc(rectData: seq<(Rect, string)>, i: int)
    requires 0 <= i < |rectData|
    ensures Tagged(rectData[..i + 1]) == Tagged(rectData[..i]) + [Placed(rectData[i].0, RectColor, rectData[i].1)]
    ensures Marks(rectData[..i + 1]) == Marks(rectData[..i]) + [Notice(rectData[i].1, false)]
  {
    assert rectData[..i + 1][..i] == rectData[..i];
  }

  /**
   * Preloading skips every guard of a drawn rectangle: the same rectangle
   * saved under two fields is loaded twice, and the two share a cell.
   */
  lemma LoadSkipsOverlapGuard(g: int, r: Rect)
    requires g > 0 && r == Rect(0, 0, g, g)
    ensures RectCells(r, g) == {(0, 0)}
    ensures !PairwiseDisjoint(Tagged([(r, "a"), (r, "b")]), g)
  {
    DivUnique(g - 1, g, 0, g - 1);
    DivUnique(0, g, 0, 0);
    TaggedEntries([(r, "a"), (r, "b")]);
    var rects := Tagged([(r, "a"), (r, "b")]);
    assert (0, 0) in RectCells(rects[0].rect, g) * RectCells(rects[1].rect, g);
  }

  /** drawing_tab.py's `DrawingTab`, reduced to its canvas and its field list. */
  class DrawingTab {
    const canvas: GridCanvas
    var fields: seq<string>
    var items: seq<ListItem>

    constructor (fields: seq<string>, g: int)
      requires g > 0
      ensures fresh(canvas) && canvas.Valid() && canvas.DraftOnGrid()
      ensures canvas.startPoint == None && canvas.endPoint == None
      ensures canvas.g == g && canvas.fields == fields && canvas.rects == [] && canvas.notices == []
      ensures canvas.activeField == None
      ensures this.fields == fields
      ensures |items| == |fields|
      ensures forall i :: 0 <= i < |fields| ==> items[i] == ListItem(DisplayName(fields[i]), fields[i])
    {
      var list := ListItems(fields);
      this.fields := fields;
      canvas := new GridCanvas(fields, g);
      items := list;
    }

    /**
     * `on_item_double_clicked`: the item's stored field, not its shown
     * text, becomes the active field, unless that field already has a
     * rectangle.
     */
    method OnItemDoubleClicked(index: int)
      requires 0 <= index < |items| && canvas.Valid()
      modifies canvas`activeField
      ensures canvas.Valid()
      ensures items[index].key in canvas.usedFields ==> canvas.activeField == old(canvas.activeField)
      ensures items[index].key !in canvas.usedFields ==> canvas.activeField == Some(items[index].key)
    {
      var field := items[index].key;
      if field !in canvas.usedFields {
        canvas.SetActiveField(field);
      }
    }

    /**
     * One pass of the loop of `load_saved_rects`, stated against the lists
     * the loop started from: after pair `i`, the canvas holds the first
     * `i + 1` pairs after `rects0` and their marks after `notices0`.
     */
    method PreloadNext(rectData: seq<(Rect, string)>, i: int, ghost rects0: seq<Placed>, ghost notices0: seq<Notice>)
      requires 0 <= i < |rectData| && canvas.Valid()
      requires canvas.rects == rects0 + Tagged(rectData[..i])
      requires canvas.notices == notices0 + Marks(rectData[..i])
      modifies canvas`rects, canvas`occupied, canvas`usedFields, canvas`notices
      ensures canvas.Valid()
      ensures canvas.rects == rects0 + Tagged(rectData[..i + 1])
      ensures canvas.notices == notices0 + Marks(rectData[..i + 1])
    {
      TaggedSnoc(rectData, i);
      ghost var tagged, marks := Tagged(rectData[..i]), Marks(rectData[..i]);
      var rect, field := rectData[i].0, rectData[i].1;
      var cells := CellsInRect(rect, canvas.g);
      canvas.AddRect(rect, cells, field);
      assert canvas.rects == rects0 + tagged + [Placed(rect, RectColor, field)];
      assert canvas.notices == notices0 + marks + [Notice(field, false)];
    }

    /**
     * `load_saved_rects`: every saved pair is appended, in order, after the
     * existing rectangles.  The canvas stays consistent: the occupied cells
     * and used fields grow by exactly those of the loaded pairs.
     */
    method LoadSavedRects(rectData: seq<(Rect, string)>)
      requires canvas.Valid()
      modifies canvas`rects, canvas`occupied, canvas`usedFields, canvas`notices
      ensures canvas.Valid()
      ensures canvas.rects == old(canvas.rects) + Tagged(rectData)
      ensures canvas.occupied == old(canvas.occupied) + AllCells(Tagged(rectData), canvas.g)
      ensures canvas.usedFields == old(canvas.usedFields) + Names(Tagged(rectData))
      ensures canvas.notices == old(canvas.notices) + Marks(rectData)
    {
      var i := 0;
      while i < |rectData|
        invariant 0 <= i <= |rectData|
        invariant canvas.Valid()
        invariant canvas.rects == old(canvas.rects) + Tagged(rectData[..i])
        invariant canvas.notices == old(canvas.notices) + Marks(rectData[..i])
      {
        PreloadNext(rectData, i, old(canvas.rects), old(canvas.notices));
        i := i + 1;
      }
      assert rectData[..i] == rectData;
      AllCellsConcat(old(canvas.rects), Tagged(rectData), canvas.g);
    }
  }

}
