/**
  * The state of the page elements the diagram drives, reduced to what the
  * cascade reads and writes. Elements are values here; which node they
  * belong to is recorded by the maps that hold them.
  */
module Dom {

  /**
    * A button: its DOM id, whether its class list holds "selected" and
    * "selectable", and its `disabled` property.
    */
  datatype Control = Control(id: string, selected: bool, selectable: bool, disabled: bool)

  /**
    * An arrow element: its "stroke" attribute and its optional
    * "marker-start" and "marker-end" attributes (absent is None).
    */
  datatype Arrow = Arrow(stroke: string, markerStart: MaybeAttr, markerEnd: MaybeAttr)

  /** An attribute that an element may or may not carry. */
  datatype MaybeAttr = Absent | Present(value: string)

  /** The stroke colour of an arrow whose button is not selected. */
  const Gray := "gray"

  /** The marker an arrow end gets when its button is not selected. */
  const WhiteArrowMarker := "url(#arrow-right-white)"
}
