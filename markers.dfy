/** Marker objects and the messages published for them. A marker object
    owns one visualization marker message, of which the model keeps the
    namespace, the numeric id and the action; its visual payload (shape,
    colour, pose, frame, stamp, lifetime) is not modelled. */
module Markers {

  datatype Option<T> = None | Some(value: T)

  /** The two marker actions the publisher uses. */
  datatype Action = Add | Delete

  /** The part of a marker message the publisher decides on. */
  datatype Msg = Msg(ns: string, id: int, action: Action)

  /** A named marker. `hasVisual` and `hidden` are maintained by the marker
      itself; the publisher only reads them. The publisher writes `action`
      (on erase) and `isPublished` (on publish). */
  class MarkerObject {
    const identifier: string
    const ns: string
    const id: int
    var action: Action
    var hasVisual: bool
    var hidden: bool
    var isPublished: bool

    constructor (identifier: string, ns: string, id: int, hasVisual: bool, hidden: bool)
      ensures this.identifier == identifier && this.ns == ns && this.id == id
      ensures this.hasVisual == hasVisual && this.hidden == hidden
      ensures action == Add && !isPublished
    {
      this.identifier := identifier;
      this.ns := ns;
      this.id := id;
      this.hasVisual := hasVisual;
      this.hidden := hidden;
      action := Add;
      isPublished := false;
    }

    /** The message this marker contributes to a batch. */
    function Message(): Msg
      reads this`action
    {
      Msg(ns, id, action)
    }
  }
}
