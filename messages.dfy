/**
 * The messages the controllers send: a move from one tile to another, an
 * attack carrying its precomputed instance, and a rest. MessageManager.send
 * executes a message at once; here the manager keeps the messages sent, in
 * order, and their execution is not part of this model.
 */
module Messages {
  import opened Options
  import opened Tiles
  import opened Attacks
  import opened Units

  datatype Message =
    | MoveUnitMessage(fromTile: Option<TileId>, toTile: TileId)
    | AttackMessage(srcUnit: Unit, atkInstance: AttackInstance<Unit>)
    | RestMessage(unit: Option<Unit>)

  class MessageManager {
    /** Every message sent so far, in order. */
    var sent: seq<Message>

    constructor ()
      ensures sent == []
    {
      sent := [];
    }

    /** send: the message joins the record and nothing earlier changes. */
    method Send(message: Message)
      modifies this
      ensures sent == old(sent) + [message]
    {
      sent := sent + [message];
    }
  }
}
