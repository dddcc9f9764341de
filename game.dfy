/** The phase of a board's resolution cycle. */
module Game {

  /** The four phases; a board is in exactly one of them. */
  datatype State = WaitingForInput | ProcessingInput | ClearingMatches | TilesFalling

  /** The phase a board starts in. */
  const InitialState: State := WaitingForInput
}
