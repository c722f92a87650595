/** The verdicts the monitor reports and the text field that shows them. */
module Labels {

  /** The two classifications both detection paths produce. */
  datatype Label = NoBreathing | Breathing

  /**
   * What the application's result label shows: its initial placeholder, the
   * outcome of a two-image comparison (a percentage and a verdict), or the
   * outcome of one live iteration (a movement count and a verdict).
   */
  datatype Display =
    | Placeholder
    | ImageResult(percent: real, imageLabel: Label)
    | MovementResult(movement: nat, movementLabel: Label)
}
