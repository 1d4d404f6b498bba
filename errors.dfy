/**
 * The failures a service operation can end with: the application's own
 * ProjectCalculatorException (an error code and the name of the offending
 * request field), and the two Java errors that escape the services unchecked.
 */
module Errors {
  import opened Positions

  /** The constants of the ProjectCalculatorError enum, in declaration order. */
  datatype ProjectCalculatorError =
    | LoginAlreadyExists
    | WrongLoginOrPassword
    | UserIsNotFoundById
    | ProjectIsNotFoundById
    | RateIsNotFoundById
    | TeamMemberIsNotFoundById
    | TeamMemberAlreadyExists
    | WrongPosition
    | MilestoneIsNotFoundById
    | FeatureIsNotFoundById

  datatype Failure =
      /** A ProjectCalculatorException carrying an error code and the field it blames. */
    | Rejected(error: ProjectCalculatorError, field: string)
      /** The AssertionError the price computation raises when a position has no rate. */
    | RateMissing(position: Position)
      /** The IllegalArgumentException of Position.valueOf for a string that names no constant. */
    | NoSuchPosition(name: string)
}
