/** The states of the image confirmation. */
module DfuStates {
  datatype DfuState = VERIFYING | CONFIRMING | CONFIRMED | FAILED
}
