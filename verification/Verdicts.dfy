/** The verdict of a content scan, shared by the scanner, the digest store and the detector. */
module Verdicts {

  datatype ScanVerdict = Clean | Review(reason: string) | Unsafe(reason: string)
}
