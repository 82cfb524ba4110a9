/** The classification enum of main.go and its validity check. */
module Classification {

  /** A stored classification is an integer column; 0 means "not yet classified". */
  const Unclassified: int := 0
  const NeverArchive: int := 1
  const ArchiveAfter60d: int := 2
  const DeleteAfter60d: int := 3

  /** `isValidClassification`: the switch accepts exactly the three policy constants. */
  predicate IsValidClassification(input: int)
    ensures IsValidClassification(input) <==> 1 <= input <= 3
  {
    match input
    case 1 => true
    case 2 => true
    case 3 => true
    case _ => false
  }

  /** The values the unit test checks, each with its expected verdict. */
  lemma ValidityExamples()
    ensures IsValidClassification(1) && IsValidClassification(2) && IsValidClassification(3)
    ensures !IsValidClassification(0) && !IsValidClassification(4) && !IsValidClassification(-1)
  {
  }
}
