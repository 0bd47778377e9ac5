/** The result both scorers return: a score, the missing keywords and a
    summary sentence. */
module Results {

  /** The largest number of missing keywords a result lists. */
  const MissingLimit: nat := 5

  datatype Analysis = Analysis(score: int, missing: seq<string>, summary: string)

  /** The promise every result keeps: the score lies in 0..100 and the
      missing list has at most five entries, none of them empty. */
  predicate WellFormed(a: Analysis) {
    && 0 <= a.score <= 100
    && |a.missing| <= MissingLimit
    && forall w :: w in a.missing ==> w != []
  }
}
