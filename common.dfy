/** Values shared by the three parts of the model: the Option and Result
    wrappers for the error paths, the comment record the ranking views and the
    graph work on, and one entry of a group's representative-comment list. */
module Common {

  datatype Option<+T> = None | Some(value: T)

  datatype Result<+R, +E> = Success(value: R) | Failure(error: E)

  /** A comment as the client sees it: its id (tid), the agree and disagree
      vote counts, the star score, its text and its creation time. Vote counts
      are never negative. */
  datatype Comment = Comment(tid: int, A: nat, D: nat, stars: int, txt: string, created: int)

  /** One entry of a group's repness list: the comment it is about and the
      value of its "repful-for" field ("agree", "disagree" or anything else). */
  datatype RepnessEntry = RepnessEntry(tid: int, repfulFor: string)
}
