/**
  The patch objects the diff engine hands back (the `diff-match-patch` library, whose
  algorithm is not part of this model). The middleware only stores them, tests them
  for emptiness and sends them as JSON.
*/
module DiffMatchPatch {

  /** The three kinds of edit, written -1, 1 and 0 by the library. */
  datatype Operation = DiffDelete | DiffInsert | DiffEqual

  datatype Diff = Diff(op: Operation, text: string)

  /** One hunk: its edits and where it applies in the old and the new text. */
  datatype Patch = Patch(diffs: seq<Diff>, start1: nat, start2: nat, length1: nat, length2: nat)

  /** Computes the patches that turn the first text into the second. */
  type Differ = (string, string) -> seq<Patch>

  /**
    The one fact about the engine the negotiation depends on: it produces no patch
    exactly when the two texts are identical.
  */
  ghost predicate EmptyIffIdentical(diff: Differ) {
    forall a, b :: diff(a, b) == [] <==> a == b
  }

}
