/** A quantified fact F that stays out of the way of other proofs is stated as
    `forall z: nat {:trigger Seal(z)} :: Seal(z) ==> F`: it says no less than F, but a proof looks into
    it only where it breaks the seal, by asserting Seal(0). */
module Sealing {

  ghost predicate Seal(z: nat) {
    true
  }

  /** More seals, for facts that are wanted apart from those under the first. */
  ghost predicate Unroll(z: nat) {
    true
  }

  ghost predicate Unwrap(z: nat) {
    true
  }

  ghost predicate Uncover(z: nat) {
    true
  }
}
