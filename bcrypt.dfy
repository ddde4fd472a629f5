/** bcryptjs as the code uses it: `hash(password, 10)` and `compare(password, hash)`.
    The digest is idealised: it is collision-free, so `compare` succeeds exactly for the
    password the hash was made from. Salt and the work factor's cost are not modelled beyond
    recording the cost. */
module Bcrypt {

  /** The cost factor both `bcrypt.hash(password, 10)` and `bcrypt.genSalt(10)` use. */
  const Cost: int := 10

  datatype Hash = Hash(cost: int, preimage: string)

  function HashPassword(password: string): (h: Hash)
    ensures h.cost == Cost
  {
    Hash(Cost, password)
  }

  predicate Compare(password: string, h: Hash) {
    h.preimage == password
  }

  lemma CompareOwnHash(password: string, candidate: string)
    ensures Compare(candidate, HashPassword(password)) <==> candidate == password
  {
  }
}
