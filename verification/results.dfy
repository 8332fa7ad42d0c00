/** The outcome of a registry operation that looks a match up by ID: either the
    value it produced, or the signal that no match is stored under that ID
    (which the HTTP layer turns into a 404). */
module Results {

  datatype Result<+T> = Ok(value: T) | NotFound
}
