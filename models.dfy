/** The user schemas of backend/models.py that the token codec touches. */
module Models {
  import opened Wrappers

  /** The credentials a client submits: `UserIn` (models.py:14-15), with
      `username` inherited from `User` (models.py:10-11). */
  datatype UserIn = UserIn(username: string, password: string)

  /** The user description handed back to an authenticated request: `UserOut`
      (models.py:18-21), reduced to the one field the codec fills in. */
  datatype UserOut = UserOut(username: string)

  /** The fields of `UserOut` that have no default (models.py:11, 21): a
      construction that leaves one of them out fails validation. */
  const UserOutRequiredFields: set<string> := {"username", "url"}

  /** Building a `UserOut` from the named fields `given`, as its schema
      validates it: the first required field missing is reported. */
  function ConstructUserOut(username: string, given: set<string>): (r: Result<UserOut, string>)
    ensures r.Success? <==> UserOutRequiredFields <= given
    ensures r.Failure? ==> r.error in UserOutRequiredFields && r.error !in given
    ensures r.Success? ==> r.value.username == username
  {
    if "username" !in given then Failure("username")
    else if "url" !in given then Failure("url")
    else Success(UserOut(username))
  }

  /** A `User` node of the graph store, with the two properties it is created with. */
  datatype UserNode = UserNode(username: string, password: string)
}
