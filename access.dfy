// The role and ownership decisions the routes make inline, and the
// `authorize(...roles)` gate of the authentication middleware.
module Access {
  import opened Common
  import opened Store

  /** What a middleware step does with a request: pass it on with `next()`
      or end it with an error status. */
  datatype Gate = Next | Deny(status: nat)

  /** `authorize(...roles)`: 401 without an authenticated user, 403 when the
      user's role is not one of `roles`, otherwise `next()`. */
  function Authorize(user: Option<User>, roles: seq<string>): (g: Gate)
    ensures g == Deny(401) <==> user.None?
    ensures g == Deny(403) <==> user.Some? && user.value.role !in roles
    ensures g == Next <==> user.Some? && user.value.role in roles
  {
    if user.None? then Deny(401)
    else if user.value.role !in roles then Deny(403)
    else Next
  }

  /** The `authorize('admin')` step in front of every admin-only route,
      reached after `authenticate` has attached the requester. */
  function AdminGate(requester: User): (g: Gate)
    ensures g == Next <==> requester.role == "admin"
    ensures g != Next ==> g == Deny(403)
  {
    Authorize(Some(requester), ["admin"])
  }

  /** A requester may see (and answer) a dataset unless the requester's role
      is exactly `user` and the dataset is unpublished. */
  predicate CanRead(role: string, d: Dataset)
  {
    !(role == "user" && !d.is_published)
  }

  /** Only an admin or the answer's owner may delete an answer. */
  predicate CanDeleteAnswer(requester: User, a: Answer)
  {
    requester.role == "admin" || a.user_id == requester.id
  }
}
