/**
  The access rule for event writes: anyone may read, only a superuser may
  change anything.
*/
module Permissions {
  import opened Models

  /** The HTTP methods that only read. */
  const SafeMethods: set<string> := {"GET", "HEAD", "OPTIONS"}

  /** Who sent the request: nobody (a falsy user), the anonymous user, or a stored user. */
  datatype Requester = NoUser | Anonymous | Member(user: UserRow)

  /** The anonymous user is never a superuser. */
  predicate IsSuperuser(who: Requester)
  {
    who.Member? && who.user.isSuperuser
  }

  /** `IsAdminOrReadOnly.has_permission`; the view is passed along and never consulted. */
  function HasPermission<View>(verb: string, who: Requester, view: View): (allowed: bool)
    ensures verb in SafeMethods ==> allowed
    ensures verb !in SafeMethods ==> (allowed <==> IsSuperuser(who))
  {
    if verb in SafeMethods then true
    else who != NoUser && IsSuperuser(who)
  }

  /** Reads are allowed for every requester, superuser or not. */
  lemma ReadsAlwaysAllowed<View>(who: Requester, view: View)
    ensures HasPermission("GET", who, view)
    ensures HasPermission("HEAD", who, view)
    ensures HasPermission("OPTIONS", who, view)
  {
  }

  /** A missing user, the anonymous user and a non-superuser are refused every other method. */
  lemma WritesNeedSuperuser<View>(verb: string, who: Requester, view: View)
    requires verb !in SafeMethods
    ensures who == NoUser || who == Anonymous ==> !HasPermission(verb, who, view)
    ensures who.Member? ==> HasPermission(verb, who, view) == who.user.isSuperuser
  {
  }

  /** The decision does not depend on the view. */
  lemma ViewIrrelevant<View>(verb: string, who: Requester, v1: View, v2: View)
    ensures HasPermission(verb, who, v1) == HasPermission(verb, who, v2)
  {
  }
}
