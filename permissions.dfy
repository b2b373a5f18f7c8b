/** The access tests of the detail, update and delete views (webapp/views.py). A
    viewer is a user id, or None for the anonymous user. The anonymous user never
    compares equal to a record's author, not even to a missing one, and is never
    in a sharing set. */
module Permissions {
  import opened Models

  /** `request.user == file.author`: both present and the same user. */
  predicate IsAuthor(f: File, viewer: Option<UserId>) {
    f.author.Some? && viewer.Some? && f.author.value == viewer.value
  }

  /** `request.user in file.private.all()`. */
  predicate IsShared(f: File, viewer: Option<UserId>) {
    viewer.Some? && viewer.value in f.shared
  }

  /** The detail view's test: a file that is not private is visible to everybody;
      a private one to its author and to the users it is shared with. */
  function CanView(f: File, viewer: Option<UserId>): (ok: bool)
    ensures f.access == Free ==> ok
    ensures viewer.None? ==> (ok <==> f.access == Free)
    ensures f.access == Private && viewer.Some? ==>
              (ok <==> f.author == viewer || viewer.value in f.shared)
  {
    f.access != Private || IsAuthor(f, viewer) || IsShared(f, viewer)
  }

  /** The update and delete views' test, as written: the first disjunct is
      `is_authenticated`, so every logged-in requester passes; `hasPerm` is the
      outcome of `has_perm` for the view's permission ('webapp.change_file' or
      'webapp.delete_file'). */
  function CanModify(f: File, requester: Option<UserId>, hasPerm: bool): (ok: bool)
    ensures requester.Some? ==> ok
    ensures requester.None? ==> (ok <==> hasPerm)
  {
    requester.Some? || IsAuthor(f, requester) || hasPerm
  }

  /** Who wrote a file plays no part in whether it may be edited or deleted. */
  lemma ModifyIgnoresAuthorship(f: File, author: Option<UserId>, requester: Option<UserId>, hasPerm: bool)
    ensures CanModify(f, requester, hasPerm) == CanModify(f.(author := author), requester, hasPerm)
  {
  }

  /** In particular an authenticated requester who is neither the author nor holds
      the permission may still edit or delete. */
  lemma StrangerMayModify(f: File, requester: UserId)
    requires !IsAuthor(f, Some(requester))
    ensures CanModify(f, Some(requester), false)
  {
  }
}
