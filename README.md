# File store with visibility rules

A Dafny model of the access-control and sharing logic of a small Django file-sharing
site (`source/webapp/views.py`, `source/webapp/models.py`). A file record has a name
(at most 100 characters), a creation date, an optional author, an access level
(`Free` or `Private`) and a set of users it is privately shared with. The model covers:

- the detail view's visibility test and the edit/delete views' test (`Permissions`);
- the home listing: free files only, narrowed by a case-insensitive name search,
  newest first, in pages of ten (`HomeListing`, with the string helpers in `Text`);
- granting a user access by username and revoking it by id (`Sharing`, as functions
  from the file table before to the reply and the table after);
- a `Store.FileStore` class whose methods are the views that read or change the
  file table in place: detail, create, update, delete, grant, revoke. Each mutating
  method states its whole new state; `Grant` and `Revoke` are proved equal to the
  `Sharing` functions, whose properties are proved as lemmas.

Viewers and requesters are `Option<UserId>`, `None` being the anonymous user. The
anonymous user is never equal to an author (not even to a missing one) and is never
in a sharing set, so the author test requires both sides to be present.

As written, the edit and delete tests start with `is_authenticated`, so every logged-in
user may edit or delete every file; the model keeps this (`CanModify`) and proves it
(`StrangerMayModify`, `ModifyIgnoresAuthorship`). The grant and revoke views check no
permission at all; their methods take no requester.

Inputs that come from outside are parameters: the requester and whether it holds the
`webapp.change_file` / `webapp.delete_file` permission, the current date on create,
the search value, the page number, the request's `search_user`, `file_id` and
`user_id` values. An absent or non-numeric `file_id` / `user_id` is `None`.

The access values are `'free'` and `'private'`; edit and delete pass for any
authenticated requester; a failed revoke lookup is an uncaught exception, modelled as
a `LookupFailed` reply that changes nothing.

User keys start at 1, as the database's auto-increment hands them out (`UserId` is
a positive number), so the create view's test `if self.request.user.id:` is the same
as being logged in, and `Create` sets the author exactly for a logged-in requester.

## Model

| member | source | states |
|---|---|---|
| `Models.NewFile` | source/webapp/views.py:69-72 | a created record is dated today, has an empty sharing set, and has an author exactly when the requester is authenticated, that author being the requester |
| `Models.Edit` | source/webapp/views.py:77 | an edit sets the name and access level, the form's fields, and keeps the creation date, the author and the sharing set |
| `Permissions.CanView` | source/webapp/views.py:54-56 | a free file is visible to everyone; an anonymous viewer sees exactly the free files (a null author never matches); a logged-in viewer sees a private file iff it is the author or in the sharing set |
| `Permissions.CanModify` | source/webapp/views.py:80-82 | every authenticated requester passes; for the anonymous requester the result is exactly the permission flag |
| `Permissions.ModifyIgnoresAuthorship` | source/webapp/views.py:82 | changing a file's author never changes the edit/delete decision |
| `Permissions.StrangerMayModify` | source/webapp/views.py:90-92 | an authenticated requester who is not the author and lacks the permission still passes |
| `Text.TrimStart` | source/webapp/views.py:103 | the result is a suffix of the input, all dropped characters are whitespace, and it does not start with whitespace |
| `Text.TrimEnd` | source/webapp/views.py:103 | the result is a prefix of the input, all dropped characters are whitespace, and it does not end with whitespace |
| `Text.Strip` | source/webapp/views.py:103 | the stripped username is a contiguous piece of the input with only whitespace before and after it, has whitespace at neither end, and is empty iff the input is all whitespace |
| `Text.StripIdempotent` | source/webapp/views.py:103 | stripping twice equals stripping once |
| `Text.StripPadded` | source/webapp/views.py:103 | whitespace typed before and after a name is removed and the name itself is kept |
| `Text.StripKeepsTrimmed` | source/webapp/views.py:103 | a string with no whitespace at either end strips to itself |
| `Text.ContainsIff` | source/webapp/views.py:35 | the left-to-right scan succeeds iff the query occurs at some position of the name |
| `Text.IContains` | source/webapp/views.py:35 | `name__icontains` holds iff the case-folded query occurs in the case-folded name |
| `Text.IContainsInfix` | source/webapp/views.py:35 | every piece of a name, the empty one included, matches that name |
| `HomeListing.Matching` | source/webapp/views.py:32-39 | the filter keeps exactly the rows that are free and, with a non-empty search, match it; it adds nothing |
| `HomeListing.Insert` | source/webapp/views.py:17 | inserting a row yields the old rows plus that row, as a multiset |
| `HomeListing.InsertNewestFirst` | source/webapp/views.py:17 | inserting into a newest-first sequence keeps it newest first |
| `HomeListing.SortNewestFirst` | source/webapp/views.py:17 | the ordering is a permutation of its input, sorted by creation date descending |
| `HomeListing.Listing` | source/webapp/views.py:32-39 | the listing is sorted newest first, is a permutation of the filtered rows, and holds a row iff it is an input row kept by the filter |
| `HomeListing.MatchingDistinctIds` | source/webapp/views.py:32-39 | filtering rows with distinct keys leaves rows with distinct keys |
| `HomeListing.InsertDistinctIds` | source/webapp/views.py:17 | inserting a row with a new key keeps all keys distinct |
| `HomeListing.SortDistinctIds` | source/webapp/views.py:17 | ordering keeps all keys distinct |
| `HomeListing.ListingDistinctIds` | source/webapp/views.py:17-39 | a table with distinct keys gives a listing in which every file appears at most once |
| `HomeListing.ListingOnlyFree` | source/webapp/views.py:35-38 | whatever the search, every listed file is free |
| `HomeListing.ListingSearch` | source/webapp/views.py:34-36 | with a non-empty search, a row is listed iff it is free and its name contains the search case-insensitively |
| `HomeListing.EmptySearchIsNoSearch` | source/webapp/views.py:34-38 | an empty search and no search give the same listing, which holds exactly the free files |
| `HomeListing.MatchingIgnoresEmptySearch` | source/webapp/views.py:34 | the filter treats an empty search value like an absent one |
| `HomeListing.PageCount` | source/webapp/views.py:18 | there is at least one page, and just enough pages of ten to hold every row |
| `HomeListing.Page` | source/webapp/views.py:18 | a page exists iff its number is between 1 and the page count; it holds at most ten rows, exactly ten unless it is the last |
| `HomeListing.FirstPage` | source/webapp/views.py:18 | page 1 always exists and holds the first ten rows, or all of them when fewer |
| `HomeListing.FirstPageIsNewest` | source/webapp/views.py:17-18 | every file on page 1 of the listing is at least as new as every listed file beyond the first ten |
| `HomeListing.AllPages` | source/webapp/views.py:18 | the pages read in order give back the whole listing |
| `HomeListing.PagesFromIsSuffix` | source/webapp/views.py:18 | the pages from number k on give back the listing from row 10(k-1) on |
| `Sharing.GrantAccess` | source/webapp/views.py:101-117 | the error reply comes exactly when the stripped username or the file id does not resolve, and then nothing changes; otherwise the file's sharing set becomes the old one plus the user and no other record or field changes; the reply carries the username and id exactly when the user was not yet in the set |
| `Sharing.RevokeAccess` | source/webapp/views.py:120-125 | the failure reply comes exactly when the file id or user id does not resolve, and then nothing changes; otherwise the user is removed from that file's set, other members and records stay, and revoking a non-member changes nothing |
| `Sharing.GrantTwice` | source/webapp/views.py:110-113 | granting twice leaves the same table as granting once, and the second reply is the empty one |
| `Sharing.GrantThenView` | source/webapp/views.py:56 | after a successful grant the granted user may view the file |
| `Sharing.RevokeUndoesGrant` | source/webapp/views.py:110-124 | revoking a user just granted restores the file table exactly |
| `Sharing.RevokeThenView` | source/webapp/views.py:56 | after a revoke, a private file is visible to the revoked user iff that user is its author |
| `Sharing.ShareAndRevokeScenario` | source/webapp/views.py:101-125 | a private file of user 1 is hidden from user 2, visible after granting "bob" (user 2), hidden again after revoking user 2 |
| `Store.RowsBelow` | source/webapp/views.py:33 | the base queryset holds each stored record once, in key order |
| `Store.FileStore.constructor` | source/webapp/models.py:6-10 | an empty file table, with the given user table, handing out keys from 1 |
| `Store.FileStore.Home` | source/webapp/views.py:32-39 | the store's listing is newest first, holds every stored free file matching the search and nothing else, and holds each of them exactly once |
| `Store.FileStore.Detail` | source/webapp/views.py:50-56 | a missing key gives NotFound; otherwise the record is returned iff the viewer may see it, else access is denied |
| `Store.FileStore.Create` | source/webapp/views.py:59-72 | a name over 100 characters is rejected with no change; otherwise a record is added under a fresh key, dated today, authored by the requester iff authenticated, whose string form is the submitted name |
| `Store.FileStore.Update` | source/webapp/views.py:75-82 | missing key, failed access test and invalid name each leave the table unchanged; otherwise only the name and access of that record change and its string form is the submitted name; no edit changes a creation date or an author |
| `Store.FileStore.Delete` | source/webapp/views.py:85-92 | the record is removed iff it exists and the requester passes the test; otherwise nothing changes |
| `Store.FileStore.Grant` | source/webapp/views.py:101-117 | the reply and the new file table are those of `GrantAccess` on the old table |
| `Store.StoredStrFits` | source/webapp/models.py:15-16 | the string form of every record a valid store holds, which is its name, is at most 100 characters |
| `Store.FileStore.Revoke` | source/webapp/views.py:120-125 | the reply and the new file table are those of `RevokeAccess` on the old table |

## Left out

- The uploaded blob (`FileField`), its storage on disk, and `get_absolute_url`: no logic of the views depends on them.
- HTTP handling, JSON encoding, templates, redirects after success, and the listing's context with the echoed, url-encoded query.
- The search, create and edit forms are not part of this model; the search value is an optional string, and the only validation modelled is the 100-character name limit. Which fields the anonymous create form offers is unknown, so `Create` takes the access level from every requester.
- Authentication, sessions and `has_perm`: the requester and the permission outcome are inputs.
- The database: the file table is an in-memory map, keys are handed out in increasing order, and the user table is a username-to-id map the model only reads. Transactions and concurrent requests are not modelled.
- `on_delete=CASCADE` (deleting a user deletes that user's files), and `UserDetailView`.
- The grant view's error message text; it is one error reply.
- The grant view crashes, outside its `try`, when `search_user` is missing from the request; the model always receives a username.
- The revoke view's uncaught exceptions (missing or non-numeric parameters, unknown file or user) are one `LookupFailed` reply with no change, not a server error.
- The paginator's `page=last` form and non-numeric page values; the page number is an integer.
- Ties in creation date: the database leaves their order open; the model orders rows by key first and then by date, without claiming anything about equal dates.
- Text.IContains: case folding is ASCII only, as SQL `LIKE` does on SQLite; a database that folds all of Unicode would match more names.
