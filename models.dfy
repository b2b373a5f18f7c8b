/** The record kept for every uploaded file (webapp/models.py), together with the
    two fields the views rely on: the `access` level and the `private` set of users
    the file is shared with. */
module Models {

  datatype Option<+T> = None | Some(value: T)

  /** Primary keys of users, as the database hands them out: from 1 up, so a
      logged-in user's `id` is never falsy and `if request.user.id:` is the same
      test as being logged in. */
  type UserId = n: nat | n >= 1 witness 1

  /** Primary keys of files. */
  type FileId = nat

  /** A calendar date (the record's DateField), as a day number: later dates are larger. */
  type Date = int

  /** The two values the views compare `access` against: 'free' and 'private'. */
  datatype Access = Free | Private

  /** The longest name the CharField accepts. */
  const NameMaxLength: nat := 100

  /** One file record. `author` is None for an anonymous upload; `shared` is the
      many-to-many `private` relation. The uploaded blob itself is not modelled. */
  datatype File = File(
    name: string,
    createdAt: Date,
    author: Option<UserId>,
    access: Access,
    shared: set<UserId>)

  predicate ValidName(name: string) {
    |name| <= NameMaxLength
  }

  /** A record as the create view stores it: `created_at` is today's date, the
      author is the requester when one is logged in, and nobody is shared yet. */
  function NewFile(name: string, today: Date, requester: Option<UserId>, access: Access): (f: File)
    ensures f.author.Some? <==> requester.Some?
    ensures f.author.Some? ==> f.author == requester
    ensures f.createdAt == today && f.shared == {}
    ensures f.name == name && f.access == access
  {
    File(name, today, requester, access, {})
  }

  /** What an edit through the update view changes: the name and the access level.
      The creation date, the author and the sharing set are kept. */
  function Edit(f: File, name: string, access: Access): (g: File)
    ensures g.name == name && g.access == access
    ensures g.createdAt == f.createdAt
    ensures g.author == f.author && g.shared == f.shared
  {
    f.(name := name, access := access)
  }

  /** The string form of a record. */
  function Str(f: File): (s: string)
    ensures s == f.name
    ensures ValidName(f.name) ==> |s| <= NameMaxLength
  {
    f.name
  }
}
