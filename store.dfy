/** The views of webapp/views.py that read or change the file table, as methods of
    one store object: the file table it updates in place, the user table it only
    reads, and the next primary key the database will hand out. */
module Store {
  import opened Models
  import opened Text
  import opened Permissions
  import opened HomeListing
  import opened Sharing

  /** What a view answers: the object asked for, a missing object (404), a failed
      access test, or a form that did not validate. */
  datatype Response<T> = Ok(value: T) | NotFound | Denied | Invalid

  /** The rows of the table with a key below `n`, in key order: the unordered
      queryset the listing starts from. */
  function RowsBelow(files: Files, n: nat): (r: seq<Row>)
    ensures forall x :: x in r <==> x.id < n && x.id in files && files[x.id] == x.file
    ensures forall i, j :: 0 <= i < j < |r| ==> r[i].id < r[j].id
  {
    if n == 0 then []
    else RowsBelow(files, n - 1) + (if n - 1 in files then [Row(n - 1, files[n - 1])] else [])
  }

  class FileStore {
    var files: Files
    const users: Users
    var nextId: FileId

    /** Every key was handed out before, and every stored name fits the field. */
    ghost predicate Valid()
      reads this
    {
      forall id :: id in files ==> id < nextId && ValidName(files[id].name)
    }

    constructor (users: Users)
      ensures Valid()
      ensures files == map[] && nextId == 1 && this.users == users
    {
      files := map[];
      this.users := users;
      nextId := 1;
    }

    /** The home page's queryset: every free file that matches the search, each
        row once, newest first. */
    function Home(search: Option<string>): (r: seq<Row>)
      reads this
      requires Valid()
      ensures NewestFirst(r)
      ensures forall x :: x in r <==> x.id in files && files[x.id] == x.file && Listed(x.file, search)
      ensures forall x :: x in r ==> x.file.access == Free
      ensures DistinctIds(r)
    {
      ListingDistinctIds(RowsBelow(files, nextId), search);
      Listing(RowsBelow(files, nextId), search)
    }

    /** `FileDetailView`: the record, when it exists and the viewer may see it. */
    method Detail(id: FileId, viewer: Option<UserId>) returns (r: Response<File>)
      ensures r.NotFound? <==> id !in files
      ensures r.Ok? <==> id in files && CanView(files[id], viewer)
      ensures r.Ok? ==> r.value == files[id]
      ensures r.Ok? || r.NotFound? || r.Denied?
    {
      if id !in files {
        return NotFound;
      }
      var file := files[id];
      if CanView(file, viewer) {
        r := Ok(file);
      } else {
        r := Denied;
      }
    }

    /** `FileCreateView`: a valid form creates a record under a fresh key, dated
        `today`, authored by the requester exactly when one is logged in. */
    method Create(requester: Option<UserId>, name: string, access: Access, today: Date)
      returns (r: Response<FileId>)
      requires Valid()
      modifies this
      ensures Valid()
      ensures !ValidName(name) ==> r == Invalid && files == old(files) && nextId == old(nextId)
      ensures ValidName(name) ==>
                r == Ok(old(nextId)) && old(nextId) !in old(files) && nextId == old(nextId) + 1 &&
                files == old(files)[old(nextId) := NewFile(name, today, requester, access)]
      ensures r.Ok? ==> Str(files[r.value]) == name
    {
      if !ValidName(name) {
        return Invalid;
      }
      var id := nextId;
      files := files[id := NewFile(name, today, requester, access)];
      nextId := nextId + 1;
      r := Ok(id);
    }

    /** `FileUpdateView`: after the access test, a valid form changes the name and
        the access level of the record and nothing else. */
    method Update(id: FileId, requester: Option<UserId>, hasChangePerm: bool, name: string, access: Access)
      returns (r: Response<()>)
      requires Valid()
      modifies this
      ensures Valid() && nextId == old(nextId)
      ensures r.NotFound? <==> id !in old(files)
      ensures r.Denied? <==> id in old(files) && !CanModify(old(files)[id], requester, hasChangePerm)
      ensures r.Ok? <==> id in old(files) && CanModify(old(files)[id], requester, hasChangePerm) && ValidName(name)
      ensures r.Ok? ==> files == old(files)[id := Edit(old(files)[id], name, access)]
      ensures r.Ok? ==> Str(files[id]) == name
      ensures !r.Ok? ==> files == old(files)
      ensures files.Keys == old(files).Keys
      ensures forall k :: k in old(files) ==>
                files[k].createdAt == old(files)[k].createdAt && files[k].author == old(files)[k].author
    {
      if id !in files {
        return NotFound;
      }
      var file := files[id];
      if !CanModify(file, requester, hasChangePerm) {
        return Denied;
      }
      if !ValidName(name) {
        return Invalid;
      }
      files := files[id := Edit(file, name, access)];
      r := Ok(());
    }

    /** `FileDeleteView`: after the access test, the record is removed. */
    method Delete(id: FileId, requester: Option<UserId>, hasDeletePerm: bool) returns (r: Response<()>)
      requires Valid()
      modifies this
      ensures Valid() && nextId == old(nextId)
      ensures r.NotFound? <==> id !in old(files)
      ensures r.Ok? <==> id in old(files) && CanModify(old(files)[id], requester, hasDeletePerm)
      ensures r.Ok? || r.NotFound? || r.Denied?
      ensures r.Ok? ==> files == old(files) - {id}
      ensures !r.Ok? ==> files == old(files)
    {
      if id !in files {
        return NotFound;
      }
      if !CanModify(files[id], requester, hasDeletePerm) {
        return Denied;
      }
      files := files - {id};
      r := Ok(());
    }

    /** `SearchUserView`: shares a file with the user of the given (stripped)
        username, as `GrantAccess` specifies. */
    method Grant(searchUser: string, fileId: Option<FileId>) returns (reply: GrantReply)
      requires Valid()
      modifies this
      ensures Valid() && nextId == old(nextId)
      ensures GrantOutcome(reply, files) == GrantAccess(old(files), users, searchUser, fileId)
    {
      var name := Strip(searchUser);
      if name !in users || fileId.None? || fileId.value !in files {
        return NoSuchUser;
      }
      var user, id := users[name], fileId.value;
      var file := files[id];
      if user !in file.shared {
        files := files[id := file.(shared := file.shared + {user})];
        reply := Granted(name, user);
      } else {
        reply := AlreadyShared;
      }
    }

    /** `DeleteUser`: takes a user off a file's sharing set, as `RevokeAccess`
        specifies. */
    method Revoke(fileId: Option<FileId>, userId: Option<UserId>) returns (reply: RevokeReply)
      requires Valid()
      modifies this
      ensures Valid() && nextId == old(nextId)
      ensures RevokeOutcome(reply, files) == RevokeAccess(old(files), users, fileId, userId)
    {
      if fileId.None? || fileId.value !in files || userId.None? || userId.value !in users.Values {
        return LookupFailed;
      }
      var id, user := fileId.value, userId.value;
      var file := files[id];
      files := files[id := file.(shared := file.shared - {user})];
      reply := Revoked;
    }
  }

  /** The string form of every record a valid store holds fits the name field. */
  lemma StoredStrFits(store: FileStore, id: FileId)
    requires store.Valid() && id in store.files
    ensures |Str(store.files[id])| <= NameMaxLength
  {
  }
}
