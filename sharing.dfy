/** Sharing a private file with a named user and taking the share back
    (SearchUserView and DeleteUser in webapp/views.py), as functions from the
    file table before to the reply and the file table after. */
module Sharing {
  import opened Models
  import opened Text
  import opened Permissions

  /** The file table: primary key to record. */
  type Files = map<FileId, File>

  /** The user table as the two views look users up: username to id. Usernames
      are unique, so a map keyed by them is the whole table. */
  type Users = map<string, UserId>

  /** The grant view's JSON body: `{user, user_id}` when the user was added, `{}`
      when the user already had access, `{error}` for any failure. */
  datatype GrantReply = Granted(username: string, userId: UserId) | AlreadyShared | NoSuchUser

  datatype GrantOutcome = GrantOutcome(reply: GrantReply, files: Files)

  /** The revoke view's reply: status 200, or the failure of one of its lookups. */
  datatype RevokeReply = Revoked | LookupFailed

  datatype RevokeOutcome = RevokeOutcome(reply: RevokeReply, files: Files)

  /** Every record keeps everything but its sharing set, and no record appears or
      disappears. */
  ghost predicate OnlySharingChanged(before: Files, after: Files) {
    after.Keys == before.Keys &&
    forall k :: k in before ==> after[k].(shared := before[k].shared) == before[k]
  }

  /** `SearchUserView.get`: strip the username, find the user, then the file (an
      absent or malformed file id is `None`); add the user to the file's sharing
      set when not yet in it. Every lookup failure is the one error reply. */
  function GrantAccess(files: Files, users: Users, searchUser: string, fileId: Option<FileId>): (g: GrantOutcome)
    ensures g.reply.NoSuchUser? <==>
              Strip(searchUser) !in users || fileId.None? || fileId.value !in files
    ensures g.reply.NoSuchUser? ==> g.files == files
    ensures OnlySharingChanged(files, g.files)
    ensures !g.reply.NoSuchUser? ==>
              g.files[fileId.value].shared == files[fileId.value].shared + {users[Strip(searchUser)]} &&
              forall k :: k in files && k != fileId.value ==> g.files[k] == files[k]
    ensures g.reply.Granted? <==>
              (!g.reply.NoSuchUser? && users[Strip(searchUser)] !in files[fileId.value].shared)
    ensures g.reply.Granted? ==>
              g.reply.username == Strip(searchUser) && g.reply.userId == users[Strip(searchUser)]
  {
    var name := Strip(searchUser);
    if name !in users || fileId.None? || fileId.value !in files then
      GrantOutcome(NoSuchUser, files)
    else
      var user, id := users[name], fileId.value;
      if user !in files[id].shared then
        GrantOutcome(Granted(name, user), files[id := files[id].(shared := files[id].shared + {user})])
      else
        GrantOutcome(AlreadyShared, files)
  }

  /** `DeleteUser.get`: find the file and the user by id, then remove the user
      from the file's sharing set. The views let a failed lookup raise; here it is
      the `LookupFailed` reply, with the table untouched. */
  function RevokeAccess(files: Files, users: Users, fileId: Option<FileId>, userId: Option<UserId>): (v: RevokeOutcome)
    ensures v.reply.LookupFailed? <==>
              fileId.None? || fileId.value !in files || userId.None? || userId.value !in users.Values
    ensures v.reply.LookupFailed? ==> v.files == files
    ensures OnlySharingChanged(files, v.files)
    ensures v.reply.Revoked? ==>
              v.files[fileId.value].shared == files[fileId.value].shared - {userId.value} &&
              forall k :: k in files && k != fileId.value ==> v.files[k] == files[k]
    ensures v.reply.Revoked? && userId.value !in files[fileId.value].shared ==> v.files == files
  {
    if fileId.None? || fileId.value !in files || userId.None? || userId.value !in users.Values then
      RevokeOutcome(LookupFailed, files)
    else
      var id, user := fileId.value, userId.value;
      var after := files[id := files[id].(shared := files[id].shared - {user})];
      assert user !in files[id].shared ==> after == files by {
        if user !in files[id].shared {
          assert files[id].shared - {user} == files[id].shared;
        }
      }
      RevokeOutcome(Revoked, after)
  }

  /** Granting twice is granting once; the second grant replies that the user
      already had access. */
  lemma GrantTwice(files: Files, users: Users, searchUser: string, fileId: Option<FileId>)
    ensures var once := GrantAccess(files, users, searchUser, fileId);
            var twice := GrantAccess(once.files, users, searchUser, fileId);
            twice.files == once.files &&
            (once.reply.NoSuchUser? <==> twice.reply.NoSuchUser?) &&
            (!once.reply.NoSuchUser? ==> twice.reply == AlreadyShared)
  {
  }

  /** A successful grant lets the user see the file. */
  lemma GrantThenView(files: Files, users: Users, searchUser: string, fileId: Option<FileId>)
    requires !GrantAccess(files, users, searchUser, fileId).reply.NoSuchUser?
    ensures CanView(GrantAccess(files, users, searchUser, fileId).files[fileId.value],
                    Some(users[Strip(searchUser)]))
  {
  }

  /** Revoking a share that a grant has just added gives back the table as it was. */
  lemma RevokeUndoesGrant(files: Files, users: Users, searchUser: string, fileId: Option<FileId>)
    requires GrantAccess(files, users, searchUser, fileId).reply.Granted?
    ensures var g := GrantAccess(files, users, searchUser, fileId);
            RevokeAccess(g.files, users, fileId, Some(g.reply.userId)) == RevokeOutcome(Revoked, files)
  {
  }

  /** After a successful revoke the user is not in the sharing set, so a private
      file is visible to that user only as its author. */
  lemma RevokeThenView(files: Files, users: Users, fileId: Option<FileId>, userId: Option<UserId>)
    requires RevokeAccess(files, users, fileId, userId).reply.Revoked?
    requires files[fileId.value].access == Private
    ensures CanView(RevokeAccess(files, users, fileId, userId).files[fileId.value], userId) <==>
              IsAuthor(files[fileId.value], userId)
  {
  }

  /** A private file of user 1, nobody sharing it: user 2 (username "bob") cannot
      see it, can after a grant by a username that strips to "bob", and cannot after
      a revoke. */
  lemma ShareAndRevokeScenario(raw: string)
    requires Strip(raw) == "bob"
    ensures var f := File("report", 0, Some(1), Private, {});
            var g := GrantAccess(map[7 := f], map["alice" := 1, "bob" := 2], raw, Some(7));
            var v := RevokeAccess(g.files, map["alice" := 1, "bob" := 2], Some(7), Some(2));
            !CanView(f, Some(2)) &&
            g.reply == Granted("bob", 2) && g.files[7].shared == {2} && CanView(g.files[7], Some(2)) &&
            v.reply == Revoked && v.files[7].shared == {} && !CanView(v.files[7], Some(2))
  {
  }
}
