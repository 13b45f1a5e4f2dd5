/**
 * The authentication-state listener (src/context/AuthContext.jsx). The provider
 * delivers an event and a session; on sign-in the user's row is read from the
 * `users` table. Both the session and the row lookup are inputs; `JSON.stringify`
 * of a row is a parameter of the provider.
 */
module Auth {
  import opened Wrappers
  import opened Accounts

  const UserInfoKey: string := "userInfo"

  /** The two event names the listener tests for; every other event name is `OtherEvent`. */
  datatype AuthEvent = SignedIn | SignedOut | OtherEvent

  /** The outcome of `from("users").select("*").eq("id", id).single()`. */
  datatype LookupResult = Row(row: User) | LookupError(message: string)

  /** The context's `user` slot and the local storage it mirrors into. */
  class AuthProvider {
    var user: Option<User>
    var storage: map<string, string>
    const serialize: User -> string

    /** The initial state: no user. */
    constructor (stored: map<string, string>, serializeRow: User -> string)
      ensures user == None && storage == stored && serialize == serializeRow
    {
      user, storage, serialize := None, stored, serializeRow;
    }

    /**
     * The `onAuthStateChange` handler. `sessionUserId` is the id of the
     * session's user, if the session has one; `lookup` answers the row query
     * for an id. The query runs only on a sign-in that carries a user.
     */
    method OnAuthStateChange(event: AuthEvent, sessionUserId: Option<string>, lookup: string -> LookupResult)
      returns (queried: bool)
      modifies this
      ensures queried <==> event == SignedIn && sessionUserId.Some?
      ensures queried && lookup(sessionUserId.value).Row? ==>
        && user == Some(lookup(sessionUserId.value).row)
        && storage == old(storage)[UserInfoKey := serialize(lookup(sessionUserId.value).row)]
      ensures queried && lookup(sessionUserId.value).LookupError? ==>
        user == old(user) && storage == old(storage)
      ensures event == SignedIn && sessionUserId.None? ==> user == old(user) && storage == old(storage)
      ensures event == SignedOut ==> user == None && storage == old(storage) - {UserInfoKey}
      ensures event == OtherEvent ==> user == old(user) && storage == old(storage)
      ensures forall key :: key != UserInfoKey ==>
        (key in storage <==> key in old(storage)) && (key in storage ==> storage[key] == old(storage)[key])
    {
      queried := false;
      if event == SignedIn && sessionUserId.Some? {
        queried := true;
        var result := lookup(sessionUserId.value);
        if result.Row? {
          user := Some(result.row);
          storage := storage[UserInfoKey := serialize(result.row)];
        }
      }
      if event == SignedOut {
        user := None;
        storage := storage - {UserInfoKey};
      }
    }

    /** A sign-in followed by a sign-out leaves no user, and only the user-info key has gone. */
    method SignInThenOut(id: string, lookup: string -> LookupResult)
      modifies this
      ensures user == None && UserInfoKey !in storage
      ensures storage == old(storage) - {UserInfoKey}
    {
      var _ := OnAuthStateChange(SignedIn, Some(id), lookup);
      var _ := OnAuthStateChange(SignedOut, None, lookup);
    }
  }
}
