/** Changing the password together with the whole re-encrypted vault, in one transaction. */
module PasswordChange {
  import opened Wrappers
  import opened VaultTable

  datatype Credentials = Credentials(passwordHash: string, salt: seq<nat>)

  datatype ChangeError = NotFound | WrongPassword | CountMismatch | MissingEntry

  /** Equal length and every lookup finding its entry leave no room for a duplicate or a
      foreign id: the payload names exactly the rows of the vault, each once. */
  lemma Pigeonhole(payload: seq<Entry>, owned: set<Id>)
    ensures |owned| == |payload| && owned <= ById(payload).Keys <==> DistinctIds(payload) && Ids(payload) == owned
    ensures Ids(payload) == ById(payload).Keys
  {
    IdsAreKeys(payload);
    if |owned| == |payload| && owned <= ById(payload).Keys {
      SubsetSize(owned, Ids(payload));
    }
  }

  lemma SubsetSize(a: set<Id>, b: set<Id>)
    requires a <= b && |a| >= |b|
    ensures a == b
  {
    var rest := b - a;
    assert b == a + rest && |b| == |a| + |rest|;
  }

  // The update loop: every existing row gets its entry, or a missing one aborts the transaction.
  method ReEncrypt(vault: Table, user: UserId, existing: set<Id>, entries: map<Id, Content>) returns (r: Option<Table>)
    requires existing <= vault.Keys
    ensures r.Some? <==> existing <= entries.Keys
    ensures r.Some? && entries.Keys <= existing ==> r.value == Overridden(vault, user, entries)
  {
    var changed, remaining := vault, existing;
    while remaining != {}
      invariant remaining <= existing && existing - remaining <= entries.Keys
      invariant changed.Keys == vault.Keys
      invariant forall id :: id in vault ==>
        changed[id] == if id in existing && id !in remaining then Row(user, entries[id]) else vault[id]
    {
      var id :| id in remaining;
      if id !in entries {
        return None;
      }
      changed := changed[id := Row(user, entries[id])];
      remaining := remaining - {id};
    }
    r := Some(changed);
  }

  class Database {
    var users: map<UserId, Credentials>
    var vault: Table

    constructor ()
      ensures users == map[] && vault == map[]
    {
      users, vault := map[], map[];
    }

    /** Succeeds exactly for the owner's password and a payload that names every row of the
        vault once and nothing else. Then each row has its own new content; otherwise, and for
        everyone else, nothing has changed. */
    method ChangePasswordAndReEncryptVault(user: UserId, passwordValid: bool, credentials: Credentials,
                                           payload: seq<Entry>)
        returns (r: Result<(), ChangeError>)
      modifies this
      ensures r.Ok? <==>
        user in old(users) && passwordValid && DistinctIds(payload) && Ids(payload) == Owned(old(vault), user)
      ensures r.Error? ==> users == old(users) && vault == old(vault)
      ensures r.Ok? ==> users == old(users)[user := credentials] && vault == Overridden(old(vault), user, ById(payload))
      ensures r == Error(NotFound) <==> user !in old(users)
      ensures r == Error(WrongPassword) <==> user in old(users) && !passwordValid
      ensures r == Error(CountMismatch) <==>
        user in old(users) && passwordValid && |payload| != |Owned(old(vault), user)|
    {
      if user !in users {
        return Error(NotFound);
      }
      if !passwordValid {
        return Error(WrongPassword);
      }
      var existing := Owned(vault, user);
      Pigeonhole(payload, existing);
      if |existing| != |payload| {
        return Error(CountMismatch);
      }
      var changed := ReEncrypt(vault, user, existing, ById(payload));
      if changed.None? {
        return Error(MissingEntry);
      }
      vault := changed.value;
      users := users[user := credentials];
      r := Ok(());
    }
  }

  /** What success means row by row: every row of the user holds the content sent for it,
      no row comes or goes, and nobody else's row is touched. */
  lemma EveryRowReplaced(vault: Table, user: UserId, payload: seq<Entry>)
    requires DistinctIds(payload) && Ids(payload) == Owned(vault, user)
    ensures var after := Overridden(vault, user, ById(payload));
      && after.Keys == vault.Keys
      && (forall i :: 0 <= i < |payload| ==>
           payload[i].id in after && after[payload[i].id] == Row(user, payload[i].content))
      && (forall id :: id in vault && vault[id].user != user ==> after[id] == vault[id])
  {
    IdsAreKeys(payload);
    OwnRowsOnly(vault, user, ById(payload));
    forall i | 0 <= i < |payload|
      ensures payload[i].id in ById(payload) && ById(payload)[payload[i].id] == payload[i].content
    {
      LastWins(payload, i);
    }
  }

  lemma OwnRowsOnly(vault: Table, user: UserId, contents: map<Id, Content>)
    requires contents.Keys == Owned(vault, user)
    ensures var after := Overridden(vault, user, contents);
      && after.Keys == vault.Keys
      && (forall id :: id in vault && vault[id].user != user ==> after[id] == vault[id])
  {
    forall id
      ensures id in Overridden(vault, user, contents) <==> id in vault
    {
      assert id in contents <==> id in Owned(vault, user);
    }
  }
}
