/** Importing entries into a vault in one transaction, and what an export restores. */
module VaultImport {
  import opened Sequences
  import opened Wrappers
  import opened VaultTable
  import Base64

  datatype Mode = Merge | Replace

  datatype Summary = Summary(created: nat, updated: nat, total: nat)

  datatype ImportError = Conflict

  // An entry without id, or with an empty one, gets a generated id.
  datatype ImportEntry = ImportEntry(id: Option<Id>, content: Content)

  function Named(entries: seq<ImportEntry>, generated: seq<Id>): (named: seq<Entry>)
    requires |generated| == |entries|
    ensures |named| == |entries|
  {
    seq(|entries|, i requires 0 <= i < |entries| =>
      Entry(if entries[i].id.Some? && entries[i].id.value != "" then entries[i].id.value else generated[i],
            entries[i].content))
  }

  // What the entries are imported into.
  function Base(table: Table, user: UserId, mode: Mode): Table {
    if mode == Replace then table - Owned(table, user) else table
  }

  // The database compares ids as UUIDs and stores them in lower case; the service compares strings.
  function Canonical(id: Id): Id {
    if id == "" then "" else [Lower(id[0])] + Canonical(id[1..])
  }

  function Lower(c: char): char {
    if 'A' <= c <= 'Z' then c + 32 as char else c
  }

  lemma {:induction false} CanonicalTwice(id: Id)
    ensures Canonical(Canonical(id)) == Canonical(id)
  {
    if id != "" {
      CanonicalTwice(id[1..]);
      assert Canonical(id)[1..] == Canonical(id[1..]);
    }
  }

  ghost predicate CanonicalIds(table: Table) {
    forall id :: id in table ==> Canonical(id) == id
  }

  predicate OneSpelling(ids: set<Id>) {
    forall a, b :: a in ids && b in ids && Canonical(a) == Canonical(b) ==> a == b
  }

  // The insertion meets no primary key, neither of a row nor of its own.
  predicate Insertable(table: Table, created: map<Id, Content>) {
    OneSpelling(created.Keys) && forall id :: id in created ==> Canonical(id) !in table
  }

  // The contents under the ids that the database stores.
  function Recast(contents: map<Id, Content>): map<Id, Content>
    requires OneSpelling(contents.Keys)
  {
    map id | id in contents :: Canonical(id) := contents[id]
  }

  lemma RecastFrom(contents: map<Id, Content>, id: Id) returns (spelled: Id)
    requires OneSpelling(contents.Keys) && id in Recast(contents)
    ensures spelled in contents && Canonical(spelled) == id && Recast(contents)[id] == contents[spelled]
    ensures Canonical(id) == id
  {
    spelled :| spelled in contents && Canonical(spelled) == id;
    CanonicalTwice(spelled);
  }

  lemma RecastAt(contents: map<Id, Content>, id: Id)
    requires OneSpelling(contents.Keys) && id in contents
    ensures Canonical(id) in Recast(contents) && Recast(contents)[Canonical(id)] == contents[id]
  {
  }

  lemma SameSpelling(contents: map<Id, Content>)
    requires forall id :: id in contents ==> Canonical(id) == id
    ensures OneSpelling(contents.Keys) && Recast(contents) == contents
  {
    forall id | id in Recast(contents)
      ensures id in contents && Recast(contents)[id] == contents[id]
    {
      var spelled := RecastFrom(contents, id);
    }
  }

  /** An import goes through when no id is spelled in two ways and every id that the database knows
      is spelled as there and belongs to the user. */
  ghost predicate Accepts(base: Table, user: UserId, ids: set<Id>) {
    && OneSpelling(ids)
    && (forall id :: id in ids && Canonical(id) in base ==> Canonical(id) == id && base[id].user == user)
  }

  // The whole import; a failure rolls everything back.
  ghost function Import(table: Table, user: UserId, mode: Mode, contents: map<Id, Content>)
      : Result<Table, ImportError>
  {
    if Accepts(Base(table, user, mode), user, contents.Keys)
    then Ok(Overridden(Base(table, user, mode), user, Recast(contents)))
    else Error(Conflict)
  }

  class VaultService {
    var table: Table

    constructor ()
      ensures table == map[] && CanonicalIds(table)
    {
      table := map[];
    }

    method ImportUserVault(user: UserId, mode: Mode, entries: seq<ImportEntry>, generated: seq<Id>)
        returns (r: Result<Summary, ImportError>)
      requires |generated| == |entries| && CanonicalIds(table)
      modifies this
      ensures var result := Import(old(table), user, mode, ById(Named(entries, generated)));
        && (r.Ok? <==> result.Ok?)
        && table == (if result.Ok? then result.value else old(table))
        && (r.Ok? ==> r.value == Counts(Base(old(table), user, mode).Keys, Ids(Named(entries, generated))))
      ensures CanonicalIds(table)
    {
      var base := Base(table, user, mode);
      var prepared := Prepare(entries, generated);
      IdsAreKeys(Named(entries, generated));
      var progress := Split(base, user, prepared);
      Assembled(base, user, prepared, progress.changed, progress.created);
      if !Insertable(progress.changed, progress.created) {
        return Error(Conflict);
      }
      table := progress.changed + NewRows(user, progress.created);
      r := Ok(Summary(|progress.created|, progress.updated, |prepared|));
    }
  }

  function NewRows(user: UserId, created: map<Id, Content>): Table
    requires OneSpelling(created.Keys)
  {
    var recast := Recast(created);
    map id | id in recast :: Row(user, recast[id])
  }

  // Ids that are new and ids that replace a row.
  function Counts(existing: set<Id>, ids: set<Id>): Summary {
    Summary(|ids - existing|, |ids * existing|, |ids|)
  }

  // The loop that fills the map of entries by id.
  method Prepare(entries: seq<ImportEntry>, generated: seq<Id>) returns (entriesById: map<Id, Content>)
    requires |generated| == |entries|
    ensures entriesById == ById(Named(entries, generated))
  {
    ghost var named := Named(entries, generated);
    entriesById := map[];
    for i := 0 to |entries|
      invariant entriesById == ById(named[..i])
    {
      var entry := entries[i];
      var targetId := if entry.id.Some? && entry.id.value != "" then entry.id.value else generated[i];
      IdsNext(named[..i], named[i]);
      assert named[..i + 1] == named[..i] + [named[i]];
      entriesById := entriesById[targetId := entry.content];
    }
    assert named[..|entries|] == named;
  }

  // The table once the user's own rows among the entries in done are updated.
  function ChangedBy(base: Table, user: UserId, prepared: map<Id, Content>, done: set<Id>): Table
    requires done <= prepared.Keys
  {
    map id | id in base :: if id in done && base[id].user == user then Row(user, prepared[id]) else base[id]
  }

  // The other entries in done, set aside for insertion.
  function CreatedBy(base: Table, user: UserId, prepared: map<Id, Content>, done: set<Id>): map<Id, Content>
    requires done <= prepared.Keys
  {
    map id | id in done && id !in Owned(base, user) :: prepared[id]
  }

  lemma UpdateOne(base: Table, user: UserId, prepared: map<Id, Content>, done: set<Id>, id: Id)
    requires done <= prepared.Keys && id in prepared && id !in done && id in Owned(base, user)
    ensures ChangedBy(base, user, prepared, done + {id}) ==
      ChangedBy(base, user, prepared, done)[id := Row(user, prepared[id])]
    ensures CreatedBy(base, user, prepared, done + {id}) == CreatedBy(base, user, prepared, done)
    ensures |(done + {id}) * Owned(base, user)| == |done * Owned(base, user)| + 1
  {
    assert (done + {id}) * Owned(base, user) == done * Owned(base, user) + {id};
  }

  lemma SetAside(base: Table, user: UserId, prepared: map<Id, Content>, done: set<Id>, id: Id)
    requires done <= prepared.Keys && id in prepared && id !in done && id !in Owned(base, user)
    ensures ChangedBy(base, user, prepared, done + {id}) == ChangedBy(base, user, prepared, done)
    ensures CreatedBy(base, user, prepared, done + {id}) == CreatedBy(base, user, prepared, done)[id := prepared[id]]
    ensures (done + {id}) * Owned(base, user) == done * Owned(base, user)
  {
  }

  // What the loop holds once the entries in done are dealt with.
  datatype Progress = Progress(changed: Table, created: map<Id, Content>, updated: nat)

  function After(base: Table, user: UserId, prepared: map<Id, Content>, done: set<Id>): Progress
    requires done <= prepared.Keys
  {
    Progress(ChangedBy(base, user, prepared, done), CreatedBy(base, user, prepared, done), |done * Owned(base, user)|)
  }

  // One turn of the loop: update an own row or set the entry aside.
  method Place(base: Table, user: UserId, prepared: map<Id, Content>, ghost done: set<Id>, before: Progress, id: Id)
      returns (after: Progress)
    requires done <= prepared.Keys && id in prepared && id !in done && before == After(base, user, prepared, done)
    ensures after == After(base, user, prepared, done + {id})
  {
    if id in Owned(base, user) {
      UpdateOne(base, user, prepared, done, id);
      after := Progress(before.changed[id := Row(user, prepared[id])], before.created, before.updated + 1);
    } else {
      SetAside(base, user, prepared, done, id);
      after := Progress(before.changed, before.created[id := prepared[id]], before.updated);
    }
  }

  lemma NothingDone(base: Table, user: UserId, prepared: map<Id, Content>)
    ensures After(base, user, prepared, {}) == Progress(base, map[], 0)
  {
    assert ChangedBy(base, user, prepared, {}) == base;
    assert {} * Owned(base, user) == {};
  }

  // The loop over the prepared entries.
  method Split(base: Table, user: UserId, prepared: map<Id, Content>) returns (progress: Progress)
    ensures progress == After(base, user, prepared, prepared.Keys)
  {
    NothingDone(base, user, prepared);
    progress := Progress(base, map[], 0);
    var remaining := prepared.Keys;
    ghost var done: set<Id> := {};
    while remaining != {}
      invariant Divided(prepared.Keys, done, remaining)
      invariant progress == After(base, user, prepared, done)
      decreases remaining
    {
      var id :| id in remaining;
      progress := Place(base, user, prepared, done, progress, id);
      MoveOne(prepared.Keys, done, remaining, id);
      done, remaining := done + {id}, remaining - {id};
    }
  }

  ghost predicate Divided(all: set<Id>, done: set<Id>, remaining: set<Id>)
    ensures Divided(all, done, remaining) ==> done <= all && (remaining == {} ==> done == all)
  {
    done !! remaining && done + remaining == all
  }

  lemma MoveOne(all: set<Id>, done: set<Id>, remaining: set<Id>, id: Id)
    requires Divided(all, done, remaining) && id in remaining
    ensures Divided(all, done + {id}, remaining - {id})
  {
  }

  lemma Assembled(base: Table, user: UserId, prepared: map<Id, Content>, changed: Table, created: map<Id, Content>)
    requires CanonicalIds(base)
    requires changed == ChangedBy(base, user, prepared, prepared.Keys)
    requires created == CreatedBy(base, user, prepared, prepared.Keys)
    ensures Insertable(changed, created) <==> Accepts(base, user, prepared.Keys)
    ensures Insertable(changed, created) ==>
      && changed + NewRows(user, created) == Overridden(base, user, Recast(prepared))
      && CanonicalIds(changed + NewRows(user, created))
      && created.Keys == prepared.Keys - base.Keys
      && prepared.Keys * Owned(base, user) == prepared.Keys * base.Keys
  {
    if Insertable(changed, created) {
      InsertableAccepted(base, user, prepared, created);
    }
    if Accepts(base, user, prepared.Keys) {
      AcceptedInsertable(base, user, prepared, created);
      Inserted(base, user, prepared, changed, created);
    }
  }

  lemma InsertableAccepted(base: Table, user: UserId, prepared: map<Id, Content>, created: map<Id, Content>)
    requires CanonicalIds(base) && Insertable(base, created)
    requires created == CreatedBy(base, user, prepared, prepared.Keys)
    ensures Accepts(base, user, prepared.Keys)
  {
    forall id | id in prepared && Canonical(id) in base
      ensures Canonical(id) == id && base[id].user == user
    {
      assert id !in created;
    }
    forall a, b | a in prepared && b in prepared && Canonical(a) == Canonical(b)
      ensures a == b
    {
      if a !in created {
        assert Canonical(a) == a && b !in created;
      }
    }
  }

  lemma AcceptedInsertable(base: Table, user: UserId, prepared: map<Id, Content>, created: map<Id, Content>)
    requires CanonicalIds(base) && Accepts(base, user, prepared.Keys)
    requires created == CreatedBy(base, user, prepared, prepared.Keys)
    ensures Insertable(base, created)
    ensures created.Keys == prepared.Keys - base.Keys
    ensures prepared.Keys * Owned(base, user) == prepared.Keys * base.Keys
  {
    forall id | id in prepared && id in base
      ensures id in Owned(base, user)
    {
      assert Canonical(id) == id;
    }
  }

  lemma Inserted(base: Table, user: UserId, prepared: map<Id, Content>, changed: Table, created: map<Id, Content>)
    requires CanonicalIds(base) && Accepts(base, user, prepared.Keys) && Insertable(base, created)
    requires changed == ChangedBy(base, user, prepared, prepared.Keys)
    requires created == CreatedBy(base, user, prepared, prepared.Keys)
    ensures changed + NewRows(user, created) == Overridden(base, user, Recast(prepared))
    ensures CanonicalIds(changed + NewRows(user, created))
  {
    forall id
      ensures SameThere(base, user, prepared, Recast(created), Recast(prepared), id)
      ensures id in base || id in Recast(created) ==> Canonical(id) == id
    {
      if id in base {
        KnownId(base, user, prepared, created, id);
      } else {
        NewId(base, user, prepared, created, id);
      }
    }
    Combined(base, user, prepared, Recast(created), Recast(prepared));
  }

  // At this id, updating and inserting does what overriding does.
  ghost predicate SameThere(base: Table, user: UserId, prepared: map<Id, Content>, inserted: map<Id, Content>,
                            recast: map<Id, Content>, id: Id)
  {
    if id in base then
      && id !in inserted && (id in recast <==> id in prepared)
      && (id in prepared ==> recast[id] == prepared[id] && base[id].user == user)
    else
      (id in inserted <==> id in recast) && (id in recast ==> inserted[id] == recast[id])
  }

  lemma Combined(base: Table, user: UserId, prepared: map<Id, Content>, inserted: map<Id, Content>,
                 recast: map<Id, Content>)
    requires forall id :: SameThere(base, user, prepared, inserted, recast, id)
    ensures ChangedBy(base, user, prepared, prepared.Keys) + (map id | id in inserted :: Row(user, inserted[id]))
         == Overridden(base, user, recast)
  {
    var after := ChangedBy(base, user, prepared, prepared.Keys) + map id | id in inserted :: Row(user, inserted[id]);
    forall id
      ensures SameEntry(after, Overridden(base, user, recast), id)
    {
      CombinedAt(base, user, prepared, inserted, recast, id);
    }
    SameTable(after, Overridden(base, user, recast));
  }

  ghost predicate SameEntry(a: Table, b: Table, id: Id) {
    (id in a <==> id in b) && (id in a && id in b ==> a[id] == b[id])
  }

  lemma SameTable(a: Table, b: Table)
    requires forall id :: SameEntry(a, b, id)
    ensures a == b
  {
    assert forall id :: id in a ==> SameEntry(a, b, id);
    assert forall id :: id in b ==> SameEntry(a, b, id);
  }

  lemma CombinedAt(base: Table, user: UserId, prepared: map<Id, Content>, inserted: map<Id, Content>,
                   recast: map<Id, Content>, id: Id)
    requires SameThere(base, user, prepared, inserted, recast, id)
    ensures
      var after := ChangedBy(base, user, prepared, prepared.Keys) + map id | id in inserted :: Row(user, inserted[id]);
      SameEntry(after, Overridden(base, user, recast), id)
  {
  }

  lemma KnownId(base: Table, user: UserId, prepared: map<Id, Content>, created: map<Id, Content>, id: Id)
    requires CanonicalIds(base) && Accepts(base, user, prepared.Keys) && Insertable(base, created) && id in base
    requires created == CreatedBy(base, user, prepared, prepared.Keys)
    ensures id !in Recast(created) && (id in Recast(prepared) <==> id in prepared)
    ensures id in prepared ==> Recast(prepared)[id] == prepared[id] && base[id].user == user
    ensures Canonical(id) == id
  {
    if id in Recast(created) {
      var spelled := RecastFrom(created, id);
      assert false;
    }
    if id in Recast(prepared) {
      var spelled := RecastFrom(prepared, id);
    }
    if id in prepared {
      RecastAt(prepared, id);
    }
  }

  lemma NewId(base: Table, user: UserId, prepared: map<Id, Content>, created: map<Id, Content>, id: Id)
    requires CanonicalIds(base) && Accepts(base, user, prepared.Keys) && Insertable(base, created) && id !in base
    requires created == CreatedBy(base, user, prepared, prepared.Keys)
    ensures id in Recast(created) <==> id in Recast(prepared)
    ensures id in Recast(prepared) ==> Recast(created)[id] == Recast(prepared)[id] && Canonical(id) == id
  {
    if id in Recast(created) {
      var spelled := RecastFrom(created, id);
      RecastAt(prepared, spelled);
    }
    if id in Recast(prepared) {
      var spelled := RecastFrom(prepared, id);
      assert spelled in base ==> Canonical(spelled) == spelled;
      RecastAt(created, spelled);
    }
  }

  // ---- What a successful import means

  /** The user's vault becomes the old one (none in replace mode) overridden by the payload;
      every other user's rows stay. */
  lemma ImportOutcome(table: Table, user: UserId, mode: Mode, contents: map<Id, Content>)
    requires Import(table, user, mode, contents).Ok?
    ensures OneSpelling(contents.Keys)
    ensures var after := Import(table, user, mode, contents).value;
      && VaultOf(after, user) == (if mode == Replace then map[] else VaultOf(table, user)) + Recast(contents)
      && forall other :: other != user ==> VaultOf(after, other) == VaultOf(table, other)
  {
    AcceptedAreOwn(Base(table, user, mode), user, contents);
    OthersKept(table, user, mode, Recast(contents));
    OwnReplaced(table, user, mode, Recast(contents));
  }

  // No row of another user is touched.
  ghost predicate OwnOnly(base: Table, user: UserId, recast: map<Id, Content>) {
    forall id :: id in recast && id in base ==> base[id].user == user
  }

  lemma AcceptedAreOwn(base: Table, user: UserId, contents: map<Id, Content>)
    requires Accepts(base, user, contents.Keys)
    ensures OwnOnly(base, user, Recast(contents))
  {
    forall id | id in Recast(contents) && id in base
      ensures base[id].user == user
    {
      var spelled := RecastFrom(contents, id);
    }
  }

  lemma OthersKept(table: Table, user: UserId, mode: Mode, recast: map<Id, Content>)
    requires OwnOnly(Base(table, user, mode), user, recast)
    ensures forall other :: other != user ==>
      VaultOf(Overridden(Base(table, user, mode), user, recast), other) == VaultOf(table, other)
  {
  }

  lemma OwnReplaced(table: Table, user: UserId, mode: Mode, recast: map<Id, Content>)
    ensures VaultOf(Overridden(Base(table, user, mode), user, recast), user)
         == (if mode == Replace then map[] else VaultOf(table, user)) + recast
  {
  }

  /** Each distinct id of the payload is counted once: as updated if the user's vault had it and it is a
      merge, otherwise as created. The vault afterwards has the rows kept and those created. */
  lemma ImportCounts(table: Table, user: UserId, mode: Mode, named: seq<Entry>)
    requires CanonicalIds(table) && Import(table, user, mode, ById(named)).Ok?
    ensures var counts := Counts(Base(table, user, mode).Keys, Ids(named));
      var before, after := VaultOf(table, user), VaultOf(Import(table, user, mode, ById(named)).value, user);
      && counts.created + counts.updated == counts.total == |Ids(named)| <= |named|
      && counts.updated == (if mode == Merge then |Ids(named) * before.Keys| else 0)
      && |after| == (if mode == Merge then |before| else 0) + counts.created
      && (counts.total == |named| <==> DistinctIds(named))
  {
    IdsAreKeys(named);
    Parts(Ids(named), Base(table, user, mode).Keys);
    UpdatedCount(table, user, mode, Ids(named));
    VaultGrows(table, user, mode, ById(named));
  }

  lemma UpdatedCount(table: Table, user: UserId, mode: Mode, ids: set<Id>)
    requires CanonicalIds(table) && Accepts(Base(table, user, mode), user, ids)
    ensures |ids * Base(table, user, mode).Keys| == if mode == Merge then |ids * VaultOf(table, user).Keys| else 0
  {
    OwnedOnly(Base(table, user, mode), user, ids);
    VaultKeys(table, user);
    if mode == Replace {
      assert Owned(Base(table, user, mode), user) == {};
    }
  }

  lemma VaultKeys(table: Table, user: UserId)
    ensures VaultOf(table, user).Keys == Owned(table, user)
  {
  }

  lemma VaultGrows(table: Table, user: UserId, mode: Mode, contents: map<Id, Content>)
    requires CanonicalIds(table) && Import(table, user, mode, contents).Ok?
    ensures |VaultOf(Import(table, user, mode, contents).value, user)|
         == (if mode == Merge then |VaultOf(table, user)| else 0) + |contents.Keys - Base(table, user, mode).Keys|
  {
    VaultSize(Base(table, user, mode), user, contents);
    VaultKeys(table, user);
    if mode == Replace {
      assert Owned(Base(table, user, mode), user) == {};
    }
  }

  // Among known ids only the user's own are accepted.
  lemma OwnedOnly(base: Table, user: UserId, ids: set<Id>)
    requires CanonicalIds(base) && Accepts(base, user, ids)
    ensures ids * base.Keys == ids * Owned(base, user)
  {
    forall id | id in ids && id in base
      ensures id in Owned(base, user)
    {
      assert Canonical(id) == id;
    }
  }

  function Spellings(ids: set<Id>): set<Id> {
    set id | id in ids :: Canonical(id)
  }

  lemma {:induction false} SpellingsSize(ids: set<Id>)
    requires OneSpelling(ids)
    ensures |Spellings(ids)| == |ids|
    decreases |ids|
  {
    if ids != {} {
      var id :| id in ids;
      SpellingsSize(ids - {id});
      assert Spellings(ids) == Spellings(ids - {id}) + {Canonical(id)};
    }
  }

  // Every created entry adds one row to the user's.
  lemma VaultSize(base: Table, user: UserId, contents: map<Id, Content>)
    requires CanonicalIds(base) && Accepts(base, user, contents.Keys)
    ensures |VaultOf(Overridden(base, user, Recast(contents)), user)|
         == |Owned(base, user)| + |contents.Keys - base.Keys|
  {
    var added := contents.Keys - base.Keys;
    assert OneSpelling(added);
    SpellingsSize(added);
    forall id
      ensures id in Spellings(added) ==> id !in Owned(base, user)
      ensures id in VaultOf(Overridden(base, user, Recast(contents)), user)
        <==> id in Owned(base, user) || id in Spellings(added)
    {
      InVault(base, user, contents, id);
    }
    TwoParts(VaultOf(Overridden(base, user, Recast(contents)), user), Owned(base, user), Spellings(added));
  }

  lemma TwoParts(vault: map<Id, Content>, kept: set<Id>, added: set<Id>)
    requires forall id :: id in added ==> id !in kept
    requires forall id :: id in vault <==> id in kept || id in added
    ensures |vault| == |kept| + |added|
  {
    assert vault.Keys == kept + added;
  }

  lemma InVault(base: Table, user: UserId, contents: map<Id, Content>, id: Id)
    requires CanonicalIds(base) && Accepts(base, user, contents.Keys)
    ensures var added := Spellings(contents.Keys - base.Keys);
      && (id in added ==> id !in base)
      && (id in VaultOf(Overridden(base, user, Recast(contents)), user) <==> id in Owned(base, user) || id in added)
  {
    var added := contents.Keys - base.Keys;
    if id in Spellings(added) {
      var spelled :| spelled in added && Canonical(spelled) == id;
      RecastAt(contents, spelled);
    }
    if id in Recast(contents) {
      var spelled := RecastFrom(contents, id);
      if spelled in base {
        assert Canonical(spelled) == spelled;
      } else {
        assert Canonical(spelled) in Spellings(added);
      }
    }
  }

  lemma Parts(ids: set<Id>, existing: set<Id>)
    ensures |ids - existing| + |ids * existing| == |ids|
  {
    assert ids == (ids - existing) + (ids * existing);
  }

  // ---- Importing twice

  predicate AllNamed(entries: seq<ImportEntry>) {
    forall i :: 0 <= i < |entries| ==> entries[i].id.Some? && entries[i].id.value != ""
  }

  predicate AllCanonical(entries: seq<ImportEntry>)
    requires AllNamed(entries)
  {
    forall i :: 0 <= i < |entries| ==> Canonical(entries[i].id.value) == entries[i].id.value
  }

  // Generated ids are in canonical spelling and not in the table yet.
  predicate Fresh(generated: seq<Id>, table: Table) {
    forall i :: 0 <= i < |generated| ==> Canonical(generated[i]) == generated[i] && generated[i] !in table
  }

  /** Importing the same entries a second time succeeds and changes nothing exactly when every entry
      has an id and, in a merge, each id is in canonical spelling. */
  lemma ImportTwice(table: Table, user: UserId, mode: Mode, entries: seq<ImportEntry>, first: seq<Id>, second: seq<Id>)
    requires CanonicalIds(table) && |first| == |second| == |entries|
    requires Import(table, user, mode, ById(Named(entries, first))).Ok?
    requires Fresh(second, Import(table, user, mode, ById(Named(entries, first))).value)
    ensures var after := Import(table, user, mode, ById(Named(entries, first))).value;
      Import(after, user, mode, ById(Named(entries, second))) == Ok(after)
      <==> AllNamed(entries) && (mode == Replace || AllCanonical(entries))
  {
    var contents := ById(Named(entries, first));
    if AllNamed(entries) {
      SameNames(entries, first, second);
      NamedTwice(table, user, mode, contents);
      CanonicalNames(entries, first);
    } else {
      Renamed(Import(table, user, mode, contents).value, user, mode, entries, second);
    }
  }

  lemma SameNames(entries: seq<ImportEntry>, first: seq<Id>, second: seq<Id>)
    requires |first| == |second| == |entries| && AllNamed(entries)
    ensures Named(entries, second) == Named(entries, first)
  {
  }

  lemma CanonicalNames(entries: seq<ImportEntry>, generated: seq<Id>)
    requires |generated| == |entries| && AllNamed(entries)
    ensures AllCanonical(entries) <==> InCanonicalSpelling(ById(Named(entries, generated)))
  {
    var named := Named(entries, generated);
    IdsAreKeys(named);
    assert forall i :: 0 <= i < |entries| ==> named[i].id == entries[i].id.value && named[i].id in Ids(named);
  }

  ghost predicate InCanonicalSpelling(contents: map<Id, Content>) {
    forall id :: id in contents ==> Canonical(id) == id
  }

  // An id that the table does not have yet shows afterwards.
  lemma Renamed(table: Table, user: UserId, mode: Mode, entries: seq<ImportEntry>, generated: seq<Id>)
    requires |generated| == |entries| && !AllNamed(entries) && Fresh(generated, table)
    ensures Import(table, user, mode, ById(Named(entries, generated))) != Ok(table)
  {
    var named := Named(entries, generated);
    var i :| 0 <= i < |entries| && (entries[i].id.None? || entries[i].id.value == "");
    IdsAreKeys(named);
    assert named[i].id == generated[i] && named[i].id in Ids(named);
    NewIdShows(table, user, mode, ById(named), generated[i]);
  }

  lemma NewIdShows(table: Table, user: UserId, mode: Mode, contents: map<Id, Content>, id: Id)
    requires id in contents && id !in table && Canonical(id) == id
    ensures Import(table, user, mode, contents) != Ok(table)
  {
    if OneSpelling(contents.Keys) {
      RecastAt(contents, id);
    }
  }

  lemma NamedTwice(table: Table, user: UserId, mode: Mode, contents: map<Id, Content>)
    requires Import(table, user, mode, contents).Ok?
    ensures var after := Import(table, user, mode, contents).value;
      Import(after, user, mode, contents) == Ok(after) <==> mode == Replace || InCanonicalSpelling(contents)
  {
    if mode == Replace {
      AcceptedAreOwn(Base(table, user, Replace), user, contents);
      ReplacedTwice(table, user, Recast(contents));
    } else {
      MergedTwice(table, user, contents);
    }
  }

  lemma MergedTwice(table: Table, user: UserId, contents: map<Id, Content>)
    requires Accepts(table, user, contents.Keys)
    ensures var after := Overridden(table, user, Recast(contents));
      && (Accepts(after, user, contents.Keys) <==> InCanonicalSpelling(contents))
      && Overridden(after, user, Recast(contents)) == after
  {
    var after := Overridden(table, user, Recast(contents));
    forall id | id in contents
      ensures Canonical(id) in after && after[Canonical(id)].user == user
    {
      RecastAt(contents, id);
    }
  }

  lemma ReplacedTwice(table: Table, user: UserId, recast: map<Id, Content>)
    requires OwnOnly(Base(table, user, Replace), user, recast)
    ensures Base(Overridden(Base(table, user, Replace), user, recast), user, Replace) == Base(table, user, Replace)
  {
  }

  /** An entry without id is added again by every import. */
  lemma UnnamedAddedAgain(user: UserId, content: Content)
    ensures var entries, row := [ImportEntry(None, content)], Row(user, content);
      && Import(map[], user, Merge, ById(Named(entries, ["a"]))) == Ok(map["a" := row])
      && Import(map["a" := row], user, Merge, ById(Named(entries, ["b"]))) == Ok(map["a" := row, "b" := row])
  {
    var entries, row := [ImportEntry(None, content)], Row(user, content);
    OneEntry(entries, "a");
    OneEntry(entries, "b");
    assert Canonical("a") == "a" && Canonical("b") == "b";
    AddOne(map[], user, "a", content);
    AddOne(map["a" := row], user, "b", content);
  }

  lemma OneEntry(entries: seq<ImportEntry>, id: Id)
    requires |entries| == 1 && entries[0].id == None
    ensures ById(Named(entries, [id])) == map[id := entries[0].content]
  {
    var named := Named(entries, [id]);
    assert named == [Entry(id, entries[0].content)] && named[..0] == [];
  }

  // Entries under ids in canonical spelling, none of them another user's, are imported as they are.
  lemma CanonicalImport(table: Table, user: UserId, mode: Mode, contents: map<Id, Content>)
    requires InCanonicalSpelling(contents) && OwnOnly(Base(table, user, mode), user, contents)
    ensures Import(table, user, mode, contents) == Ok(Overridden(Base(table, user, mode), user, contents))
  {
    SameSpelling(contents);
  }

  lemma AddOne(table: Table, user: UserId, id: Id, content: Content)
    requires Canonical(id) == id && id !in table
    ensures Import(table, user, Merge, map[id := content]) == Ok(table[id := Row(user, content)])
  {
    var contents := map[id := content];
    CanonicalImport(table, user, Merge, contents);
    OverrideOne(table, user, id, content);
  }

  lemma OverrideOne(table: Table, user: UserId, id: Id, content: Content)
    ensures Overridden(table, user, map[id := content]) == table[id := Row(user, content)]
  {
  }

  /** The user's own row under an upper-case spelling of its id: the merge fails. */
  lemma UpperCaseConflicts(user: UserId, content: Content)
    ensures Import(map["a" := Row(user, content)], user, Merge, map["A" := content]) == Error(Conflict)
  {
    assert Canonical("A") == "a";
    var contents := map["A" := content];
    assert "A" in contents.Keys;
  }

  // ---- Export

  // An exported entry: the same fields, bytes as Base64 text.
  datatype Exported = Exported(id: Id, encryptedData: string, iv: string, salt: Option<string>, algorithm: string,
                               category: Option<string>, tags: Option<seq<string>>)

  predicate IsBytes(bytes: seq<nat>) {
    forall i :: 0 <= i < |bytes| ==> bytes[i] < 256
  }

  predicate Storable(c: Content) {
    IsBytes(c.encryptedData) && IsBytes(c.iv) && (c.salt.Some? ==> IsBytes(c.salt.value))
  }

  function Export(id: Id, c: Content): Exported
    requires Storable(c)
  {
    Exported(id, Base64.ToBase64(c.encryptedData), Base64.ToBase64(c.iv),
             if c.salt.Some? then Some(Base64.ToBase64(c.salt.value)) else None, c.algorithm, c.category, c.tags)
  }

  predicate Admissible(e: Exported) {
    Base64.Spelled(e.encryptedData) && Base64.Spelled(e.iv) && (e.salt.Some? ==> Base64.Spelled(e.salt.value))
  }

  // How the import reads an entry: a missing or empty salt becomes null.
  function Read(e: Exported): ImportEntry
    requires Admissible(e)
  {
    ImportEntry(Some(e.id),
                Content(Base64.BufferFrom(e.encryptedData), Base64.BufferFrom(e.iv),
                        if e.salt.Some? && e.salt.value != "" then Some(Base64.BufferFrom(e.salt.value)) else None,
                        e.algorithm, e.category, e.tags))
  }

  function Restored(c: Content): Content {
    if c.salt == Some([]) then c.(salt := None) else c
  }

  lemma ReadExport(id: Id, c: Content)
    requires Storable(c)
    ensures Admissible(Export(id, c)) && Read(Export(id, c)) == ImportEntry(Some(id), Restored(c))
  {
    TextRoundTrip(c.encryptedData);
    TextRoundTrip(c.iv);
    if c.salt.Some? {
      TextRoundTrip(c.salt.value);
    }
  }

  lemma TextRoundTrip(bytes: seq<nat>)
    requires IsBytes(bytes)
    ensures var text := Base64.ToBase64(bytes);
      Base64.Spelled(text) && Base64.BufferFrom(text) == bytes && (text == "" <==> bytes == [])
  {
    Base64.RoundTrip(bytes);
    Base64.Length(bytes);
  }

  ghost predicate Enumerates(order: seq<Id>, ids: set<Id>) {
    && Distinct(order)
    && (forall id :: id in ids <==> id in order)
  }

  function ExportVault(table: Table, order: seq<Id>): (exported: seq<Exported>)
    requires forall id :: id in order ==> id in table && Storable(table[id].content)
    ensures |exported| == |order|
  {
    seq(|order|, i requires 0 <= i < |order| => Export(order[i], table[order[i]].content))
  }

  function ReadAll(exported: seq<Exported>): (entries: seq<ImportEntry>)
    requires forall i :: 0 <= i < |exported| ==> Admissible(exported[i])
    ensures |entries| == |exported|
  {
    seq(|exported|, i requires 0 <= i < |exported| => Read(exported[i]))
  }

  lemma {:induction false} EnumeratedById(table: Table, order: seq<Id>, named: seq<Entry>)
    requires |named| == |order| && Distinct(order)
    requires forall id :: id in order ==> id in table
    requires forall i :: 0 <= i < |order| ==> named[i] == Entry(order[i], Restored(table[order[i]].content))
    ensures ById(named) == map id | id in order && id in table :: Restored(table[id].content)
  {
    if order != [] {
      var n := |order| - 1;
      assert order == order[..n] + [order[n]];
      EnumeratedById(table, order[..n], named[..n]);
    }
  }

  lemma ExportReads(table: Table, order: seq<Id>, generated: seq<Id>)
    requires "" !in table && |generated| == |order|
    requires forall id :: id in order ==> id in table && Storable(table[id].content)
    ensures var exported := ExportVault(table, order);
      && (forall i :: 0 <= i < |exported| ==> Admissible(exported[i]))
      && var named := Named(ReadAll(exported), generated);
      && forall i :: 0 <= i < |order| ==> named[i] == Entry(order[i], Restored(table[order[i]].content))
  {
    forall i | 0 <= i < |order|
      ensures var e := Export(order[i], table[order[i]].content);
              Admissible(e) && Read(e) == ImportEntry(Some(order[i]), Restored(table[order[i]].content))
    {
      ReadExport(order[i], table[order[i]].content);
    }
  }

  /** Exporting a vault and importing the export in replace mode gives the same table exactly
      when none of the user's rows has an empty salt: an empty salt comes back as none. */
  lemma ExportRestores(table: Table, user: UserId, order: seq<Id>, generated: seq<Id>)
    requires CanonicalIds(table) && Enumerates(order, Owned(table, user)) && "" !in table && |generated| == |order|
    requires forall id :: id in order ==> id in table && Storable(table[id].content)
    ensures var exported := ExportVault(table, order);
      && (forall i :: 0 <= i < |exported| ==> Admissible(exported[i]))
      && var result := Import(table, user, Replace, ById(Named(ReadAll(exported), generated)));
      && result.Ok? && (result.value == table <==> NoEmptySalt(table, user))
  {
    ExportReads(table, order, generated);
    var named := Named(ReadAll(ExportVault(table, order)), generated);
    EnumeratedById(table, order, named);
    RestoredTable(table, user, order, ById(named));
  }

  ghost predicate NoEmptySalt(table: Table, user: UserId) {
    forall id :: id in Owned(table, user) ==> table[id].content.salt != Some([])
  }

  lemma RestoredTable(table: Table, user: UserId, order: seq<Id>, contents: map<Id, Content>)
    requires CanonicalIds(table) && Enumerates(order, Owned(table, user))
    requires contents == map id | id in order && id in table :: Restored(table[id].content)
    ensures Import(table, user, Replace, contents).Ok?
    ensures Import(table, user, Replace, contents).value == table <==> NoEmptySalt(table, user)
  {
    assert contents.Keys == Owned(table, user);
    CanonicalImport(table, user, Replace, contents);
    RestoredRows(table, user, contents);
  }

  lemma RestoredRows(table: Table, user: UserId, contents: map<Id, Content>)
    requires contents.Keys == Owned(table, user)
    requires forall id :: id in contents ==> contents[id] == Restored(table[id].content)
    ensures Overridden(Base(table, user, Replace), user, contents) == table <==> NoEmptySalt(table, user)
  {
    var after := Overridden(Base(table, user, Replace), user, contents);
    assert after.Keys == table.Keys;
    forall id | id in Owned(table, user)
      ensures after[id] == table[id] <==> table[id].content.salt != Some([])
    {
      assert after[id] == Row(user, Restored(table[id].content));
    }
  }

  /** An empty salt is a real input, sent as the text "A", and is lost in the round trip. */
  lemma EmptySaltLost(user: UserId, generated: Id)
    ensures Base64.Spelled("A") && Base64.BufferFrom("A") == []
    ensures var table := SaltTable(user);
      && "a" in table && Storable(table["a"].content)
      && var exported := ExportVault(table, ["a"]);
      && Admissible(exported[0])
      && var result := Import(table, user, Replace, ById(Named(ReadAll(exported), [generated])));
      result.Ok? && result.value != table
  {
    Base64.OneSymbolIsNoByte();
    var table := SaltTable(user);
    assert Canonical("a") == "a" && Owned(table, user) == {"a"};
    assert "a" in Owned(table, user);
    ExportRestores(table, user, ["a"], [generated]);
  }

  // One row, its salt empty.
  function SaltTable(user: UserId): Table {
    map["a" := Row(user, Content([], [], Some([]), "AES-GCM", None, None))]
  }
}
