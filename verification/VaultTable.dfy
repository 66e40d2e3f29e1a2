/** The table of vault entries and the forms in which clients send and receive them. */
module VaultTable {
  import opened Sequences
  import opened Wrappers

  type Id = string
  type UserId = nat

  datatype Content = Content(encryptedData: seq<nat>, iv: seq<nat>, salt: Option<seq<nat>>, algorithm: string,
                             category: Option<string>, tags: Option<seq<string>>)

  datatype Row = Row(user: UserId, content: Content)

  // Ids are the primary key, whoever owns the row.
  type Table = map<Id, Row>

  // An entry of a request, its Base64 fields decoded.
  datatype Entry = Entry(id: Id, content: Content)

  function Ids(entries: seq<Entry>): set<Id> {
    set i | 0 <= i < |entries| :: entries[i].id
  }

  // Filling a map in order: the last entry of each id stays.
  function ById(entries: seq<Entry>): (contents: map<Id, Content>) {
    if entries == [] then map[]
    else
      var last := entries[|entries| - 1];
      ById(entries[..|entries| - 1])[last.id := last.content]
  }

  predicate DistinctIds(entries: seq<Entry>) {
    DistinctBy(entries, (entry: Entry) => entry.id)
  }

  lemma {:induction false} IdsAreKeys(entries: seq<Entry>)
    ensures Ids(entries) == ById(entries).Keys
    ensures |Ids(entries)| <= |entries|
    ensures |Ids(entries)| == |entries| <==> DistinctIds(entries)
  {
    if entries == [] {
      assert Ids(entries) == {};
    } else {
      var n := |entries| - 1;
      assert entries[..n] + [entries[n]] == entries;
      IdsAreKeys(entries[..n]);
      IdsNext(entries[..n], entries[n]);
      DistinctNext(entries[..n], entries[n]);
    }
  }

  lemma IdsNext(front: seq<Entry>, last: Entry)
    ensures Ids(front + [last]) == Ids(front) + {last.id}
    ensures ById(front + [last]) == ById(front)[last.id := last.content]
  {
    var all := front + [last];
    assert all[..|front|] == front;
    assert all[|front|].id == last.id;
    forall id | id in Ids(front)
      ensures id in Ids(all)
    {
      var i :| 0 <= i < |front| && front[i].id == id;
      assert all[i].id == id;
    }
  }

  lemma DistinctNext(front: seq<Entry>, last: Entry)
    ensures DistinctIds(front + [last]) <==> DistinctIds(front) && last.id !in Ids(front)
  {
    var all := front + [last];
    if last.id in Ids(front) {
      var i :| 0 <= i < |front| && front[i].id == last.id;
      assert all[i].id == all[|front|].id;
    }
    if DistinctIds(all) {
      assert forall i :: 0 <= i < |front| ==> all[i] == front[i];
    }
  }

  /** The map holds, for each id, what the last entry with that id says. */
  lemma {:induction false} LastWins(entries: seq<Entry>, i: nat)
    requires i < |entries| && forall j :: i < j < |entries| ==> entries[j].id != entries[i].id
    ensures entries[i].id in ById(entries) && ById(entries)[entries[i].id] == entries[i].content
  {
    if i < |entries| - 1 {
      LastWins(entries[..|entries| - 1], i);
    }
  }

  function Owned(table: Table, user: UserId): set<Id> {
    set id | id in table && table[id].user == user
  }

  // The rows of one user as a map from id to content.
  function VaultOf(table: Table, user: UserId): map<Id, Content> {
    map id | id in table && table[id].user == user :: table[id].content
  }

  // The table with the user's rows for these ids put in or replaced.
  function Overridden(table: Table, user: UserId, entries: map<Id, Content>): Table {
    table + map id | id in entries :: Row(user, entries[id])
  }
}
