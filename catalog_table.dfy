/** The VideoKidsCatalog table and its two write endpoints:
    public/backend/new-video.php (INSERT of one row under a fresh id) and
    public/backend/edit-video.php (full replacement of an existing row). */
module CatalogTable {
  import opened Optional
  import opened PhpText
  import opened CatalogRules

  /** Why a write did not happen. */
  datatype WriteError =
    | Rejected(reason: RequestError)
    | NotFound(id: int)
    | DatabaseError

  /** new-video.php's reply: the id MySQL assigned and the stored values. */
  datatype InsertReply = Created(id: int, data: Echo) | InsertFailed(error: WriteError)

  /** edit-video.php's reply on success: affected_rows, and the stored values
      only when a row actually changed. */
  datatype UpdateReply = Updated(id: int, affectedRows: nat, data: Option<Echo>) | UpdateFailed(error: WriteError)

  /** Every key is an id the counter has handed out, and every row is one the
      field checks accept. */
  ghost predicate TableInvariant(rows: map<int, Entry>, nextId: int) {
    && nextId >= 1
    && (forall id :: id in rows ==> 1 <= id < nextId)
    && (forall id :: id in rows ==> WellFormed(rows[id]))
  }

  lemma StoreKeepsValid(rows: map<int, Entry>, nextId: int, id: int, e: Entry, next: int)
    requires TableInvariant(rows, nextId) && WellFormed(e)
    requires 1 <= id < next && nextId <= next
    ensures TableInvariant(rows[id := e], next)
  {
  }

  class Catalog {
    /** The rows by primary key. */
    var rows: map<int, Entry>
    /** The AUTO_INCREMENT counter: the id the next INSERT receives. */
    var nextId: int

    ghost predicate Valid()
      reads this
    {
      TableInvariant(rows, nextId)
    }

    constructor ()
      ensures Valid() && rows == map[] && nextId == 1
    {
      rows := map[];
      nextId := 1;
    }

    /** new-video.php. dbOk says whether preparing and executing the INSERT
        succeeded. A rejected request changes nothing; an accepted one adds
        exactly one row, under an id no row had, and echoes what was stored. */
    method NewVideo(request: Option<Input>, dbOk: bool) returns (reply: InsertReply)
      requires Valid()
      modifies this
      ensures Valid()
      ensures CheckInsert(request).Err? ==>
        reply == InsertFailed(Rejected(CheckInsert(request).error))
        && rows == old(rows) && nextId == old(nextId)
      ensures CheckInsert(request).Ok? && !dbOk ==>
        reply == InsertFailed(DatabaseError) && rows == old(rows) && nextId == old(nextId)
      ensures CheckInsert(request).Ok? && dbOk ==>
        && reply == Created(old(nextId), Shown(CheckInsert(request).value))
        && old(nextId) !in old(rows)
        && rows == old(rows)[old(nextId) := CheckInsert(request).value]
        && nextId == old(nextId) + 1
    {
      reply := InsertChecked(CheckInsert(request), dbOk);
    }

    /** The INSERT step of new-video.php, given the outcome of the checks. */
    method InsertChecked(checked: Checked<Entry>, dbOk: bool) returns (reply: InsertReply)
      requires Valid() && (checked.Ok? ==> WellFormed(checked.value))
      modifies this
      ensures Valid()
      ensures checked.Err? ==>
        reply == InsertFailed(Rejected(checked.error))
        && rows == old(rows) && nextId == old(nextId)
      ensures checked.Ok? && !dbOk ==>
        reply == InsertFailed(DatabaseError) && rows == old(rows) && nextId == old(nextId)
      ensures checked.Ok? && dbOk ==>
        && reply == Created(old(nextId), Shown(checked.value))
        && old(nextId) !in old(rows)
        && rows == old(rows)[old(nextId) := checked.value]
        && nextId == old(nextId) + 1
    {
      if checked.Err? {
        reply := InsertFailed(Rejected(checked.error));
      } else if !dbOk {
        reply := InsertFailed(DatabaseError);
      } else {
        var id := nextId;
        StoreKeepsValid(rows, nextId, id, checked.value, nextId + 1);
        rows := rows[id := checked.value];
        nextId := nextId + 1;
        reply := Created(id, Shown(checked.value));
      }
    }

    /** edit-video.php. dbOk says whether the existence query and the UPDATE
        ran. Every field check comes before the existence check; an unknown id
        changes nothing; otherwise the nine columns of that row are replaced,
        every other row is kept, and affected_rows is 0 exactly when the
        submitted values equal the stored ones. */
    method EditVideo(request: Option<Input>, dbOk: bool) returns (reply: UpdateReply)
      requires Valid()
      modifies this
      ensures Valid() && nextId == old(nextId)
      ensures CheckUpdate(request).Err? ==>
        reply == UpdateFailed(Rejected(CheckUpdate(request).error)) && rows == old(rows)
      ensures CheckUpdate(request).Ok? && !dbOk ==>
        reply == UpdateFailed(DatabaseError) && rows == old(rows)
      ensures CheckUpdate(request).Ok? && dbOk ==>
        var (id, entry) := CheckUpdate(request).value;
        if id !in old(rows) then
          reply == UpdateFailed(NotFound(id)) && rows == old(rows)
        else
          && rows == old(rows)[id := entry]
          && (old(rows)[id] == entry ==> reply == Updated(id, 0, None))
          && (old(rows)[id] != entry ==> reply == Updated(id, 1, Some(Shown(entry))))
    {
      reply := UpdateChecked(CheckUpdate(request), dbOk);
    }

    /** The existence query and the UPDATE of edit-video.php, given the
        outcome of the checks. */
    method UpdateChecked(checked: Checked<(int, Entry)>, dbOk: bool) returns (reply: UpdateReply)
      requires Valid() && (checked.Ok? ==> WellFormed(checked.value.1))
      modifies this
      ensures Valid() && nextId == old(nextId)
      ensures checked.Err? ==>
        reply == UpdateFailed(Rejected(checked.error)) && rows == old(rows)
      ensures checked.Ok? && !dbOk ==>
        reply == UpdateFailed(DatabaseError) && rows == old(rows)
      ensures checked.Ok? && dbOk ==>
        var (id, entry) := checked.value;
        if id !in old(rows) then
          reply == UpdateFailed(NotFound(id)) && rows == old(rows)
        else
          && rows == old(rows)[id := entry]
          && (old(rows)[id] == entry ==> reply == Updated(id, 0, None))
          && (old(rows)[id] != entry ==> reply == Updated(id, 1, Some(Shown(entry))))
    {
      if checked.Err? {
        reply := UpdateFailed(Rejected(checked.error));
      } else if !dbOk {
        reply := UpdateFailed(DatabaseError);
      } else {
        var (id, entry) := checked.value;
        if id !in rows {
          reply := UpdateFailed(NotFound(id));
        } else {
          var changed := rows[id] != entry;
          StoreKeepsValid(rows, nextId, id, entry, nextId);
          rows := rows[id := entry];
          reply := if changed then Updated(id, 1, Some(Shown(entry))) else Updated(id, 0, None);
        }
      }
    }
  }
}
