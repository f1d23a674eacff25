/**
 * The repository (repository/ShortUrlRepository.java) over an in-memory table.
 *
 * Module Queries gives the derived queries their meaning as functions of the
 * table's rows. Module Repository holds the table itself: a sequence of
 * records in insertion order, the inherited `save`, and the queries that hand
 * back the stored records themselves.
 */
module Queries {
  import opened Wrappers
  import opened Domain

  /** The unique constraint on the `code` column. */
  predicate UniqueCodes(t: seq<Row>) {
    forall i, j :: 0 <= i < j < |t| ==> t[i].code != t[j].code
  }

  /**
   * What the table keeps true of its rows: codes are unique, ids are the
   * rows' positions, a row is not updated before it is created, and every
   * value fits its column.
   */
  predicate WellFormed(t: seq<Row>) {
    UniqueCodes(t)
    && forall i :: 0 <= i < |t| ==>
         t[i].id == i
         && t[i].createdAt <= t[i].updatedAt
         && FitsColumns(t[i].code, t[i].originalUrl, t[i].shortUrl)
  }

  /** No row carries a timestamp later than `now`: the clock has not run backwards. */
  predicate StampedBy(t: seq<Row>, now: Instant) {
    forall i :: 0 <= i < |t| ==> t[i].updatedAt <= now
  }

  /** existsByCode: whether some row, active or not, has this code. */
  function ExistsByCode(t: seq<Row>, code: string): (b: bool)
    ensures b <==> exists i :: 0 <= i < |t| && t[i].code == code
  {
    if t == [] then false
    else if t[0].code == code then true
    else
      var b := ExistsByCode(t[1..], code);
      assert b ==> exists i :: 1 <= i < |t| && t[i].code == code by {
        if b {
          var k :| 0 <= k < |t[1..]| && t[1..][k].code == code;
          assert t[k + 1].code == code;
        }
      }
      b
  }

  /** findByCodeAndActiveTrue: a row with this code that is active, if any. */
  function FindByCodeAndActiveTrue(t: seq<Row>, code: string): (r: Option<Row>)
    ensures r.Some? ==> r.value in t && r.value.code == code && r.value.active
    ensures r.None? ==> forall i :: 0 <= i < |t| && t[i].code == code ==> !t[i].active
  {
    if t == [] then None
    else if t[0].code == code && t[0].active then Some(t[0])
    else
      var r := FindByCodeAndActiveTrue(t[1..], code);
      assert r.None? ==> forall i :: 1 <= i < |t| && t[i].code == code ==> !t[i].active by {
        if r.None? {
          forall i | 1 <= i < |t| && t[i].code == code
            ensures !t[i].active
          {
            assert t[1..][i - 1] == t[i];
          }
        }
      }
      r
  }

  /** findByIdAndOwnerId: the row with this id, provided this owner owns it. */
  function FindByIdAndOwnerId(t: seq<Row>, id: ShortUrlId, owner: UserId): (r: Option<Row>)
    ensures r.Some? ==> r.value in t && r.value.id == id && r.value.owner == owner
    ensures r.None? ==> forall i :: 0 <= i < |t| && t[i].id == id ==> t[i].owner != owner
  {
    if t == [] then None
    else if t[0].id == id && t[0].owner == owner then Some(t[0])
    else
      var r := FindByIdAndOwnerId(t[1..], id, owner);
      assert r.None? ==> forall i :: 1 <= i < |t| && t[i].id == id ==> t[i].owner != owner by {
        if r.None? {
          forall i | 1 <= i < |t| && t[i].id == id
            ensures t[i].owner != owner
          {
            assert t[1..][i - 1] == t[i];
          }
        }
      }
      r
  }

  /** The rows of one owner, in table order. */
  function OwnedBy(t: seq<Row>, owner: UserId): seq<Row> {
    if t == [] then []
    else (if t[0].owner == owner then [t[0]] else []) + OwnedBy(t[1..], owner)
  }

  /** The owner's rows are each there as often as the table holds them, and nothing else is. */
  lemma {:induction false} OwnedByCounts(t: seq<Row>, owner: UserId)
    ensures forall x :: multiset(OwnedBy(t, owner))[x] == if x.owner == owner then multiset(t)[x] else 0
  {
    if t != [] {
      assert t == [t[0]] + t[1..];
      OwnedByCounts(t[1..], owner);
    }
  }

  /** Ordered by createdAt, most recent first. */
  predicate NewestFirst(s: seq<Row>) {
    forall i, j :: 0 <= i < j < |s| ==> s[i].createdAt >= s[j].createdAt
  }

  function Insert(x: Row, s: seq<Row>): (r: seq<Row>)
    requires NewestFirst(s)
    ensures NewestFirst(r)
    ensures multiset(r) == multiset(s) + multiset{x}
    ensures r != [] && (r[0] == x || (s != [] && r[0] == s[0]))
  {
    if s == [] || x.createdAt >= s[0].createdAt then [x] + s
    else
      assert s == [s[0]] + s[1..];
      [s[0]] + Insert(x, s[1..])
  }

  /** Sorting by createdAt, most recent first (ties in an order the database leaves open). */
  function SortNewestFirst(s: seq<Row>): (r: seq<Row>)
    ensures NewestFirst(r)
    ensures multiset(r) == multiset(s)
  {
    if s == [] then []
    else
      assert s == [s[0]] + s[1..];
      Insert(s[0], SortNewestFirst(s[1..]))
  }

  /** findAllByOwnerIdOrderByCreatedAtDesc: exactly the owner's rows, most recent first. */
  function FindAllByOwnerIdOrderByCreatedAtDesc(t: seq<Row>, owner: UserId): (r: seq<Row>)
    ensures NewestFirst(r)
    ensures forall x :: multiset(r)[x] == if x.owner == owner then multiset(t)[x] else 0
  {
    OwnedByCounts(t, owner);
    SortNewestFirst(OwnedBy(t, owner))
  }
  /** Appending a row with a fresh code, the next id and the current time keeps the table well formed. */
  lemma AppendKeepsWellFormed(t: seq<Row>, row: Row, now: Instant)
    requires WellFormed(t) && StampedBy(t, now)
    requires !ExistsByCode(t, row.code) && row.id == |t|
    requires row.createdAt == row.updatedAt == now
    requires FitsColumns(row.code, row.originalUrl, row.shortUrl)
    ensures WellFormed(t + [row]) && StampedBy(t + [row], now)
  {
  }

  /** In a well-formed table, every row the owner's listing holds is the row stored at its id. */
  lemma ListedRowsAreAtTheirIds(t: seq<Row>, owner: UserId)
    requires WellFormed(t)
    ensures forall x :: x in FindAllByOwnerIdOrderByCreatedAtDesc(t, owner) ==> x.id < |t| && t[x.id] == x
  {
    ListedRowsAreStored(t, owner);
  }

  /** Every row the owner's listing holds is a row of the table. */
  lemma ListedRowsAreStored(t: seq<Row>, owner: UserId)
    ensures forall x :: x in FindAllByOwnerIdOrderByCreatedAtDesc(t, owner) ==> x in t && x.owner == owner
  {
    var r := FindAllByOwnerIdOrderByCreatedAtDesc(t, owner);
    forall x | x in r
      ensures x in t && x.owner == owner
    {
      assert multiset(r)[x] > 0;
    }
  }
}

module Repository {
  import opened Wrappers
  import opened Domain
  import opened Queries

  /** Why the database refuses an insert. */
  datatype SaveError =
    | UniqueViolation  // the code is already stored
    | ValueTooLong     // a value exceeds its column length

  class ShortUrlRepository {
    /** The stored records, in insertion order. */
    var records: seq<ShortUrl>

    constructor ()
      ensures records == [] && Valid()
    {
      records := [];
    }

    predicate AllPersisted()
      reads this, records
    {
      forall i :: 0 <= i < |records| ==> records[i].Persisted()
    }

    /** The table's rows: the current values of the stored records. */
    function Table(): seq<Row>
      reads this, records
      requires AllPersisted()
    {
      Snapshots(records)
    }

    ghost predicate Valid()
      reads this, records
    {
      AllPersisted() && WellFormed(Table())
    }

    /**
     * save, for a new entity: the unique and length constraints are checked,
     * then the @PrePersist hook runs, an id is assigned and the record is
     * appended. A refused entity leaves the table and itself untouched.
     */
    method Save(entity: ShortUrl, now: Instant) returns (res: Result<ShortUrl, SaveError>)
      requires Valid() && StampedBy(Table(), now)
      requires entity.id.None?
      modifies this, entity
      ensures Valid() && StampedBy(Table(), now)
      ensures res.Failure? <==>
        ExistsByCode(old(Table()), entity.code)
        || !FitsColumns(entity.code, old(entity.originalUrl), old(entity.shortUrl))
      ensures res.Failure? ==>
        res.error == (if ExistsByCode(old(Table()), entity.code) then UniqueViolation else ValueTooLong)
        && records == old(records) && Table() == old(Table()) && unchanged(entity)
      ensures res.Success? ==>
        res.value == entity && records == old(records) + [entity]
        && Table() == old(Table()) + [Row(|old(records)|, entity.code, old(entity.originalUrl),
                                          old(entity.shortUrl), old(entity.active), now, now,
                                          old(entity.owner))]
    {
      if ExistsByCode(Table(), entity.code) {
        return Failure(UniqueViolation);
      }
      if !FitsColumns(entity.code, entity.originalUrl, entity.shortUrl) {
        return Failure(ValueTooLong);
      }
      Persist(entity, now);
      res := Success(entity);
    }

    /** The insert itself, once the constraints are known to hold. */
    method Persist(entity: ShortUrl, now: Instant)
      requires Valid() && StampedBy(Table(), now)
      requires entity.id.None?
      requires !ExistsByCode(Table(), entity.code)
      requires FitsColumns(entity.code, entity.originalUrl, entity.shortUrl)
      modifies this, entity
      ensures Valid() && StampedBy(Table(), now)
      ensures records == old(records) + [entity]
      ensures Table() == old(Table()) + [Row(|old(records)|, entity.code, old(entity.originalUrl),
                                             old(entity.shortUrl), old(entity.active), now, now,
                                             old(entity.owner))]
    {
      ghost var before := Table();
      ghost var stored := records;
      assert entity !in stored;
      entity.OnCreate(now);
      entity.id := Some(|records|);
      records := records + [entity];
      assert forall i :: 0 <= i < |stored| ==> records[i] == stored[i] && stored[i].Persisted() && stored[i].Snapshot() == before[i];
      assert entity.Snapshot() == Row(|stored|, entity.code, old(entity.originalUrl), old(entity.shortUrl),
                                      old(entity.active), now, now, old(entity.owner));
      SnapshotsAre(records, before + [entity.Snapshot()]);
      AppendKeepsWellFormed(before, entity.Snapshot(), now);
    }

    /** findByCodeAndActiveTrue, handing back the stored record. */
    function FindByCodeAndActiveTrue(code: string): (r: Option<ShortUrl>)
      reads this, records
      requires Valid()
      ensures r.Some? <==> Queries.FindByCodeAndActiveTrue(Table(), code).Some?
      ensures r.Some? ==>
        r.value in records && r.value.Snapshot() == Queries.FindByCodeAndActiveTrue(Table(), code).value
    {
      var found := Queries.FindByCodeAndActiveTrue(Table(), code);
      if found.None? then None else Some(records[found.value.id])
    }

    /** findByIdAndOwnerId, handing back the stored record. */
    function FindByIdAndOwnerId(id: ShortUrlId, owner: UserId): (r: Option<ShortUrl>)
      reads this, records
      requires Valid()
      ensures r.Some? <==> Queries.FindByIdAndOwnerId(Table(), id, owner).Some?
      ensures r.Some? ==>
        id < |records| && r.value == records[id]
        && r.value.Snapshot() == Queries.FindByIdAndOwnerId(Table(), id, owner).value
    {
      var found := Queries.FindByIdAndOwnerId(Table(), id, owner);
      if found.None? then None else Some(records[found.value.id])
    }

    /** findAllByOwnerIdOrderByCreatedAtDesc, handing back the stored records. */
    method FindAllByOwnerIdOrderByCreatedAtDesc(owner: UserId) returns (urls: seq<ShortUrl>)
      requires Valid()
      ensures forall i :: 0 <= i < |urls| ==> urls[i] in records
      ensures Snapshots(urls) == Queries.FindAllByOwnerIdOrderByCreatedAtDesc(Table(), owner)
    {
      var t := Table();
      var rows := Queries.FindAllByOwnerIdOrderByCreatedAtDesc(t, owner);
      var stored := records;
      ListedRowsAreAtTheirIds(t, owner);
      urls := seq(|rows|, i requires 0 <= i < |rows| => stored[rows[i].id]);
      forall i | 0 <= i < |rows|
        ensures urls[i] in records && urls[i].Snapshot() == rows[i]
      {
        assert rows[i] in rows;
      }
      SnapshotsAre(urls, rows);
    }
  }
}
