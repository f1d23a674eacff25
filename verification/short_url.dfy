/**
 * The short-URL entity (domain/ShortUrl.java): a mutable record persisted in
 * the `short_urls` table.
 *
 * Java's nullable fields (the generated id and the two timestamps, unset
 * until the entity is first persisted) are `Option`s. The owning `User` is
 * represented by its id. `code` has no setter in the source; here it is a
 * `const`, so that it cannot change once the record is constructed.
 */
module Domain {
  import opened Wrappers

  /** An instant of the supplied clock; `Instant.now()` becomes a parameter. */
  type Instant = nat
  /** The id of an owning account. */
  type UserId = nat
  /** The generated primary key. */
  type ShortUrlId = nat

  /** Column lengths declared on the entity. */
  const CODE_COLUMN_LENGTH: nat := 16
  const ORIGINAL_URL_COLUMN_LENGTH: nat := 2048
  const SHORT_URL_COLUMN_LENGTH: nat := 512

  predicate FitsColumns(code: string, originalUrl: string, shortUrl: string) {
    |code| <= CODE_COLUMN_LENGTH
    && |originalUrl| <= ORIGINAL_URL_COLUMN_LENGTH
    && |shortUrl| <= SHORT_URL_COLUMN_LENGTH
  }

  /** The values held by a persisted record: one row of `short_urls`. */
  datatype Row = Row(
    id: ShortUrlId,
    code: string,
    originalUrl: string,
    shortUrl: string,
    active: bool,
    createdAt: Instant,
    updatedAt: Instant,
    owner: UserId)

  class ShortUrl {
    var id: Option<ShortUrlId>
    const code: string
    var originalUrl: string
    var shortUrl: string
    var active: bool
    var createdAt: Option<Instant>
    var updatedAt: Option<Instant>
    var owner: UserId

    /** A new record stores what it is given, is active, and has no id or timestamps yet. */
    constructor (code: string, originalUrl: string, shortUrl: string, owner: UserId)
      ensures this.code == code && this.originalUrl == originalUrl
      ensures this.shortUrl == shortUrl && this.owner == owner
      ensures active
      ensures id == None && createdAt == None && updatedAt == None
    {
      this.code := code;
      this.originalUrl := originalUrl;
      this.shortUrl := shortUrl;
      this.owner := owner;
      active := true;
      id := None;
      createdAt := None;
      updatedAt := None;
    }

    /** The @PrePersist hook: both timestamps take the same instant. */
    method OnCreate(now: Instant)
      modifies this`createdAt, this`updatedAt
      ensures createdAt == Some(now) && updatedAt == Some(now)
    {
      createdAt := Some(now);
      updatedAt := Some(now);
    }

    /** The @PreUpdate hook: refreshes `updatedAt` and nothing else. */
    method OnUpdate(now: Instant)
      modifies this`updatedAt
      ensures updatedAt == Some(now)
    {
      updatedAt := Some(now);
    }

    method SetOriginalUrl(originalUrl: string)
      modifies this`originalUrl
      ensures this.originalUrl == originalUrl
    {
      this.originalUrl := originalUrl;
    }

    method SetShortUrl(shortUrl: string)
      modifies this`shortUrl
      ensures this.shortUrl == shortUrl
    {
      this.shortUrl := shortUrl;
    }

    method SetActive(active: bool)
      modifies this`active
      ensures this.active == active
    {
      this.active := active;
    }

    method SetOwner(owner: UserId)
      modifies this`owner
      ensures this.owner == owner
    {
      this.owner := owner;
    }

    /** The record has been through the persist hook and been given an id. */
    predicate Persisted()
      reads this
    {
      id.Some? && createdAt.Some? && updatedAt.Some?
    }

    /** The record's current values as a table row. */
    function Snapshot(): Row
      reads this
      requires Persisted()
    {
      Row(id.value, code, originalUrl, shortUrl, active, createdAt.value, updatedAt.value, owner)
    }
  }

  /** The rows of a sequence of persisted records, in order. */
  function Snapshots(records: seq<ShortUrl>): (t: seq<Row>)
    reads records
    requires forall i :: 0 <= i < |records| ==> records[i].Persisted()
    ensures |t| == |records|
    ensures forall i :: 0 <= i < |records| ==> t[i] == records[i].Snapshot()
  {
    if records == [] then []
    else Snapshots(records[..|records| - 1]) + [records[|records| - 1].Snapshot()]
  }

  /** Records whose rows are, one by one, the given rows have those rows as their snapshots. */
  lemma SnapshotsAre(records: seq<ShortUrl>, rows: seq<Row>)
    requires |records| == |rows|
    requires forall i :: 0 <= i < |records| ==> records[i].Persisted() && records[i].Snapshot() == rows[i]
    ensures Snapshots(records) == rows
  {
    var t := Snapshots(records);
    assert forall i :: 0 <= i < |rows| ==> t[i] == rows[i];
  }
}
