/**
 * The alias service (service/UrlService.java): creating, listing,
 * deactivating and resolving short URLs.
 *
 * Collaborators become parameters: the repository and the generator are the
 * classes of the other modules, `java.net.URI` is a supplied parse function,
 * and `Instant.now()` is the `now` argument of the operations that write.
 */
module Service {
  import opened Wrappers
  import opened Domain
  import opened Queries
  import opened Repository
  import opened Generator

  const MAX_GENERATION_ATTEMPTS: nat := 10

  /** What java.net.URI reports of a URL it could parse: its scheme and its host, each possibly absent. */
  datatype Uri = Uri(scheme: Option<string>, host: Option<string>)

  /** Why a target URL is refused; each is an IllegalArgumentException in the source. */
  datatype UrlProblem =
    | InvalidFormat      // the URL does not parse
    | UnsupportedScheme  // no scheme, or one other than http/https
    | MissingHost        // an allowed scheme but no host

  /** The exceptions the service raises. */
  datatype ServiceError =
    | IllegalArgument(problem: UrlProblem)
    | IllegalState                            // every generation attempt collided
    | ShortUrlNotFound                        // unknown, owned by someone else, or inactive
    | DataIntegrityViolation(cause: SaveError)  // the database refused the insert

  // ---------------------------------------------------------------------------
  // Validation of the target URL

  function ToLowerAscii(c: char): char {
    if 'A' <= c <= 'Z' then (c as int - 'A' as int + 'a' as int) as char else c
  }

  /** String.equalsIgnoreCase, compared character by character. */
  predicate EqualsIgnoreCase(a: string, b: string) {
    |a| == |b| && (a == [] || (ToLowerAscii(a[0]) == ToLowerAscii(b[0]) && EqualsIgnoreCase(a[1..], b[1..])))
  }

  function Lower(s: string): (r: string)
    ensures |r| == |s|
  {
    seq(|s|, i requires 0 <= i < |s| => ToLowerAscii(s[i]))
  }

  /** Two strings are equal ignoring case exactly when their lower-case forms are equal. */
  lemma {:induction false} EqualsIgnoreCaseIsLowerEquality(a: string, b: string)
    ensures EqualsIgnoreCase(a, b) <==> Lower(a) == Lower(b)
  {
    if |a| == |b| && a != [] {
      EqualsIgnoreCaseIsLowerEquality(a[1..], b[1..]);
      assert Lower(a) == [ToLowerAscii(a[0])] + Lower(a[1..]);
      assert Lower(b) == [ToLowerAscii(b[0])] + Lower(b[1..]);
      if Lower(a) == Lower(b) {
        assert Lower(a)[0] == Lower(b)[0];
        assert Lower(a)[1..] == Lower(b)[1..];
      }
    }
  }

  /** The scheme test of validateOriginalUrl. */
  predicate IsWebScheme(scheme: string) {
    EqualsIgnoreCase(scheme, "http") || EqualsIgnoreCase(scheme, "https")
  }

  /** A scheme is accepted exactly when it spells http or https in any mix of cases. */
  lemma WebSchemes(scheme: string)
    ensures IsWebScheme(scheme) <==> Lower(scheme) == "http" || Lower(scheme) == "https"
  {
    EqualsIgnoreCaseIsLowerEquality(scheme, "http");
    EqualsIgnoreCaseIsLowerEquality(scheme, "https");
    assert Lower("http") == "http";
    assert Lower("https") == "https";
  }

  /** validateOriginalUrl, given what the URI parser made of the URL (None: a URISyntaxException). */
  function ValidateOriginalUrl(parsed: Option<Uri>): (r: Result<(), UrlProblem>)
    ensures r == Failure(InvalidFormat) <==> parsed.None?
    ensures r == Failure(UnsupportedScheme) <==>
      parsed.Some? && (parsed.value.scheme.None?
                       || (Lower(parsed.value.scheme.value) != "http" && Lower(parsed.value.scheme.value) != "https"))
    ensures r.Success? <==>
      parsed.Some? && parsed.value.scheme.Some? && parsed.value.host.Some?
      && (Lower(parsed.value.scheme.value) == "http" || Lower(parsed.value.scheme.value) == "https")
  {
    match parsed
    case None => Failure(InvalidFormat)
    case Some(uri) =>
      if uri.scheme.None? then Failure(UnsupportedScheme)
      else
        WebSchemes(uri.scheme.value);
        if !IsWebScheme(uri.scheme.value) then Failure(UnsupportedScheme)
        else if uri.host.None? then Failure(MissingHost)
        else Success(())
  }

  // ---------------------------------------------------------------------------
  // The public short URL

  /** buildShortUrl: the base URL, then the path prefix "/r/", then the code. */
  function BuildShortUrl(baseUrl: string, code: string): (r: string)
    ensures |r| == |baseUrl| + 3 + |code|
    ensures r[..|baseUrl|] == baseUrl && r[|baseUrl|..|baseUrl| + 3] == "/r/" && r[|baseUrl| + 3..] == code
  {
    baseUrl + "/r/" + code
  }

  /** What follows the last '/' of s (all of s when it has none), as the controller test reads a code back. */
  function AfterLastSlash(s: string): (r: string)
    ensures |r| <= |s| && '/' !in r
  {
    if s == [] then []
    else if s[|s| - 1] == '/' then []
    else AfterLastSlash(s[..|s| - 1]) + [s[|s| - 1]]
  }

  lemma {:induction false} AfterLastSlashOfSuffix(prefix: string, code: string)
    requires '/' !in code
    ensures AfterLastSlash(prefix + ['/'] + code) == code
    decreases |code|
  {
    if code == [] {
      assert prefix + ['/'] + code == prefix + ['/'];
    } else {
      var s := prefix + ['/'] + code;
      assert s[..|s| - 1] == prefix + ['/'] + code[..|code| - 1];
      AfterLastSlashOfSuffix(prefix, code[..|code| - 1]);
    }
  }

  /** The public URL starts with the base URL and gives back its code after the last '/'. */
  lemma ShortUrlRoundTrip(baseUrl: string, code: string)
    requires '/' !in code
    ensures BuildShortUrl(baseUrl, code)[..|baseUrl|] == baseUrl
    ensures AfterLastSlash(BuildShortUrl(baseUrl, code)) == code
  {
    assert BuildShortUrl(baseUrl, code) == (baseUrl + "/r") + ['/'] + code;
    AfterLastSlashOfSuffix(baseUrl + "/r", code);
  }

  // ---------------------------------------------------------------------------
  // Unique code generation

  /** The code drawn by generation attempt `attempt` (counted from 0) when the generator had consumed `start` values. */
  function Candidate(stream: nat -> nat, start: nat, attempt: nat): string {
    CodeFrom(stream, start + attempt * DEFAULT_LENGTH, DEFAULT_LENGTH)
  }

  /** The first attempt, from `attempt` on and below the bound, whose candidate is not stored. */
  function FirstFreeAttempt(t: seq<Row>, stream: nat -> nat, start: nat, attempt: nat): (r: Option<nat>)
    decreases MAX_GENERATION_ATTEMPTS - attempt
    ensures r.Some? ==>
      attempt <= r.value < MAX_GENERATION_ATTEMPTS
      && !ExistsByCode(t, Candidate(stream, start, r.value))
      && forall j :: attempt <= j < r.value ==> ExistsByCode(t, Candidate(stream, start, j))
    ensures r.None? ==>
      forall j :: attempt <= j < MAX_GENERATION_ATTEMPTS ==> ExistsByCode(t, Candidate(stream, start, j))
  {
    if attempt >= MAX_GENERATION_ATTEMPTS then None
    else if !ExistsByCode(t, Candidate(stream, start, attempt)) then Some(attempt)
    else FirstFreeAttempt(t, stream, start, attempt + 1)
  }

  /**
   * What generateUniqueCode returns: the first candidate not yet stored, or
   * IllegalState when every attempt collides.
   */
  function GenerationResult(t: seq<Row>, stream: nat -> nat, start: nat): (r: Result<string, ServiceError>)
    ensures r.Success? ==> !ExistsByCode(t, r.value) && |r.value| == DEFAULT_LENGTH && '/' !in r.value
    ensures r.Failure? ==> r.error == IllegalState
  {
    match FirstFreeAttempt(t, stream, start, 0)
    case Some(k) =>
      CandidateShape(stream, start, k);
      Success(Candidate(stream, start, k))
    case None => Failure(IllegalState)
  }

  /**
   * Generation fails exactly when all MAX_GENERATION_ATTEMPTS candidates are
   * already stored; otherwise the code returned is the first free candidate.
   */
  lemma GenerationFailsOnlyWhenAllCollide(t: seq<Row>, stream: nat -> nat, start: nat)
    ensures GenerationResult(t, stream, start).Failure? <==>
      forall j :: 0 <= j < MAX_GENERATION_ATTEMPTS ==> ExistsByCode(t, Candidate(stream, start, j))
    ensures GenerationResult(t, stream, start).Success? ==>
      exists k :: 0 <= k < MAX_GENERATION_ATTEMPTS && GenerationResult(t, stream, start).value == Candidate(stream, start, k)
               && (forall j :: 0 <= j < k ==> ExistsByCode(t, Candidate(stream, start, j)))
  {
  }

  /** How many values generateUniqueCode draws: one code's worth per attempt made. */
  function Draws(t: seq<Row>, stream: nat -> nat, start: nat): (n: nat)
    ensures GenerationResult(t, stream, start).Failure? ==> n == MAX_GENERATION_ATTEMPTS * DEFAULT_LENGTH
    ensures DEFAULT_LENGTH <= n <= MAX_GENERATION_ATTEMPTS * DEFAULT_LENGTH
  {
    match FirstFreeAttempt(t, stream, start, 0)
    case Some(k) => (k + 1) * DEFAULT_LENGTH
    case None => MAX_GENERATION_ATTEMPTS * DEFAULT_LENGTH
  }

  /** One generation attempt: a free candidate ends the search, a stored one moves it on. */
  lemma FirstFreeStep(t: seq<Row>, stream: nat -> nat, start: nat, attempt: nat, drawn: nat, code: string)
    requires attempt < MAX_GENERATION_ATTEMPTS && drawn == start + attempt * DEFAULT_LENGTH
    requires code == CodeFrom(stream, drawn, DEFAULT_LENGTH)
    ensures !ExistsByCode(t, code) ==> FirstFreeAttempt(t, stream, start, attempt) == Some(attempt)
    ensures ExistsByCode(t, code) ==>
      FirstFreeAttempt(t, stream, start, attempt) == FirstFreeAttempt(t, stream, start, attempt + 1)
  {
    assert code == Candidate(stream, start, attempt);
  }

  /** A generated code fits the code column and contains no '/'. */
  lemma CandidateShape(stream: nat -> nat, start: nat, attempt: nat)
    ensures |Candidate(stream, start, attempt)| == DEFAULT_LENGTH <= CODE_COLUMN_LENGTH
    ensures '/' !in Candidate(stream, start, attempt)
  {
    CodeSymbols(stream, start + attempt * DEFAULT_LENGTH, DEFAULT_LENGTH);
  }

  // ---------------------------------------------------------------------------
  // Creation

  /**
   * The row createShortUrl stores, or the exception it raises: validation,
   * then code generation, then the insert, whose column limits can still
   * refuse an over-long target or public URL.
   */
  function CreateOutcome(t: seq<Row>, stream: nat -> nat, start: nat, baseUrl: string,
                         parsed: Option<Uri>, owner: UserId, originalUrl: string, now: Instant)
    : (r: Result<Row, ServiceError>)
    ensures ValidateOriginalUrl(parsed).Failure? ==> r == Failure(IllegalArgument(ValidateOriginalUrl(parsed).error))
    ensures ValidateOriginalUrl(parsed).Success? && GenerationResult(t, stream, start).Failure? ==>
      r == Failure(IllegalState)
    ensures r.Success? ==>
      ValidateOriginalUrl(parsed).Success? && GenerationResult(t, stream, start) == Success(r.value.code)
      && FitsColumns(r.value.code, r.value.originalUrl, r.value.shortUrl)
      && r.value.id == |t| && !ExistsByCode(t, r.value.code) && |r.value.code| == DEFAULT_LENGTH
      && r.value.originalUrl == originalUrl && r.value.shortUrl == BuildShortUrl(baseUrl, r.value.code)
      && r.value.active && r.value.createdAt == r.value.updatedAt == now && r.value.owner == owner
  {
    match ValidateOriginalUrl(parsed)
    case Failure(problem) => Failure(IllegalArgument(problem))
    case Success(_) =>
      match GenerationResult(t, stream, start)
      case Failure(e) => Failure(e)
      case Success(code) =>
        var shortUrl := BuildShortUrl(baseUrl, code);
        if !FitsColumns(code, originalUrl, shortUrl) then Failure(DataIntegrityViolation(ValueTooLong))
        else Success(Row(|t|, code, originalUrl, shortUrl, true, now, now, owner))
  }

  /** Once the URL is valid and a free code is drawn, only the column limits decide the outcome. */
  lemma CreatedRow(t: seq<Row>, stream: nat -> nat, start: nat, baseUrl: string,
                   parsed: Option<Uri>, owner: UserId, originalUrl: string, now: Instant, code: string)
    requires ValidateOriginalUrl(parsed).Success? && GenerationResult(t, stream, start) == Success(code)
    ensures !ExistsByCode(t, code)
    ensures CreateOutcome(t, stream, start, baseUrl, parsed, owner, originalUrl, now)
         == if FitsColumns(code, originalUrl, BuildShortUrl(baseUrl, code))
            then Success(Row(|t|, code, originalUrl, BuildShortUrl(baseUrl, code), true, now, now, owner))
            else Failure(DataIntegrityViolation(ValueTooLong))
  {
  }

  // ---------------------------------------------------------------------------
  // Deactivation

  /** The table after deactivating row i: inactive, and stamped by the flush only if it was active before. */
  function Deactivated(t: seq<Row>, i: nat, now: Instant): (r: seq<Row>)
    requires i < |t|
    ensures |r| == |t| && !r[i].active
    ensures forall j :: 0 <= j < |t| && j != i ==> r[j] == t[j]
    ensures r[i] == t[i].(active := false, updatedAt := r[i].updatedAt)
  {
    t[i := t[i].(active := false, updatedAt := if t[i].active then now else t[i].updatedAt)]
  }

  // ---------------------------------------------------------------------------
  // Properties of the lifecycle

  /** In a table with unique codes, a row resolves by its code exactly while it is active. */
  lemma ResolveByCode(t: seq<Row>, i: nat)
    requires UniqueCodes(t) && i < |t|
    ensures FindByCodeAndActiveTrue(t, t[i].code) == if t[i].active then Some(t[i]) else None
  {
    var r := FindByCodeAndActiveTrue(t, t[i].code);
    if r.Some? {
      var k :| 0 <= k < |t| && t[k] == r.value;
      assert k == i;
    }
  }

  /** The record a successful create stores resolves by its code to itself. */
  lemma ResolveAfterCreate(t: seq<Row>, row: Row)
    requires UniqueCodes(t) && !ExistsByCode(t, row.code) && row.active
    ensures FindByCodeAndActiveTrue(t + [row], row.code) == Some(row)
  {
    ResolveByCode(t + [row], |t|);
  }

  /** A deactivated record no longer resolves, while every other row resolves as before. */
  lemma DeactivatedStopsResolving(t: seq<Row>, i: nat, now: Instant)
    requires UniqueCodes(t) && i < |t|
    ensures FindByCodeAndActiveTrue(Deactivated(t, i, now), t[i].code) == None
    ensures forall j :: 0 <= j < |t| && j != i ==>
      FindByCodeAndActiveTrue(Deactivated(t, i, now), t[j].code) == FindByCodeAndActiveTrue(t, t[j].code)
  {
    var d := Deactivated(t, i, now);
    assert UniqueCodes(d) by {
      forall a, b | 0 <= a < b < |d| ensures d[a].code != d[b].code {
        assert d[a].code == t[a].code && d[b].code == t[b].code;
      }
    }
    ResolveByCode(d, i);
    forall j | 0 <= j < |t| && j != i
      ensures FindByCodeAndActiveTrue(d, t[j].code) == FindByCodeAndActiveTrue(t, t[j].code)
    {
      ResolveByCode(d, j);
      ResolveByCode(t, j);
    }
  }

  /** Deactivation keeps the table well formed and stamped no later than `now`. */
  lemma DeactivateKeepsWellFormed(t: seq<Row>, i: nat, now: Instant)
    requires WellFormed(t) && StampedBy(t, now) && i < |t|
    ensures WellFormed(Deactivated(t, i, now)) && StampedBy(Deactivated(t, i, now), now)
  {
    var d := Deactivated(t, i, now);
    forall a, b | 0 <= a < b < |d| ensures d[a].code != d[b].code {
      assert d[a].code == t[a].code && d[b].code == t[b].code;
    }
  }

  /**
   * Deactivating twice is deactivating once: the owner's second call finds the
   * record again, so it succeeds, and leaves the inactive record alone.
   */
  lemma DeactivateIsIdempotent(t: seq<Row>, i: nat, owner: UserId, now: Instant, later: Instant)
    requires WellFormed(t) && StampedBy(t, now) && i < |t|
    ensures Deactivated(Deactivated(t, i, now), i, later) == Deactivated(t, i, now)
    ensures FindByIdAndOwnerId(t, i, owner).Some? ==> FindByIdAndOwnerId(Deactivated(t, i, now), i, owner).Some?
  {
    DeactivateKeepsWellFormed(t, i, now);
    FindByIdIsOwnerScoped(t, i, owner);
    FindByIdIsOwnerScoped(Deactivated(t, i, now), i, owner);
  }

  /** Deactivation does not delete: the owner's listing still holds the record, now inactive. */
  lemma DeactivatedStaysListed(t: seq<Row>, i: nat, now: Instant)
    requires i < |t|
    ensures var d := Deactivated(t, i, now);
      d[i] in FindAllByOwnerIdOrderByCreatedAtDesc(d, t[i].owner) && !d[i].active
  {
    var d := Deactivated(t, i, now);
    assert d[i] in d;
    assert multiset(FindAllByOwnerIdOrderByCreatedAtDesc(d, t[i].owner))[d[i]] > 0;
  }

  /** In a well-formed table, the owner-scoped lookup finds the row at `id` exactly when `owner` owns it. */
  lemma FindByIdIsOwnerScoped(t: seq<Row>, id: ShortUrlId, owner: UserId)
    requires WellFormed(t)
    ensures FindByIdAndOwnerId(t, id, owner) == if id < |t| && t[id].owner == owner then Some(t[id]) else None
  {
    var r := FindByIdAndOwnerId(t, id, owner);
    if r.Some? {
      var k :| 0 <= k < |t| && t[k] == r.value;
    }
  }

  lemma {:induction false} OwnedByAppend(t: seq<Row>, row: Row, owner: UserId)
    ensures OwnedBy(t + [row], owner) == OwnedBy(t, owner) + (if row.owner == owner then [row] else [])
  {
    var added := if row.owner == owner then [row] else [];
    if t == [] {
      assert t + [row] == [row];
    } else {
      var s := t + [row];
      var head := if t[0].owner == owner then [t[0]] else [];
      assert s[0] == t[0] && s[1..] == t[1..] + [row];
      OwnedByAppend(t[1..], row, owner);
      calc {
        OwnedBy(s, owner);
        head + OwnedBy(t[1..] + [row], owner);
        head + (OwnedBy(t[1..], owner) + added);
        (head + OwnedBy(t[1..], owner)) + added;
        OwnedBy(t, owner) + added;
      }
    }
  }

  lemma {:induction false} OwnedByUpdate(t: seq<Row>, i: nat, v: Row, owner: UserId)
    requires i < |t| && t[i].owner != owner && v.owner != owner
    ensures OwnedBy(t[i := v], owner) == OwnedBy(t, owner)
  {
    if i > 0 {
      assert t[i := v][1..] == t[1..][i - 1 := v];
      OwnedByUpdate(t[1..], i - 1, v, owner);
    } else {
      assert t[i := v][1..] == t[1..];
    }
  }

  /** Creating a record leaves every other owner's listing exactly as it was. */
  lemma CreateKeepsOtherListings(t: seq<Row>, row: Row, other: UserId)
    requires other != row.owner
    ensures FindAllByOwnerIdOrderByCreatedAtDesc(t + [row], other) == FindAllByOwnerIdOrderByCreatedAtDesc(t, other)
  {
    OwnedByAppend(t, row, other);
    assert OwnedBy(t + [row], other) == OwnedBy(t, other);
  }

  /** Deactivating a record leaves every other owner's listing exactly as it was. */
  lemma DeactivateKeepsOtherListings(t: seq<Row>, i: nat, now: Instant, other: UserId)
    requires i < |t| && other != t[i].owner
    ensures FindAllByOwnerIdOrderByCreatedAtDesc(Deactivated(t, i, now), other)
         == FindAllByOwnerIdOrderByCreatedAtDesc(t, other)
  {
    OwnedByUpdate(t, i, Deactivated(t, i, now)[i], other);
  }

  /** The owner's listing after a create is the old listing plus the new record. */
  lemma CreateListsNewRecord(t: seq<Row>, row: Row)
    ensures multiset(FindAllByOwnerIdOrderByCreatedAtDesc(t + [row], row.owner))
         == multiset(FindAllByOwnerIdOrderByCreatedAtDesc(t, row.owner)) + multiset{row}
  {
    OwnedByAppend(t, row, row.owner);
    assert OwnedBy(t + [row], row.owner) == OwnedBy(t, row.owner) + [row];
    assert multiset(OwnedBy(t, row.owner) + [row]) == multiset(OwnedBy(t, row.owner)) + multiset{row};
  }

  lemma {:induction false} DistinctRows(t: seq<Row>)
    requires UniqueCodes(t)
    ensures forall x :: x in t ==> multiset(t)[x] == 1
  {
    if t != [] {
      assert t == [t[0]] + t[1..];
      assert UniqueCodes(t[1..]) by {
        forall a, b | 0 <= a < b < |t[1..]| ensures t[1..][a].code != t[1..][b].code {
          assert t[1..][a] == t[a + 1] && t[1..][b] == t[b + 1];
        }
      }
      DistinctRows(t[1..]);
      assert t[0] !in t[1..];
    }
  }

  /** An owner's listing holds each of the owner's records exactly once. */
  lemma ListedOnce(t: seq<Row>, owner: UserId)
    requires UniqueCodes(t)
    ensures forall x :: x in t && x.owner == owner ==> multiset(FindAllByOwnerIdOrderByCreatedAtDesc(t, owner))[x] == 1
    ensures forall x :: x in FindAllByOwnerIdOrderByCreatedAtDesc(t, owner) ==> x in t && x.owner == owner
  {
    DistinctRows(t);
    ListedRowsAreStored(t, owner);
  }

  /** A successful create keeps the table well formed. */
  lemma CreateKeepsWellFormed(t: seq<Row>, stream: nat -> nat, start: nat, baseUrl: string,
                              parsed: Option<Uri>, owner: UserId, originalUrl: string, now: Instant)
    requires WellFormed(t) && StampedBy(t, now)
    requires CreateOutcome(t, stream, start, baseUrl, parsed, owner, originalUrl, now).Success?
    ensures WellFormed(t + [CreateOutcome(t, stream, start, baseUrl, parsed, owner, originalUrl, now).value])
  {
    AppendKeepsWellFormed(t, CreateOutcome(t, stream, start, baseUrl, parsed, owner, originalUrl, now).value, now);
  }

  /** A created record's public URL is the base URL followed by a path that ends in its code. */
  lemma CreatedShortUrlRoundTrip(t: seq<Row>, stream: nat -> nat, start: nat, baseUrl: string,
                                 parsed: Option<Uri>, owner: UserId, originalUrl: string, now: Instant)
    requires CreateOutcome(t, stream, start, baseUrl, parsed, owner, originalUrl, now).Success?
    ensures var row := CreateOutcome(t, stream, start, baseUrl, parsed, owner, originalUrl, now).value;
      row.shortUrl[..|baseUrl|] == baseUrl && AfterLastSlash(row.shortUrl) == row.code
  {
    var row := CreateOutcome(t, stream, start, baseUrl, parsed, owner, originalUrl, now).value;
    ShortUrlRoundTrip(baseUrl, row.code);
  }

  /**
   * The state after deactivateShortUrl switched off record `id` in memory and
   * the commit flushed it: its row is the deactivated row, and the table stays valid.
   */
  lemma DeactivationFlushed(repository: ShortUrlRepository, id: nat, entity: ShortUrl, now: Instant, before: seq<Row>)
    requires WellFormed(before) && StampedBy(before, now) && id < |before| == |repository.records|
    requires entity == repository.records[id] && entity.Persisted()
    requires entity.Snapshot() == Deactivated(before, id, now)[id]
    requires forall i :: 0 <= i < |repository.records| && i != id ==>
      repository.records[i].Persisted() && repository.records[i].Snapshot() == before[i]
    ensures repository.Valid() && StampedBy(repository.Table(), now)
    ensures repository.Table() == Deactivated(before, id, now)
  {
    SnapshotsAre(repository.records, Deactivated(before, id, now));
    DeactivateKeepsWellFormed(before, id, now);
  }

  class UrlService {
    const repository: ShortUrlRepository
    const generator: ShortCodeGenerator
    const baseUrl: string
    /** java.net.URI: None when the URL does not parse. */
    const parseUri: string -> Option<Uri>

    constructor (repository: ShortUrlRepository, generator: ShortCodeGenerator,
                 baseUrl: string, parseUri: string -> Option<Uri>)
      ensures this.repository == repository && this.generator == generator
      ensures this.baseUrl == baseUrl && this.parseUri == parseUri
    {
      this.repository := repository;
      this.generator := generator;
      this.baseUrl := baseUrl;
      this.parseUri := parseUri;
    }

    /**
     * createShortUrl: validates the target, draws a fresh code, builds the
     * public URL and saves a new active record owned by `owner`. Any failure
     * leaves the table as it was.
     */
    method CreateShortUrl(owner: UserId, originalUrl: string, now: Instant) returns (res: Result<ShortUrl, ServiceError>)
      requires repository.Valid() && StampedBy(repository.Table(), now)
      modifies repository, generator`drawn
      ensures repository.Valid() && StampedBy(repository.Table(), now)
      ensures res.Success? <==>
        CreateOutcome(old(repository.Table()), generator.stream, old(generator.drawn), baseUrl,
                      parseUri(originalUrl), owner, originalUrl, now).Success?
      ensures res.Failure? ==>
        res.error == CreateOutcome(old(repository.Table()), generator.stream, old(generator.drawn), baseUrl,
                                   parseUri(originalUrl), owner, originalUrl, now).error
        && repository.records == old(repository.records)
      ensures ValidateOriginalUrl(parseUri(originalUrl)).Failure? ==> generator.drawn == old(generator.drawn)
      ensures ValidateOriginalUrl(parseUri(originalUrl)).Success? ==>
        generator.drawn == old(generator.drawn) + Draws(old(repository.Table()), generator.stream, old(generator.drawn))
      ensures res.Success? ==>
        fresh(res.value) && repository.records == old(repository.records) + [res.value]
        && repository.Table() == old(repository.Table()) + [CreateOutcome(old(repository.Table()), generator.stream,
                                   old(generator.drawn), baseUrl, parseUri(originalUrl), owner, originalUrl, now).value]
    {
      ghost var before := repository.Table();
      ghost var stored := repository.records;
      var validated := ValidateOriginalUrl(parseUri(originalUrl));
      if validated.Failure? {
        return Failure(IllegalArgument(validated.error));
      }
      var generated := GenerateUniqueCode();
      assert repository.records == stored;
      assert repository.Valid() && repository.Table() == before;
      if generated.Failure? {
        return Failure(generated.error);
      }
      CreatedRow(before, generator.stream, old(generator.drawn), baseUrl, parseUri(originalUrl), owner, originalUrl, now,
                 generated.value);
      res := StoreShortUrl(generated.value, owner, originalUrl, now);
    }

    /**
     * The tail of createShortUrl, once a free code is drawn: the public URL is
     * built and a new record saved; only the column limits can still refuse it.
     */
    method StoreShortUrl(code: string, owner: UserId, originalUrl: string, now: Instant)
      returns (res: Result<ShortUrl, ServiceError>)
      requires repository.Valid() && StampedBy(repository.Table(), now)
      requires !ExistsByCode(repository.Table(), code)
      modifies repository
      ensures repository.Valid() && StampedBy(repository.Table(), now)
      ensures res.Failure? <==> !FitsColumns(code, originalUrl, BuildShortUrl(baseUrl, code))
      ensures res.Failure? ==> res.error == DataIntegrityViolation(ValueTooLong) && repository.records == old(repository.records)
      ensures res.Success? ==>
        fresh(res.value) && repository.records == old(repository.records) + [res.value]
        && repository.Table() == old(repository.Table())
                                 + [Row(|old(repository.Table())|, code, originalUrl, BuildShortUrl(baseUrl, code),
                                        true, now, now, owner)]
    {
      var shortUrlValue := BuildShortUrl(baseUrl, code);
      var entity := new ShortUrl(code, originalUrl, shortUrlValue, owner);
      var saved := repository.Save(entity, now);
      if saved.Failure? {
        return Failure(DataIntegrityViolation(saved.error));
      }
      return Success(saved.value);
    }

    /** getUrlsForUser: the owner's records, most recent first. */
    method GetUrlsForUser(owner: UserId) returns (urls: seq<ShortUrl>)
      requires repository.Valid()
      ensures forall i :: 0 <= i < |urls| ==> urls[i] in repository.records
      ensures Snapshots(urls) == FindAllByOwnerIdOrderByCreatedAtDesc(repository.Table(), owner)
    {
      urls := repository.FindAllByOwnerIdOrderByCreatedAtDesc(owner);
    }

    /**
     * deactivateShortUrl: the owner's record with this id is switched off;
     * the flush at commit runs the @PreUpdate hook only when that changed it.
     * Another owner's id, or an unknown one, is ShortUrlNotFound and changes nothing.
     */
    method DeactivateShortUrl(id: ShortUrlId, owner: UserId, now: Instant) returns (res: Result<(), ServiceError>)
      requires repository.Valid() && StampedBy(repository.Table(), now)
      modifies repository.records
      ensures repository.Valid() && StampedBy(repository.Table(), now)
      ensures res.Failure? <==> Queries.FindByIdAndOwnerId(old(repository.Table()), id, owner).None?
      ensures res.Failure? ==> res.error == ShortUrlNotFound && repository.Table() == old(repository.Table())
      ensures res.Success? ==>
        id < |old(repository.Table())| && repository.Table() == Deactivated(old(repository.Table()), id, now)
    {
      ghost var before := repository.Table();
      var found := repository.FindByIdAndOwnerId(id, owner);
      if found.None? {
        return Failure(ShortUrlNotFound);
      }
      var entity := found.value;
      assert forall i :: 0 <= i < |before| && i != id ==> repository.records[i] != entity by {
        forall i | 0 <= i < |before| && i != id
          ensures repository.records[i] != entity
        {
          assert before[i].id == i && before[id].id == id;
        }
      }
      var dirty := entity.active;
      entity.SetActive(false);
      if dirty {
        entity.OnUpdate(now);
      }
      DeactivationFlushed(repository, id, entity, now, before);
      return Success(());
    }

    /** getActiveShortUrlByCode: the active record with this code, or ShortUrlNotFound. */
    method GetActiveShortUrlByCode(code: string) returns (res: Result<ShortUrl, ServiceError>)
      requires repository.Valid()
      ensures res.Success? <==> Queries.FindByCodeAndActiveTrue(repository.Table(), code).Some?
      ensures res.Failure? ==> res.error == ShortUrlNotFound
      ensures res.Success? ==>
        res.value in repository.records
        && res.value.Snapshot() == Queries.FindByCodeAndActiveTrue(repository.Table(), code).value
    {
      var found := repository.FindByCodeAndActiveTrue(code);
      if found.None? {
        return Failure(ShortUrlNotFound);
      }
      return Success(found.value);
    }

    /**
     * generateUniqueCode: up to MAX_GENERATION_ATTEMPTS codes are drawn and the
     * first one not yet stored is returned; if all collide, IllegalState.
     */
    method GenerateUniqueCode() returns (res: Result<string, ServiceError>)
      requires repository.AllPersisted()
      modifies generator`drawn
      ensures res == GenerationResult(old(repository.Table()), generator.stream, old(generator.drawn))
      ensures generator.drawn == old(generator.drawn) + Draws(old(repository.Table()), generator.stream, old(generator.drawn))
    {
      ghost var start := generator.drawn;
      var table := repository.Table();
      for attempt := 0 to MAX_GENERATION_ATTEMPTS
        invariant generator.drawn == start + attempt * DEFAULT_LENGTH
        invariant FirstFreeAttempt(table, generator.stream, start, 0) == FirstFreeAttempt(table, generator.stream, start, attempt)
      {
        ghost var drawn := generator.drawn;
        var candidate := generator.Generate();
        FirstFreeStep(table, generator.stream, start, attempt, drawn, candidate);
        if !ExistsByCode(table, candidate) {
          assert candidate == Candidate(generator.stream, start, attempt);
          return Success(candidate);
        }
      }
      assert FirstFreeAttempt(table, generator.stream, start, 0) == None;
      return Failure(IllegalState);
    }
  }
}
