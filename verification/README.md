# Alias lifecycle of the URL shortener, in Dafny

This project models the core of a Spring Boot URL shortener: the alias
lifecycle. An account shortens a target URL. The service validates the URL,
draws a random 7-symbol code that is not yet stored (at most 10 attempts),
and saves an active record whose public URL is `baseUrl + "/r/" + code`.
An owner can list their records, newest first. An owner can deactivate one
of their own records. An active code resolves to its record.

The model has five modules:

- `Wrappers` holds `Option` and `Result`. They stand in for Java's nulls and
  exceptions.
- `Generator` (`short_code_generator.dfy`) models the code generator. It is a
  class that fills a `char` buffer in a loop. The secure random source
  becomes a fixed stream of values (`stream`) plus a count of the values
  consumed so far (`drawn`).
- `Domain` (`short_url.dfy`) models the `ShortUrl` entity. It is a class with
  the entity's fields, its setters and its two persistence hooks. `Row` is
  the value a persisted record holds in the table.
- `Queries` and `Repository` (`short_url_repository.dfy`) model the
  repository.
  - `Queries` gives each derived query its meaning as a function over the
    table's rows.
  - `Repository` holds the stored records in insertion order. It models the
    inherited `save` (unique and length constraints, then the `@PrePersist`
    hook and id assignment). It also models the finders, which return the
    stored records themselves.
- `Service` (`url_service.dfy`) models `UrlService`. Each operation is a
  method of the `UrlService` class. Each method is proved against a function
  over the table (`CreateOutcome`, `GenerationResult`, `Deactivated`, and the
  queries). The lifecycle properties are proved as lemmas about those
  functions.

The collaborators are parameters:

- `java.net.URI` is a supplied function `parseUri` from strings to
  `Option<Uri>`. `None` stands for a `URISyntaxException`.
- `Instant.now()` is the `now` argument of the operations that write.
- Entity ids are row positions rather than random UUIDs.

## Model

| member | source | states |
|---|---|---|
| Generator.AlphabetSymbols | src/main/java/com/example/urlshortener/service/ShortCodeGenerator.java:10 | the alphabet has exactly 62 symbols: the digits, then A-Z, then a-z, in that order |
| Generator.AlphabetDistinct | src/main/java/com/example/urlshortener/service/ShortCodeGenerator.java:10 | the 62 symbols are strictly increasing, so they are pairwise distinct |
| Generator.AlphabetIsAlphanumeric | src/main/java/com/example/urlshortener/service/ShortCodeGenerator.java:10 | a character is in the alphabet exactly when it is an ASCII letter or digit |
| Generator.CodeFrom | src/main/java/com/example/urlshortener/service/ShortCodeGenerator.java:19-25 | the code built from `length` draws has exactly `length` symbols |
| Generator.CodeSymbols | src/main/java/com/example/urlshortener/service/ShortCodeGenerator.java:19-25 | every symbol of a generated code is in the alphabet, so it is a letter or a digit |
| Generator.ShortCodeGenerator.constructor | src/main/java/com/example/urlshortener/service/ShortCodeGenerator.java:13 | a new generator has consumed nothing of its random stream |
| Generator.ShortCodeGenerator.NextInt | src/main/java/com/example/urlshortener/service/ShortCodeGenerator.java:22 | `nextInt(bound)` yields a value below the bound, taken from the next value of the stream, and consumes exactly one value |
| Generator.ShortCodeGenerator.GenerateWithLength | src/main/java/com/example/urlshortener/service/ShortCodeGenerator.java:19-25 | the buffer filled by the loop is the code of the next `length` draws, one alphabet symbol per draw, and exactly `length` values are consumed |
| Generator.ShortCodeGenerator.Generate | src/main/java/com/example/urlshortener/service/ShortCodeGenerator.java:11-17 | the no-argument form generates a code of the default length 7 |
| Domain.ShortUrl.constructor | src/main/java/com/example/urlshortener/domain/ShortUrl.java:51-56 | a new record stores its code, target, public URL and owner; it is active (the field default at line 35); its id and timestamps are unset |
| Domain.ShortUrl.OnCreate | src/main/java/com/example/urlshortener/domain/ShortUrl.java:58-63 | the persist hook sets createdAt and updatedAt to the same instant and changes no other field |
| Domain.ShortUrl.OnUpdate | src/main/java/com/example/urlshortener/domain/ShortUrl.java:65-68 | the update hook sets updatedAt and changes no other field |
| Domain.ShortUrl.SetOriginalUrl | src/main/java/com/example/urlshortener/domain/ShortUrl.java:82-84 | changes the target URL only |
| Domain.ShortUrl.SetShortUrl | src/main/java/com/example/urlshortener/domain/ShortUrl.java:90-92 | changes the public URL only |
| Domain.ShortUrl.SetActive | src/main/java/com/example/urlshortener/domain/ShortUrl.java:98-100 | changes the active flag only |
| Domain.ShortUrl.SetOwner | src/main/java/com/example/urlshortener/domain/ShortUrl.java:114-116 | changes the owner only; no member can change `code`, which is a constant (no setter at lines 25-26) |
| Domain.Snapshots | src/main/java/com/example/urlshortener/domain/ShortUrl.java:22-45 | the table's rows are, position by position, the current field values of the stored records |
| Domain.FitsColumns | src/main/java/com/example/urlshortener/domain/ShortUrl.java:25-32 | defines the column-length limits: a code of at most 16 characters, a target URL of at most 2048 and a public URL of at most 512 |
| Queries.ExistsByCode | src/main/java/com/example/urlshortener/repository/ShortUrlRepository.java:18 | true exactly when some row, active or not, has the code |
| Queries.FindByCodeAndActiveTrue | src/main/java/com/example/urlshortener/repository/ShortUrlRepository.java:12 | a result is a stored, active row with the code; no result means every row with that code is inactive |
| Queries.FindByIdAndOwnerId | src/main/java/com/example/urlshortener/repository/ShortUrlRepository.java:14 | a result is a stored row with that id and owner; no result means no row with that id belongs to the owner |
| Queries.OwnedByCounts | src/main/java/com/example/urlshortener/repository/ShortUrlRepository.java:16 | the owner filter keeps each of the owner's rows as often as the table holds it, and nothing else |
| Queries.SortNewestFirst | src/main/java/com/example/urlshortener/repository/ShortUrlRepository.java:16 | ordering by createdAt descending yields a newest-first permutation of its input |
| Queries.FindAllByOwnerIdOrderByCreatedAtDesc | src/main/java/com/example/urlshortener/repository/ShortUrlRepository.java:16 | the listing is newest first and holds exactly the owner's rows, with their multiplicities |
| Queries.AppendKeepsWellFormed | src/main/java/com/example/urlshortener/domain/ShortUrl.java:25-32 | appending a row with an unused code, the next id, equal fresh timestamps and values within their column lengths keeps codes unique and the table well formed |
| Queries.ListedRowsAreStored | src/main/java/com/example/urlshortener/repository/ShortUrlRepository.java:16 | every listed row is a stored row of that owner |
| Queries.ListedRowsAreAtTheirIds | src/main/java/com/example/urlshortener/repository/ShortUrlRepository.java:16 | in a well-formed table every listed row is the row stored under its id |
| Queries.UniqueCodes | src/main/java/com/example/urlshortener/domain/ShortUrl.java:25-26 | defines the unique constraint on the code column: no two rows share a code |
| Queries.WellFormed | src/main/java/com/example/urlshortener/domain/ShortUrl.java:22-32 | defines the table invariant: codes are unique, each id is its row position (the primary key), no row is updated before it is created, and every value fits its column |
| Repository.ShortUrlRepository.constructor | src/main/java/com/example/urlshortener/repository/ShortUrlRepository.java:10 | a new repository is empty and valid |
| Repository.ShortUrlRepository.Save | src/main/java/com/example/urlshortener/repository/ShortUrlRepository.java:10 | save of a new entity fails exactly on a duplicate code (unique column) or an over-long value (column lengths), leaving the table and the entity untouched; otherwise it appends the entity, stamped by the persist hook, under the next id, and keeps the table valid |
| Repository.ShortUrlRepository.Persist | src/main/java/com/example/urlshortener/domain/ShortUrl.java:58-63 | the insert runs the persist hook, assigns the next id and appends exactly one row with the entity's values and the current instant |
| Repository.ShortUrlRepository.FindByCodeAndActiveTrue | src/main/java/com/example/urlshortener/repository/ShortUrlRepository.java:12 | returns the stored record exactly when the row query finds one, and the record holds that row's values |
| Repository.ShortUrlRepository.FindByIdAndOwnerId | src/main/java/com/example/urlshortener/repository/ShortUrlRepository.java:14 | returns the stored record at that id exactly when the row query finds it, and the record holds that row's values |
| Repository.ShortUrlRepository.FindAllByOwnerIdOrderByCreatedAtDesc | src/main/java/com/example/urlshortener/repository/ShortUrlRepository.java:16 | returns stored records whose rows are, in order, the owner's newest-first listing |
| Service.EqualsIgnoreCaseIsLowerEquality | src/main/java/com/example/urlshortener/service/UrlService.java:79 | two strings are equal ignoring case exactly when their lower-case forms are equal |
| Service.WebSchemes | src/main/java/com/example/urlshortener/service/UrlService.java:79 | a scheme passes the test exactly when it lower-cases to "http" or "https" |
| Service.IsWebScheme | src/main/java/com/example/urlshortener/service/UrlService.java:79 | defines the scheme test: equal, ignoring case, to "http" or to "https"; WebSchemes characterises it |
| Service.ValidateOriginalUrl | src/main/java/com/example/urlshortener/service/UrlService.java:75-88 | an unparsable URL is InvalidFormat; a missing scheme, or one other than http/https in any case, is UnsupportedScheme; otherwise success exactly when a host is present |
| Service.AfterLastSlash | src/test/java/com/example/urlshortener/web/UrlControllerIntegrationTest.java:63 | what follows the last '/' is no longer than the string and contains no '/' |
| Service.BuildShortUrl | src/main/java/com/example/urlshortener/service/UrlService.java:61-63 | the public URL is the base URL, then "/r/", then the code, and is exactly as long as the three together |
| Service.ShortUrlRoundTrip | src/main/java/com/example/urlshortener/service/UrlService.java:61-63 | the public URL starts with the base URL, and the text after its last '/' is the code |
| Service.FirstFreeAttempt | src/main/java/com/example/urlshortener/service/UrlService.java:65-73 | finds the first attempt below the bound whose candidate is not stored, with every earlier candidate stored; no result means every remaining candidate is stored |
| Service.GenerationResult | src/main/java/com/example/urlshortener/service/UrlService.java:65-73 | a generated code is not stored, has length 7 and contains no '/'; failure is IllegalState |
| Service.GenerationFailsOnlyWhenAllCollide | src/main/java/com/example/urlshortener/service/UrlService.java:19 | generation fails exactly when all 10 candidates are already stored; otherwise it returns the first candidate not stored |
| Service.Draws | src/main/java/com/example/urlshortener/service/UrlService.java:65-73 | generation consumes between 7 and 70 random values, and exactly 70 (10 full codes) when it fails |
| Service.FirstFreeStep | src/main/java/com/example/urlshortener/service/UrlService.java:66-70 | proof step for GenerateUniqueCode: one loop iteration is one unfolding of FirstFreeAttempt. An unstored candidate ends the search; a stored one moves it to the next attempt |
| Service.CandidateShape | src/main/java/com/example/urlshortener/domain/ShortUrl.java:25-26 | every candidate has 7 symbols, fits the 16-character code column and contains no '/' |
| Service.CreateOutcome | src/main/java/com/example/urlshortener/service/UrlService.java:35-41 | a validation failure is IllegalArgument with its reason; after validation, a generation failure is IllegalState; success means a valid URL, the generated unused code, values within their columns, the next id, the target, `baseUrl + "/r/" + code`, active, both timestamps at now, and the caller as owner |
| Service.CreatedRow | src/main/java/com/example/urlshortener/service/UrlService.java:35-41 | proof step for CreateShortUrl: one unfolding of CreateOutcome. Once the URL is valid and a code is drawn, only the column lengths decide between the new active row and ValueTooLong |
| Service.Deactivated | src/main/java/com/example/urlshortener/service/UrlService.java:49-53 | deactivation makes the record inactive and leaves its other values and every other row unchanged, except for the update timestamp |
| Service.ResolveByCode | src/main/java/com/example/urlshortener/service/UrlService.java:56-59 | with unique codes, a record resolves by its code exactly while it is active |
| Service.ResolveAfterCreate | src/main/java/com/example/urlshortener/service/UrlService.java:35-41 | a freshly created record resolves by its code to itself |
| Service.DeactivatedStopsResolving | src/main/java/com/example/urlshortener/service/UrlService.java:49-59 | after deactivation the record's code no longer resolves, and every other code resolves as before |
| Service.DeactivateKeepsWellFormed | src/main/java/com/example/urlshortener/service/UrlService.java:49-53 | deactivation keeps codes unique and the table well formed |
| Service.DeactivateIsIdempotent | src/main/java/com/example/urlshortener/service/UrlService.java:49-53 | the owner's second deactivation of a record also succeeds (the owner-scoped lookup still finds it), and at any instant it changes nothing |
| Service.DeactivatedStaysListed | src/test/java/com/example/urlshortener/web/UrlControllerIntegrationTest.java:83-89 | a deactivated record stays in its owner's listing and is shown inactive |
| Service.FindByIdIsOwnerScoped | src/main/java/com/example/urlshortener/service/UrlService.java:49-53 | in a well-formed table, the owner-scoped lookup finds the record with this id exactly when the caller owns it |
| Service.OwnedByAppend | src/main/java/com/example/urlshortener/repository/ShortUrlRepository.java:16 | the owner filter of an extended table is the old filter, extended by the new row when the owner owns it |
| Service.OwnedByUpdate | src/main/java/com/example/urlshortener/repository/ShortUrlRepository.java:16 | changing a row that another owner holds before and after leaves the owner filter unchanged |
| Service.CreateKeepsOtherListings | src/main/java/com/example/urlshortener/service/UrlService.java:35-46 | creating a record leaves every other owner's listing exactly as it was |
| Service.DeactivateKeepsOtherListings | src/main/java/com/example/urlshortener/service/UrlService.java:44-53 | deactivating a record leaves every other owner's listing exactly as it was |
| Service.CreateListsNewRecord | src/main/java/com/example/urlshortener/service/UrlService.java:35-46 | after a create, the owner's listing holds the old listing plus the new record |
| Service.DistinctRows | src/main/java/com/example/urlshortener/domain/ShortUrl.java:25-26 | with unique codes, every row occurs in the table exactly once |
| Service.ListedOnce | src/main/java/com/example/urlshortener/service/UrlService.java:44-46 | an owner's listing holds each of the owner's records exactly once, and only those |
| Service.CreateKeepsWellFormed | src/main/java/com/example/urlshortener/service/UrlService.java:35-41 | a successful create keeps codes unique and the table well formed |
| Service.CreatedShortUrlRoundTrip | src/main/java/com/example/urlshortener/service/UrlService.java:35-41 | a created record's public URL starts with the base URL and ends in its code after the last '/' |
| Service.DeactivationFlushed | src/main/java/com/example/urlshortener/service/UrlService.java:49-53 | once the record is switched off in memory and flushed, the table is the deactivated table and stays valid |
| Service.UrlService.constructor | src/main/java/com/example/urlshortener/service/UrlService.java:25-32 | the service keeps its repository, generator, base URL and URI parser |
| Service.UrlService.CreateShortUrl | src/main/java/com/example/urlshortener/service/UrlService.java:35-41 | succeeds exactly when CreateOutcome does. A failure raises CreateOutcome's error and stores nothing. A success appends exactly one new record, whose row is CreateOutcome's row. The table stays valid. An invalid URL draws no random values; otherwise exactly Draws values are drawn |
| Service.UrlService.StoreShortUrl | src/main/java/com/example/urlshortener/service/UrlService.java:38-40 | builds the public URL and saves a new active record; it fails with ValueTooLong exactly when a value exceeds its column, storing nothing |
| Service.UrlService.GetUrlsForUser | src/main/java/com/example/urlshortener/service/UrlService.java:44-46 | returns stored records whose rows are exactly the owner's newest-first listing |
| Service.UrlService.DeactivateShortUrl | src/main/java/com/example/urlshortener/service/UrlService.java:49-53 | fails with ShortUrlNotFound, changing nothing, exactly when the caller owns no record with this id; otherwise the table becomes the deactivated table and stays valid |
| Service.UrlService.GetActiveShortUrlByCode | src/main/java/com/example/urlshortener/service/UrlService.java:56-59 | succeeds exactly when an active record has the code and returns that stored record; otherwise ShortUrlNotFound |
| Service.UrlService.GenerateUniqueCode | src/main/java/com/example/urlshortener/service/UrlService.java:65-73 | the loop returns GenerationResult: the first candidate not stored, or IllegalState after all 10 attempts; it consumes exactly Draws values and does not touch the table |

## Left out

- Authentication, JWT handling, the web controllers, the exception handler
  and the DTOs are not part of this model. Services and controllers outside
  `UrlService` are outside the alias lifecycle.
- The parsing of `java.net.URI` is left out. It is the supplied function
  `parseUri`, of which the model uses only the scheme and the host.
- Service.ValidateOriginalUrl: case folding covers ASCII letters only.
  `equalsIgnoreCase` also folds some non-ASCII letters; for example, U+017F
  (long s) upper-cases to 'S'. A scheme never holds such a letter:
  `java.net.URI` accepts only ASCII letters, digits, '+', '-' and '.' in a
  scheme and throws `URISyntaxException` on anything else. So the ASCII fold
  gives the same answer on every scheme the parser can return.
- Service.ValidateOriginalUrl rejects only an absent host
  (`getHost() == null`). A present but empty host passes, as it does in the
  code.
- A unique-constraint conflict at save time is not retried. `Save`'s
  `UniqueViolation` propagates as `DataIntegrityViolation`, as it does in the
  code. The model has no concurrency. So the check-then-act race between two
  concurrent creates, the only way that conflict can arise, is not modelled.
- Transactions are not modelled. A failed create consumes random values
  anyway; in the model, `drawn` is not rolled back.
- Generator.ShortCodeGenerator.GenerateWithLength takes a `nat`. A negative
  length, which throws `NegativeArraySizeException` in Java, cannot be
  passed.
- Randomness is left out: `SecureRandom` is an arbitrary stream of values, so
  nothing about uniformity or unpredictability is stated.
- `Instant.now()` is left out: it is the `now` argument, and the operations
  that write require that no stored timestamp is later than `now`.
- Repository.ShortUrlRepository.Save models only the insert of a new entity.
  The merge path of JPA's `save` for an already persisted entity is not
  used by the service and is not modelled. The constraints are checked
  before the persist hook runs, so a refused entity stays untouched; in
  Hibernate the hook has already stamped it, but the refused entity is
  discarded with the rolled-back transaction.
- Random UUID ids are replaced by row positions.
- Queries.FindAllByOwnerIdOrderByCreatedAtDesc: records with the same
  `createdAt` are listed in insertion order. The database leaves this order
  open, and insertion order is one of the orders it may return. The
  function's `ensures` does not promise any particular order among ties.
- The dirty-checking flush of deactivateShortUrl is part of
  `DeactivateShortUrl`. The update hook runs only when the record was still
  active, because an unchanged entity is not flushed.
- Service.UrlService.StoreShortUrl is the tail of createShortUrl, split out
  as its own method.
- The setters other than `setActive` are modelled as entity operations. No
  service operation calls them.
