# URL shortener: link store and request handlers

A model of the core of a small URL-shortening service. A link is one row of
the `urls` table: an id, a public `key`, an admin `secret_key` of the form
`{key}_{8 characters}`, the `target_url`, an `is_active` flag, a click
counter and an optional expiration date. The model covers

- the table (`Models`, `models.dfy`): the row record, its column defaults and
  the table invariant — ids, keys and secret keys unique, every secret key
  derived from its row's key;
- the create request body (`Schemas`, `schemas.dfy`);
- the link store (`Crud`, `crud.dfy`): a `LinkStore` class holding the table
  as a sequence of rows, with the five store operations — create (custom key
  verbatim or a generated one, derived secret key, computed expiry), lookup by
  key with lazy expiration (a read that can deactivate a row), lookup by
  secret key (no expiration check, no write), click increment and
  deactivation by secret key. Each is proved against the query it stands for
  (`FirstActive`, the `filter(column == value, is_active).first()` query) and
  keeps the table invariant and the forward-only history `Evolves`
  (rows are never removed, only `is_active` and `clicks` change, `is_active`
  never goes from false back to true, `clicks` never goes down);
- the request handlers (`Api`, `api.dfy`): the custom-key filter, the
  `expiration_days` guard, and the decisions of create, redirect, admin info
  and delete, each returning a `Response` value that names the HTTP status.

Modelling choices:

- Time is an integer `now` in seconds since 0001-01-01 00:00:00 UTC, passed
  to the operations that read the clock; one day is 86400 seconds. A row is
  expired when its expiration instant is strictly before `now`.
- Python's `datetime` stops at the end of year 9999 and `timedelta` at
  999999999 days. An `expiration_days` that takes the expiration date past
  either limit raises OverflowError in `create_db_url` before anything is
  inserted; `create_url` does not catch it, so the model reports
  `InternalError` (500) with the table unchanged.
- The URL validator is the function parameter `isValidUrl` of `CreateUrl`.
- The key generator is replaced by two parameters: `generatedKey`, required
  to be a key no row uses (what the generator guarantees by checking the
  table), and `suffix`, the 8-character random part of the secret key.
- A row object returned to a handler is identified by its position in the
  table.
- An insert under a custom key that is already taken fails the table's unique
  constraint. The store then leaves the table unchanged and `create_url`
  lets the error escape, which the model reports as `InternalError` (500).
  The model proves that the `secret_key` constraint can never be the one that
  fails: a secret key determines its key, so a fresh key gives a fresh secret
  key.
- `expiration_days = 0` is accepted: the refusal message says "at least 1
  day", yet zero is falsy, so the guard in `create_url` does not fire and no
  expiration date is stored. The model follows the code: only negative
  values are refused.
- A custom key that filters down to the empty string is falsy, so the link
  gets a generated key.

## Model

| member | source | states |
|---|---|---|
| Models.NewUrl | shortener_app/models.py:13-14 | a newly built row is active and has no clicks (the column defaults) |
| Models.SecretForHasShape | shortener_app/crud.py:11 | `{key}_{suffix}` with an 8-character suffix has the secret-key shape for `key` |
| Models.SecretDeterminesKey | shortener_app/crud.py:11 | a secret key has only one key it can have been derived from |
| Models.UniqueKeysGiveUniqueSecrets | shortener_app/models.py:10-11 | unique keys and derived secret keys give unique secret keys |
| Models.FreshKeyGivesFreshSecret | shortener_app/crud.py:11 | a secret key built from an unused key is itself unused |
| Crud.FirstActive | shortener_app/crud.py:26-30 | the lookup query returns the first row that is active and matches the column, and none exactly when no row does |
| Crud.ExpirationDate | shortener_app/crud.py:13-15 | no expiration date exactly when `expiration_days` is absent or 0; otherwise `now` plus that many days, in the future for a positive count (the store uses it only when the date arithmetic does not overflow) |
| Crud.ExpirationDateInRange | shortener_app/crud.py:15 | without overflow the expiration date is a representable instant; a positive day count overflows exactly when the date passes the end of year 9999 |
| Crud.MatchIsFirst | shortener_app/crud.py:38-43 | under unique keys and secret keys, any active matching row is the one the lookup returns |
| Crud.DeactivatedRowIsHidden | shortener_app/crud.py:53-59 | after a row is deactivated, neither its key nor its secret key finds any row |
| Crud.InsertedRowResolves | shortener_app/crud.py:17-22 | an active row inserted under an unused key is the one its key finds |
| Crud.RowToInsertShape | shortener_app/crud.py:5-19 | the new row's key is the custom key verbatim when non-empty, else the generated key; its secret key is `{key}_{suffix}`; it holds the target, is active, has 0 clicks and the computed expiry |
| Crud.InsertKeepsTableValid | shortener_app/models.py:9-11 | inserting the built row under an unused key and a new id keeps ids, keys and secret keys unique |
| Crud.EvolvesTransitive | shortener_app/crud.py:25-59 | the forward-only history property holds across any sequence of store operations |
| Crud.LinkStore.constructor | shortener_app/main.py:13 | the table starts empty and valid |
| Crud.LinkStore.CreateDbUrl | shortener_app/crud.py:5-23 | raises a date overflow exactly when the expiration date leaves the `datetime` range, else fails the unique constraint exactly when the chosen key is in use, in both cases with the table and next id unchanged; otherwise appends exactly the built row with the next id; no existing row changes |
| Crud.LinkStore.GetDbUrlByKey | shortener_app/crud.py:25-35 | returns the active row with the key unless its expiry is strictly before `now`; an expired match is deactivated and not returned; nothing else changes |
| Crud.LinkStore.GetDbUrlBySecretKey | shortener_app/crud.py:38-43 | returns the active row with this exact secret key, none exactly when there is none, with no expiration check and no write |
| Crud.LinkStore.UpdateDbClicks | shortener_app/crud.py:46-50 | the row's click count goes up by exactly 1; every other field and row is unchanged |
| Crud.LinkStore.DeactivateDbUrlBySecretKey | shortener_app/crud.py:53-59 | deactivates and returns the active row with this secret key, or returns none and writes nothing; afterwards neither lookup finds the row |
| Api.SanitizeKey | shortener_app/main.py:55-57 | the filtered key is no longer than the input and holds only ASCII letters, digits, `-` and `_` |
| Api.SanitizeKeyIsSubsequence | shortener_app/main.py:55-57 | the filtered key is the input with characters deleted, the rest in their original order |
| Api.SanitizeKeyKeepsKeyChars | shortener_app/main.py:55-57 | every allowed character keeps its number of occurrences and every other character is removed |
| Api.SanitizeKeyFixesKeyStrings | shortener_app/main.py:55-57 | a key made only of allowed characters is unchanged |
| Api.SanitizeKeyIdempotent | shortener_app/main.py:55-57 | filtering twice equals filtering once |
| Api.SanitizeKeyAppend | shortener_app/main.py:55-57 | the filter works character by character: it distributes over concatenation |
| Api.SanitizeKeyExample | shortener_app/main.py:55-57 | `"My Key!!"` becomes `"MyKey"` |
| Api.SanitizeKeyDropsAll | shortener_app/main.py:55-57 | a key with no allowed character filters to the empty string |
| Api.SanitizeTargetKey | shortener_app/main.py:54-57 | an absent or empty custom key is left untouched; a non-empty one becomes a subsequence made only of allowed characters |
| Api.EmptiedKeyIsGenerated | shortener_app/crud.py:6-9 | a custom key that filters to the empty string yields the generated key |
| Api.RejectsExpirationDays | shortener_app/main.py:59-60 | `expiration_days` is refused exactly when it is negative; absent and 0 pass |
| Api.NotFoundMessage | shortener_app/main.py:30-32 | the 404 detail contains the requested URL |
| Api.DeletedMessage | shortener_app/main.py:103 | the delete confirmation contains the target URL |
| Api.CreatedLinkResolves | shortener_app/main.py:59-62 | a link that passes the expiration guard resolves by its key at its creation instant, with 0 clicks and the requested target |
| Api.CreateUrl | shortener_app/main.py:50-63 | an invalid target URL and then a negative `expiration_days` give 400 with no write; otherwise an out-of-range expiration date or a taken filtered key gives 500 with no write, and in every other case the row for the filtered key is inserted with the next id and returned |
| Api.ForwardToTargetUrl | shortener_app/main.py:67-74 | a key that resolves gets exactly one click and a 301 to its target; otherwise 404 and no click (an expired match is deactivated) |
| Api.GetUrlInfo | shortener_app/main.py:93-97 | returns the active row with this secret key without any write, and 404 exactly when there is none |
| Api.DeleteUrl | shortener_app/main.py:101-106 | deactivates the active row with this secret key and confirms with its target URL, or 404 with no write; afterwards the link resolves by neither key |

## Left out

- HTTP routing, dependency injection and the per-request session (`get_db`): framework plumbing; each handler takes the store as a parameter and returns a `Response` value.
- Session semantics (`add`, `commit`, `refresh`, `create_all`): each commit is an atomic update of the in-memory table.
- URL validation: a foreign library, modelled as the parameter `isValidUrl`.
- The key generator: its random output is a parameter; its uniqueness check is a precondition on `generatedKey`.
- `str.isalnum` is modelled on ASCII letters and digits only; Python also keeps non-ASCII letters and digits, which `SanitizeKey` drops.
- The derived `url`, `admin_url` and `qr_url` fields that `get_admin_info` attaches to the row: they depend on runtime settings and the router, and are presentation only; `UrlInfo` carries the row.
- The QR-code endpoint `generate_qr_code`: image encoding is a library; its not-found branch calls `raise_not_found()` without its argument, which raises a type error rather than a 404.
- The root banner endpoint `read_root`: a constant string.
- Wall-clock time and date arithmetic: replaced by integer seconds; microseconds are dropped.
- Concurrent requests and lost click updates: the model is sequential.
