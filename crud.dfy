/**
 The link store: the only code that reads and writes the `urls` table.
 Each commit is an atomic update of the in-memory table `rows`; a row object
 handed back to a caller is identified by its position in `rows`.
 */
module Crud {
  import opened Models
  import opened Schemas

  /** The two indexed columns a lookup filters on, always together with `is_active`. */
  datatype Column = KeyColumn | SecretKeyColumn

  /**
   Result of an insert: the new row's position, a date out of the `datetime`
   range (OverflowError, raised before the insert), or a unique-constraint failure.
   */
  datatype CreateOutcome = Created(index: nat) | DateOverflow | IntegrityError

  /** The filter `column == value AND is_active`. */
  predicate ActiveMatch(u: Url, col: Column, value: string)
  {
    u.isActive &&
    match col
    case KeyColumn => u.key == value
    case SecretKeyColumn => u.secretKey == value
  }

  /** The query `filter(column == value, is_active).first()` over the table. */
  function FirstActive(rows: seq<Url>, col: Column, value: string): (r: Option<nat>)
    ensures r.Some? ==> r.value < |rows| && ActiveMatch(rows[r.value], col, value)
    ensures r.Some? ==> forall j :: 0 <= j < r.value ==> !ActiveMatch(rows[j], col, value)
    ensures r.None? ==> forall j :: 0 <= j < |rows| ==> !ActiveMatch(rows[j], col, value)
  {
    if rows == [] then None
    else if ActiveMatch(rows[0], col, value) then Some(0)
    else match FirstActive(rows[1..], col, value)
      case None => None
      case Some(k) => Some(k + 1)
  }

  /** The key of a new row: the requested key when it is non-empty, else the generated one. */
  function ChosenKey(targetKey: Option<string>, generatedKey: string): string
  {
    if Truthy(targetKey) then targetKey.value else generatedKey
  }

  /** `now + timedelta(days=expiration_days)` when `expiration_days` is truthy, else null. */
  function ExpirationDate(expirationDays: Option<int>, now: int): (r: Option<int>)
    ensures r.None? <==> expirationDays == None || expirationDays == Some(0)
    ensures r.Some? ==> r.value - now == expirationDays.value * SecondsPerDay
    ensures r.Some? && expirationDays.value > 0 ==> r.value > now
  {
    if expirationDays.Some? && expirationDays.value != 0 then
      Some(now + expirationDays.value * SecondsPerDay)
    else
      None
  }

  /**
   `timedelta(days=expiration_days)` or its sum with `now` falls outside what
   Python can represent, so computing the expiration date raises OverflowError.
   */
  predicate ExpirationOverflows(expirationDays: Option<int>, now: int)
  {
    expirationDays.Some? && expirationDays.value != 0 &&
    (expirationDays.value < -MaxTimedeltaDays || expirationDays.value > MaxTimedeltaDays ||
     !IsInstant(now + expirationDays.value * SecondsPerDay))
  }

  /**
   When the date arithmetic does not overflow, the expiration date is a
   representable instant; for an instant `now`, a day count in the timedelta
   range overflows exactly when the date passes the end of year 9999 or
   precedes year 1.
   */
  lemma ExpirationDateInRange(expirationDays: Option<int>, now: int)
    requires IsInstant(now)
    ensures !ExpirationOverflows(expirationDays, now) && ExpirationDate(expirationDays, now).Some? ==>
      IsInstant(ExpirationDate(expirationDays, now).value)
    ensures expirationDays.Some? && expirationDays.value > 0 ==>
      (ExpirationOverflows(expirationDays, now) <==> now + expirationDays.value * SecondsPerDay > MaxInstant)
  {
  }

  /** The row as `create_db_url` builds it before the insert. */
  function RowToInsert(url: UrlBase, id: nat, generatedKey: string, suffix: string, now: int): Url
  {
    var key := ChosenKey(url.targetKey, generatedKey);
    NewUrl(id, key, SecretFor(key, suffix), url.targetUrl, ExpirationDate(url.expirationDays, now))
  }

  /** A row whose expiration instant lies strictly before `now`. */
  predicate Expired(u: Url, now: int)
  {
    u.expirationDate.Some? && u.expirationDate.value < now
  }

  function WithClick(rows: seq<Url>, i: nat): seq<Url>
    requires i < |rows|
  {
    rows[i := rows[i].(clicks := rows[i].clicks + 1)]
  }

  function WithDeactivated(rows: seq<Url>, i: nat): seq<Url>
    requires i < |rows|
  {
    rows[i := rows[i].(isActive := false)]
  }

  /** Two versions of one row that agree on every field but `is_active` and `clicks`. */
  predicate SameLink(a: Url, b: Url)
  {
    a.id == b.id && a.key == b.key && a.secretKey == b.secretKey &&
    a.targetUrl == b.targetUrl && a.expirationDate == b.expirationDate
  }

  /**
   The history of the table only moves forward: rows are never removed,
   only `is_active` and `clicks` ever change, a deactivated row stays
   inactive and a click count never goes down.
   */
  predicate Evolves(before: seq<Url>, after: seq<Url>)
  {
    |before| <= |after| &&
    forall i :: 0 <= i < |before| ==>
      SameLink(before[i], after[i]) &&
      before[i].clicks <= after[i].clicks &&
      (after[i].isActive ==> before[i].isActive)
  }

  /** Keys and secret keys are unique, so an active match is the row `first()` returns. */
  lemma MatchIsFirst(rows: seq<Url>, col: Column, value: string, j: nat)
    requires TableValid(rows)
    requires j < |rows| && ActiveMatch(rows[j], col, value)
    ensures FirstActive(rows, col, value) == Some(j)
  {
  }

  /**
   After a row is deactivated, neither its key nor its secret key resolves any
   more: both lookups filter on `is_active`, and no other row shares them.
   */
  lemma DeactivatedRowIsHidden(rows: seq<Url>, i: nat)
    requires TableValid(rows) && i < |rows|
    ensures FirstActive(WithDeactivated(rows, i), KeyColumn, rows[i].key) == None
    ensures FirstActive(WithDeactivated(rows, i), SecretKeyColumn, rows[i].secretKey) == None
  {
  }

  /** An active row just inserted under a fresh key is the one its key selects. */
  lemma InsertedRowResolves(rows: seq<Url>, u: Url)
    requires !KeyInUse(rows, u.key) && u.isActive
    ensures FirstActive(rows + [u], KeyColumn, u.key) == Some(|rows|)
  {
    var all := rows + [u];
    var r := FirstActive(all, KeyColumn, u.key);
    assert ActiveMatch(all[|rows|], KeyColumn, u.key);
  }

  /**
   The row `create_db_url` builds: the requested key verbatim when it is
   non-empty, else the generated key; a secret key `{key}_{suffix}`; the
   given target; active, no clicks, and the computed expiration date.
   */
  lemma RowToInsertShape(url: UrlBase, id: nat, generatedKey: string, suffix: string, now: int)
    requires |suffix| == SecretSuffixLength
    ensures var u := RowToInsert(url, id, generatedKey, suffix, now);
      (Truthy(url.targetKey) ==> u.key == url.targetKey.value) &&
      (!Truthy(url.targetKey) ==> u.key == generatedKey) &&
      IsSecretFor(u.secretKey, u.key) &&
      u.secretKey[|u.key| + 1..] == suffix &&
      u.id == id && u.targetUrl == url.targetUrl && u.isActive && u.clicks == 0 &&
      u.expirationDate == ExpirationDate(url.expirationDays, now)
  {
  }

  /** The row `create_db_url` inserts keeps the table valid when its key is fresh. */
  lemma InsertKeepsTableValid(rows: seq<Url>, url: UrlBase, id: nat, generatedKey: string, suffix: string, now: int)
    requires TableValid(rows)
    requires forall i :: 0 <= i < |rows| ==> rows[i].id < id
    requires |suffix| == SecretSuffixLength
    requires !KeyInUse(rows, ChosenKey(url.targetKey, generatedKey))
    ensures TableValid(rows + [RowToInsert(url, id, generatedKey, suffix, now)])
  {
    var u := RowToInsert(url, id, generatedKey, suffix, now);
    var all := rows + [u];
    SecretForHasShape(u.key, suffix);
    assert UniqueKeys(all) by {
      forall i, j | 0 <= i < j < |all| ensures all[i].key != all[j].key {
        if j == |rows| {
          assert all[i] == rows[i];
        }
      }
    }
    assert SecretsDerived(all);
    UniqueKeysGiveUniqueSecrets(all);
  }

  /** Histories compose: what no single operation undoes, no sequence of them undoes. */
  lemma EvolvesTransitive(a: seq<Url>, b: seq<Url>, c: seq<Url>)
    requires Evolves(a, b) && Evolves(b, c)
    ensures Evolves(a, c)
  {
  }

  class LinkStore {
    /** The rows of the `urls` table, in insertion order. */
    var rows: seq<Url>
    /** The id the next inserted row receives; ids are never reused. */
    var nextId: nat

    ghost predicate Valid()
      reads this
    {
      TableValid(rows) && forall i :: 0 <= i < |rows| ==> rows[i].id < nextId
    }

    /** An empty table, as `create_all` leaves it. */
    constructor ()
      ensures Valid() && rows == [] && nextId == 1
    {
      rows := [];
      nextId := 1;
    }

    /**
     `create_db_url`: insert a row for `url`. The caller supplies what the key
     generator would return: `generatedKey`, a key no row uses (consulted only
     when `url.targetKey` is empty or absent), and the 8-character `suffix`.
     An expiration date outside the `datetime` range raises before the insert;
     a requested key already in use makes the commit fail on the unique
     constraint. In both cases the table is left as it was.
     */
    method CreateDbUrl(url: UrlBase, generatedKey: string, suffix: string, now: int)
      returns (r: CreateOutcome)
      requires Valid()
      requires !Truthy(url.targetKey) ==> !KeyInUse(rows, generatedKey)
      requires |suffix| == SecretSuffixLength
      modifies this
      ensures Valid() && Evolves(old(rows), rows)
      ensures r.DateOverflow? <==> ExpirationOverflows(url.expirationDays, now)
      ensures r.IntegrityError? <==>
        !ExpirationOverflows(url.expirationDays, now) &&
        KeyInUse(old(rows), ChosenKey(url.targetKey, generatedKey))
      ensures !r.Created? ==> rows == old(rows) && nextId == old(nextId)
      ensures r.Created? ==>
        r.index == |old(rows)| && nextId == old(nextId) + 1 &&
        rows == old(rows) + [RowToInsert(url, old(nextId), generatedKey, suffix, now)]
    {
      if ExpirationOverflows(url.expirationDays, now) {
        return DateOverflow;
      }
      var row := RowToInsert(url, nextId, generatedKey, suffix, now);
      FreshKeyGivesFreshSecret(rows, row.key, suffix);
      if KeyInUse(rows, row.key) || SecretKeyInUse(rows, row.secretKey) {
        r := IntegrityError;
      } else {
        InsertKeepsTableValid(rows, url, nextId, generatedKey, suffix, now);
        rows := rows + [row];
        nextId := nextId + 1;
        r := Created(|rows| - 1);
      }
    }

    /**
     `get_db_url_by_key`: the active row with this key, with lazy expiration:
     a match whose expiration date lies strictly before `now` is deactivated
     and not returned. A row expiring exactly at `now` is still returned.
     */
    method GetDbUrlByKey(urlKey: string, now: int) returns (found: Option<nat>)
      requires Valid()
      modifies this`rows
      ensures Valid() && Evolves(old(rows), rows)
      ensures found.Some? ==>
        found.value < |rows| && rows == old(rows) &&
        ActiveMatch(rows[found.value], KeyColumn, urlKey) && !Expired(rows[found.value], now)
      ensures match FirstActive(old(rows), KeyColumn, urlKey)
        case None => found.None? && rows == old(rows)
        case Some(i) =>
          if Expired(old(rows)[i], now) then found.None? && rows == WithDeactivated(old(rows), i)
          else found == Some(i) && rows == old(rows)
    {
      found := FirstActive(rows, KeyColumn, urlKey);
      if found.Some? && Expired(rows[found.value], now) {
        rows := WithDeactivated(rows, found.value);
        found := None;
      }
    }

    /** `get_db_url_by_secret_key`: the active row with this secret key; no expiration check, no write. */
    method GetDbUrlBySecretKey(secretKey: string) returns (found: Option<nat>)
      requires Valid()
      ensures found.Some? ==> found.value < |rows| && ActiveMatch(rows[found.value], SecretKeyColumn, secretKey)
      ensures found.None? <==> forall j :: 0 <= j < |rows| ==> !ActiveMatch(rows[j], SecretKeyColumn, secretKey)
      ensures forall j :: 0 <= j < |rows| && ActiveMatch(rows[j], SecretKeyColumn, secretKey) ==> found == Some(j)
    {
      found := FirstActive(rows, SecretKeyColumn, secretKey);
      if found.Some? {
        MatchIsFirst(rows, SecretKeyColumn, secretKey, found.value);
      }
    }

    /** `update_db_clicks`: one more click on row `i`; nothing else changes. */
    method UpdateDbClicks(i: nat)
      requires Valid() && i < |rows|
      modifies this`rows
      ensures Valid() && Evolves(old(rows), rows)
      ensures rows == WithClick(old(rows), i)
      ensures rows[i].clicks == old(rows)[i].clicks + 1
    {
      rows := WithClick(rows, i);
    }

    /**
     `deactivate_db_url_by_secret_key`: the active row with this secret key is
     marked inactive and returned; with no such row nothing is written.
     */
    method DeactivateDbUrlBySecretKey(secretKey: string) returns (found: Option<nat>)
      requires Valid()
      modifies this`rows
      ensures Valid() && Evolves(old(rows), rows)
      ensures found == FirstActive(old(rows), SecretKeyColumn, secretKey)
      ensures found.None? ==> rows == old(rows)
      ensures found.Some? ==>
        found.value < |rows| && rows == WithDeactivated(old(rows), found.value) &&
        rows[found.value].secretKey == secretKey && old(rows)[found.value].isActive
      ensures found.Some? ==>
        FirstActive(rows, KeyColumn, rows[found.value].key) == None &&
        FirstActive(rows, SecretKeyColumn, secretKey) == None
    {
      found := GetDbUrlBySecretKey(secretKey);
      if found.Some? {
        DeactivatedRowIsHidden(rows, found.value);
        rows := WithDeactivated(rows, found.value);
      }
    }
  }
}
