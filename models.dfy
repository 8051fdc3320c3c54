/**
 The `urls` table: one record type for its rows and the constraints the
 table declares on them (primary key `id`, unique `key`, unique `secret_key`).
 */
module Models {

  datatype Option<+T> = None | Some(value: T)

  /**
   Instants are whole seconds counted from 0001-01-01 00:00:00 UTC, the
   earliest instant a `datetime` can hold; a timedelta of one day is
   `SecondsPerDay` of them.
   */
  const SecondsPerDay: int := 86400

  /** 9999-12-31 23:59:59 UTC, the last whole second a `datetime` can hold. */
  const MaxInstant: int := 3652058 * SecondsPerDay + 86399

  /** The largest number of days, either sign, a `timedelta` can hold. */
  const MaxTimedeltaDays: int := 999999999

  /** An instant a `datetime` can represent. */
  predicate IsInstant(t: int)
  {
    0 <= t <= MaxInstant
  }

  /** Length of the random suffix that follows `key + "_"` in a secret key. */
  const SecretSuffixLength: nat := 8

  /** One row of the `urls` table. `expirationDate` is nullable. */
  datatype Url = Url(
    id: nat,
    key: string,
    secretKey: string,
    targetUrl: string,
    isActive: bool,
    clicks: nat,
    expirationDate: Option<int>)

  /** The row as inserted: `is_active` and `clicks` take their column defaults. */
  function NewUrl(id: nat, key: string, secretKey: string, targetUrl: string,
                  expirationDate: Option<int>): (u: Url)
    ensures u.isActive && u.clicks == 0
  {
    Url(id, key, secretKey, targetUrl, true, 0, expirationDate)
  }

  /** The secret key built from a key and a random suffix: `{key}_{suffix}`. */
  function SecretFor(key: string, suffix: string): string
  {
    key + "_" + suffix
  }

  /** `secret` has the shape `{key}_{suffix}` with a suffix of the fixed length. */
  predicate IsSecretFor(secret: string, key: string)
  {
    |secret| == |key| + 1 + SecretSuffixLength &&
    secret[..|key| + 1] == key + "_"
  }

  predicate UniqueIds(rows: seq<Url>)
  {
    forall i, j :: 0 <= i < j < |rows| ==> rows[i].id != rows[j].id
  }

  predicate UniqueKeys(rows: seq<Url>)
  {
    forall i, j :: 0 <= i < j < |rows| ==> rows[i].key != rows[j].key
  }

  predicate UniqueSecretKeys(rows: seq<Url>)
  {
    forall i, j :: 0 <= i < j < |rows| ==> rows[i].secretKey != rows[j].secretKey
  }

  /** Every secret key was derived from its own row's key. */
  predicate SecretsDerived(rows: seq<Url>)
  {
    forall i :: 0 <= i < |rows| ==> IsSecretFor(rows[i].secretKey, rows[i].key)
  }

  /** The table invariant: the declared constraints plus the derivation of secret keys. */
  predicate TableValid(rows: seq<Url>)
  {
    UniqueIds(rows) && UniqueKeys(rows) && UniqueSecretKeys(rows) && SecretsDerived(rows)
  }

  predicate KeyInUse(rows: seq<Url>, key: string)
  {
    exists i :: 0 <= i < |rows| && rows[i].key == key
  }

  predicate SecretKeyInUse(rows: seq<Url>, secretKey: string)
  {
    exists i :: 0 <= i < |rows| && rows[i].secretKey == secretKey
  }

  /** A key joined to an 8-character suffix has the secret-key shape. */
  lemma SecretForHasShape(key: string, suffix: string)
    requires |suffix| == SecretSuffixLength
    ensures IsSecretFor(SecretFor(key, suffix), key)
  {
  }

  /** A secret key determines the key it was derived from. */
  lemma SecretDeterminesKey(secret: string, key1: string, key2: string)
    requires IsSecretFor(secret, key1) && IsSecretFor(secret, key2)
    ensures key1 == key2
  {
    assert |key1| == |key2|;
    assert key1 == (key1 + "_")[..|key1|] == secret[..|key1|];
    assert key2 == (key2 + "_")[..|key2|] == secret[..|key2|];
  }

  /**
   The `secret_key` uniqueness constraint is implied by the `key` constraint:
   two rows with different keys cannot share a derived secret key.
   */
  lemma UniqueKeysGiveUniqueSecrets(rows: seq<Url>)
    requires UniqueKeys(rows) && SecretsDerived(rows)
    ensures UniqueSecretKeys(rows)
  {
    forall i, j | 0 <= i < j < |rows|
      ensures rows[i].secretKey != rows[j].secretKey
    {
      if rows[i].secretKey == rows[j].secretKey {
        SecretDeterminesKey(rows[i].secretKey, rows[i].key, rows[j].key);
      }
    }
  }

  /**
   A new secret key built from a key no row uses cannot clash with any row's
   secret key, so an insert can only violate the `key` constraint.
   */
  lemma FreshKeyGivesFreshSecret(rows: seq<Url>, key: string, suffix: string)
    requires SecretsDerived(rows)
    requires |suffix| == SecretSuffixLength
    ensures SecretKeyInUse(rows, SecretFor(key, suffix)) ==> KeyInUse(rows, key)
  {
    if SecretKeyInUse(rows, SecretFor(key, suffix)) {
      var i :| 0 <= i < |rows| && rows[i].secretKey == SecretFor(key, suffix);
      SecretForHasShape(key, suffix);
      SecretDeterminesKey(rows[i].secretKey, rows[i].key, key);
    }
  }
}
