/**
 The request handlers: input checks for a create call, and the decisions the
 redirect, admin-info and delete endpoints take around the link store.
 Routing, dependency injection and the response objects are not modelled;
 each handler returns a `Response` value naming the status it would send.
 */
module Api {
  import opened Models
  import opened Schemas
  import opened Crud

  datatype Response =
    | UrlInfo(row: Url)                         // 200, the row as a JSON record
    | RedirectTo(location: string, status: int) // 301 to the target
    | Detail(message: string)                   // 200, {"detail": message}
    | BadRequest(message: string)               // 400
    | NotFound(message: string)                 // 404
    | InternalError                             // 500, an exception escaped the handler

  const InvalidUrlMessage: string := "The provided URL is invalid"
  const InvalidExpirationMessage: string := "Expiration days must be set to at least 1 day"
  const DeletedPrefix: string := "Successfully deleted shortened URL for '"

  /** `str.isalnum`, restricted to ASCII letters and digits. */
  predicate IsAlnum(c: char)
  {
    'a' <= c <= 'z' || 'A' <= c <= 'Z' || '0' <= c <= '9'
  }

  /** The characters a custom key may keep. */
  predicate IsKeyChar(c: char)
  {
    IsAlnum(c) || c == '-' || c == '_'
  }

  /** The filter applied to a custom key: every character that is not a key character is dropped. */
  function SanitizeKey(s: string): (r: string)
    ensures |r| <= |s|
    ensures forall i :: 0 <= i < |r| ==> IsKeyChar(r[i])
  {
    if s == [] then []
    else if IsKeyChar(s[0]) then [s[0]] + SanitizeKey(s[1..])
    else SanitizeKey(s[1..])
  }

  /** `a` is `b` with some characters deleted, the rest kept in order. */
  predicate IsSubsequence(a: string, b: string)
  {
    if a == [] then true
    else if b == [] then false
    else if a[0] == b[0] then IsSubsequence(a[1..], b[1..])
    else IsSubsequence(a, b[1..])
  }

  /** The sanitised key is the input with characters deleted and the rest in their original order. */
  lemma {:induction false} SanitizeKeyIsSubsequence(s: string)
    ensures IsSubsequence(SanitizeKey(s), s)
  {
    if s != [] {
      SanitizeKeyIsSubsequence(s[1..]);
      if !IsKeyChar(s[0]) {
        SubsequenceOfTail(SanitizeKey(s[1..]), s);
      }
    }
  }

  lemma {:induction false} SubsequenceOfTail(a: string, b: string)
    requires b != [] && IsSubsequence(a, b[1..])
    ensures IsSubsequence(a, b)
  {
    if a != [] && a[0] == b[0] {
      SubsequenceDropFirst(a, b[1..]);
    }
  }

  lemma {:induction false} SubsequenceDropFirst(a: string, b: string)
    requires a != [] && IsSubsequence(a, b)
    ensures IsSubsequence(a[1..], b)
  {
    if b != [] {
      if a[0] == b[0] {
        SubsequenceOfTail(a[1..], b);
      } else {
        SubsequenceDropFirst(a, b[1..]);
        SubsequenceOfTail(a[1..], b);
      }
    }
  }

  /** Only the disallowed characters are deleted: each key character keeps its number of occurrences. */
  lemma {:induction false} SanitizeKeyKeepsKeyChars(s: string, c: char)
    ensures multiset(SanitizeKey(s))[c] == if IsKeyChar(c) then multiset(s)[c] else 0
  {
    if s != [] {
      SanitizeKeyKeepsKeyChars(s[1..], c);
      assert s == [s[0]] + s[1..];
    }
  }

  /** A key made only of key characters is left as it is. */
  lemma {:induction false} SanitizeKeyFixesKeyStrings(s: string)
    requires forall i :: 0 <= i < |s| ==> IsKeyChar(s[i])
    ensures SanitizeKey(s) == s
  {
    if s != [] {
      SanitizeKeyFixesKeyStrings(s[1..]);
    }
  }

  /** Sanitising twice is the same as sanitising once. */
  lemma {:induction false} SanitizeKeyIdempotent(s: string)
    ensures SanitizeKey(SanitizeKey(s)) == SanitizeKey(s)
  {
    SanitizeKeyFixesKeyStrings(SanitizeKey(s));
  }

  /** The filter works character by character: it distributes over concatenation. */
  lemma {:induction false} SanitizeKeyAppend(a: string, b: string)
    ensures SanitizeKey(a + b) == SanitizeKey(a) + SanitizeKey(b)
  {
    if a == [] {
      assert a + b == b;
    } else {
      assert (a + b)[0] == a[0] && (a + b)[1..] == a[1..] + b;
      SanitizeKeyAppend(a[1..], b);
    }
  }

  /** `"My Key!!"` becomes `"MyKey"`. */
  lemma SanitizeKeyExample()
    ensures SanitizeKey("My Key!!") == "MyKey"
  {
  }

  /** The `if url.target_key:` guard: only a present, non-empty custom key is filtered. */
  function SanitizeTargetKey(targetKey: Option<string>): (r: Option<string>)
    ensures !Truthy(targetKey) ==> r == targetKey
    ensures Truthy(targetKey) ==> r.Some? && IsSubsequence(r.value, targetKey.value)
    ensures Truthy(targetKey) ==> forall i :: 0 <= i < |r.value| ==> IsKeyChar(r.value[i])
  {
    if Truthy(targetKey) then
      SanitizeKeyIsSubsequence(targetKey.value);
      Some(SanitizeKey(targetKey.value))
    else
      targetKey
  }

  /** A string with no key character at all filters down to the empty string. */
  lemma {:induction false} SanitizeKeyDropsAll(s: string)
    requires forall i :: 0 <= i < |s| ==> !IsKeyChar(s[i])
    ensures SanitizeKey(s) == ""
  {
    if s != [] {
      SanitizeKeyDropsAll(s[1..]);
    }
  }

  /**
   A custom key that filters down to the empty string is falsy, so the link
   gets the generated key instead.
   */
  lemma EmptiedKeyIsGenerated(targetKey: string, generatedKey: string)
    requires forall i :: 0 <= i < |targetKey| ==> !IsKeyChar(targetKey[i])
    ensures ChosenKey(SanitizeTargetKey(Some(targetKey)), generatedKey) == generatedKey
  {
    SanitizeKeyDropsAll(targetKey);
  }

  /**
   The `expiration_days` check: a truthy value below 1 is refused. Zero is
   falsy and passes, so the refusal happens exactly for negative values.
   */
  function RejectsExpirationDays(expirationDays: Option<int>): (r: bool)
    ensures r <==> expirationDays.Some? && expirationDays.value < 0
  {
    expirationDays.Some? && expirationDays.value != 0 && expirationDays.value < 1
  }

  const NotFoundPrefix: string := "URL '"

  /** The 404 detail of `raise_not_found`, which names the requested URL. */
  function NotFoundMessage(requestUrl: string): (m: string)
    ensures |m| == |NotFoundPrefix| + |requestUrl| + |"' doesn't exist"|
    ensures m[|NotFoundPrefix|..|NotFoundPrefix| + |requestUrl|] == requestUrl
  {
    "URL '" + requestUrl + "' doesn't exist"
  }

  /** The confirmation of a delete, which names the link's target URL. */
  function DeletedMessage(targetUrl: string): (m: string)
    ensures |m| == |DeletedPrefix| + |targetUrl| + 2
    ensures m[|DeletedPrefix|..|DeletedPrefix| + |targetUrl|] == targetUrl
  {
    DeletedPrefix + targetUrl + "'!"
  }

  /**
   A link that passes the checks of `create_url` resolves by its key at the
   instant it was created: it is active, and its expiration date, if any,
   is not in the past.
   */
  lemma CreatedLinkResolves(rows: seq<Url>, url: UrlBase, id: nat, generatedKey: string,
                            suffix: string, now: int)
    requires !RejectsExpirationDays(url.expirationDays)
    requires !KeyInUse(rows, ChosenKey(url.targetKey, generatedKey))
    ensures var u := RowToInsert(url, id, generatedKey, suffix, now);
      FirstActive(rows + [u], KeyColumn, u.key) == Some(|rows|) &&
      !Expired(u, now) && u.clicks == 0 && u.targetUrl == url.targetUrl
  {
    var u := RowToInsert(url, id, generatedKey, suffix, now);
    InsertedRowResolves(rows, u);
  }

  /**
   `create_url`: validate the target URL (`isValidUrl` stands for the URL
   validator), filter the custom key, check `expiration_days`, then insert.
   `generatedKey` and `suffix` are what the key generator would produce.
   An expiration date outside the `datetime` range and a custom key already
   in use both raise inside the store; neither error is caught.
   */
  method CreateUrl(store: LinkStore, url: UrlBase, isValidUrl: string -> bool,
                   generatedKey: string, suffix: string, now: int)
    returns (resp: Response)
    requires store.Valid()
    requires !Truthy(SanitizeTargetKey(url.targetKey)) ==> !KeyInUse(store.rows, generatedKey)
    requires |suffix| == SecretSuffixLength
    modifies store
    ensures store.Valid() && Evolves(old(store.rows), store.rows)
    ensures !isValidUrl(url.targetUrl) ==>
      resp == BadRequest(InvalidUrlMessage) && store.rows == old(store.rows)
    ensures isValidUrl(url.targetUrl) && RejectsExpirationDays(url.expirationDays) ==>
      resp == BadRequest(InvalidExpirationMessage) && store.rows == old(store.rows)
    ensures resp.UrlInfo? <==>
      isValidUrl(url.targetUrl) && !RejectsExpirationDays(url.expirationDays) &&
      !ExpirationOverflows(url.expirationDays, now) &&
      !KeyInUse(old(store.rows), ChosenKey(SanitizeTargetKey(url.targetKey), generatedKey))
    ensures (isValidUrl(url.targetUrl) && !RejectsExpirationDays(url.expirationDays) &&
             (ExpirationOverflows(url.expirationDays, now) ||
              KeyInUse(old(store.rows), ChosenKey(SanitizeTargetKey(url.targetKey), generatedKey))))
            ==> resp == InternalError
    ensures !resp.UrlInfo? ==> store.rows == old(store.rows) && store.nextId == old(store.nextId)
    ensures resp.UrlInfo? ==> store.nextId == old(store.nextId) + 1
    ensures resp.UrlInfo? ==>
      var key := ChosenKey(SanitizeTargetKey(url.targetKey), generatedKey);
      store.rows == old(store.rows) + [resp.row] &&
      resp.row == NewUrl(old(store.nextId), key, SecretFor(key, suffix), url.targetUrl,
                         ExpirationDate(url.expirationDays, now))
  {
    if !isValidUrl(url.targetUrl) {
      return BadRequest(InvalidUrlMessage);
    }
    var request := url.(targetKey := SanitizeTargetKey(url.targetKey));
    if RejectsExpirationDays(request.expirationDays) {
      return BadRequest(InvalidExpirationMessage);
    }
    var created := store.CreateDbUrl(request, generatedKey, suffix, now);
    match created
    case Created(i) =>
      resp := UrlInfo(store.rows[i]);
    case DateOverflow =>
      resp := InternalError;
    case IntegrityError =>
      resp := InternalError;
  }

  /**
   `forward_to_target_url`: a key that resolves gets exactly one click and a
   301 to its target; otherwise 404, and no click is recorded (the lookup may
   still deactivate an expired row).
   */
  method ForwardToTargetUrl(store: LinkStore, urlKey: string, requestUrl: string, now: int)
    returns (resp: Response)
    requires store.Valid()
    modifies store
    ensures store.Valid() && Evolves(old(store.rows), store.rows)
    ensures store.nextId == old(store.nextId)
    ensures resp.RedirectTo? || resp == NotFound(NotFoundMessage(requestUrl))
    ensures match FirstActive(old(store.rows), KeyColumn, urlKey)
      case None =>
        resp.NotFound? && store.rows == old(store.rows)
      case Some(i) =>
        if Expired(old(store.rows)[i], now) then
          resp.NotFound? && store.rows == WithDeactivated(old(store.rows), i)
        else
          resp == RedirectTo(old(store.rows)[i].targetUrl, 301) &&
          store.rows == WithClick(old(store.rows), i)
  {
    var found := store.GetDbUrlByKey(urlKey, now);
    match found
    case Some(i) =>
      store.UpdateDbClicks(i);
      resp := RedirectTo(store.rows[i].targetUrl, 301);
    case None =>
      resp := NotFound(NotFoundMessage(requestUrl));
  }

  /**
   `get_url_info`: the active row with this secret key, read without any
   write and without an expiration check; 404 when there is none.
   */
  method GetUrlInfo(store: LinkStore, secretKey: string, requestUrl: string)
    returns (resp: Response)
    requires store.Valid()
    ensures resp.UrlInfo? || resp == NotFound(NotFoundMessage(requestUrl))
    ensures resp.UrlInfo? ==>
      resp.row in store.rows && resp.row.isActive && resp.row.secretKey == secretKey
    ensures resp.NotFound? <==>
      forall j :: 0 <= j < |store.rows| ==> !ActiveMatch(store.rows[j], SecretKeyColumn, secretKey)
  {
    var found := store.GetDbUrlBySecretKey(secretKey);
    match found
    case Some(i) =>
      resp := UrlInfo(store.rows[i]);
    case None =>
      resp := NotFound(NotFoundMessage(requestUrl));
  }

  /**
   `delete_url`: deactivate the active row with this secret key and confirm
   with its target URL; 404 when there is none. Afterwards the link resolves
   neither by key nor by secret key.
   */
  method DeleteUrl(store: LinkStore, secretKey: string, requestUrl: string)
    returns (resp: Response)
    requires store.Valid()
    modifies store
    ensures store.Valid() && Evolves(old(store.rows), store.rows)
    ensures store.nextId == old(store.nextId)
    ensures match FirstActive(old(store.rows), SecretKeyColumn, secretKey)
      case None =>
        resp == NotFound(NotFoundMessage(requestUrl)) && store.rows == old(store.rows)
      case Some(i) =>
        resp == Detail(DeletedMessage(old(store.rows)[i].targetUrl)) &&
        store.rows == WithDeactivated(old(store.rows), i) &&
        FirstActive(store.rows, KeyColumn, old(store.rows)[i].key) == None &&
        FirstActive(store.rows, SecretKeyColumn, secretKey) == None
  {
    var found := store.DeactivateDbUrlBySecretKey(secretKey);
    match found
    case Some(i) =>
      resp := Detail(DeletedMessage(store.rows[i].targetUrl));
    case None =>
      resp := NotFound(NotFoundMessage(requestUrl));
  }
}
