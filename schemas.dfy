/** The request body of a create call: a target URL and two optional settings. */
module Schemas {
  import opened Models

  datatype UrlBase = UrlBase(
    targetUrl: string,
    targetKey: Option<string>,
    expirationDays: Option<int>)

  /** Python truthiness of an optional string: present and non-empty. */
  predicate Truthy(s: Option<string>)
  {
    s.Some? && s.value != ""
  }
}
