/**
 * One entry of the catalog's `dataset` list, as both scripts read it. Every key the
 * scripts look up with a default is optional here; keys they never read are left out.
 */
module Catalog {
  import opened Wrappers

  /** The entry's `contactPoint` object. */
  datatype ContactPoint = ContactPoint(fn: Option<string>, hasEmail: Option<string>)

  datatype Dataset = Dataset(
    title: Option<string>,
    keyword: Option<seq<string>>,
    description: Option<string>,
    contactPoint: Option<ContactPoint>,
    landingPage: Option<string>,
    describedBy: Option<string>,
    references: Option<seq<string>>,
    identifier: Option<string>)
}
