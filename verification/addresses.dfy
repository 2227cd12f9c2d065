/**
 The address record shared by the importers and the deduplicator: a
 coordinate (kept opaque, as a real) and seven optional text fields.
 */
module Addresses {
  import opened Wrappers

  datatype Address = Address(
    lat: real,
    lon: real,
    number: Option<string>,
    street: Option<string>,
    unit: Option<string>,
    city: Option<string>,
    district: Option<string>,
    region: Option<string>,
    postcode: Option<string>)
}
