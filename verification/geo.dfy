/** The country lookup, reduced to an abstract function from an address to
    what the GeoIP reader answers. */
module Geo {
  import opened Optional

  /** What `reader.country(ip)` does for one address: raise (unmapped or
      malformed address, closed reader, any other fault), or return a record
      whose ISO code may be missing. */
  datatype LookupOutcome = Raised | Record(isoCode: Option<string>)

  /** The reader's query, as a total function of the address text. */
  type Lookup = string -> LookupOutcome

  /** The sentinel for "no country". */
  const Unknown: string := "XX"

  /** The reader answered with a usable, non-empty ISO code. */
  predicate HasCode(o: LookupOutcome) {
    o.Record? && o.isoCode.Some? && |o.isoCode.value| > 0
  }

  /** `get_country_code`: the record's ISO code when it is present and
      non-empty, and `XX` in every other case; it never fails. */
  function CountryCode(lookup: Lookup, ip: string): (cc: string)
    ensures |cc| > 0
    ensures HasCode(lookup(ip)) ==> cc == lookup(ip).isoCode.value
    ensures !HasCode(lookup(ip)) ==> cc == Unknown
  {
    match lookup(ip)
    case Record(Some(code)) => if |code| > 0 then code else Unknown
    case _ => Unknown
  }
}
