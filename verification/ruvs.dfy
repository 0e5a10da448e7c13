/** RUV extraction: the search for the replication tombstone and the reading of its
    `nsds50ruv` values into an ordered list of record strings. */
module Ruvs {
  import opened Wrappers

  /** The multi-valued attribute holding one RUV record per value. */
  const RuvAttribute := "nsds50ruv"

  /** One search entry as the directory client hands it over: its DN and its attributes,
      each a sequence of values in server order. */
  datatype Entry = Entry(dn: string, attrs: map<string, seq<string>>)

  /** The collected search output: one element per non-empty result message, each the
      entries that message carried. */
  type SearchResult = seq<seq<Entry>>

  /** Why the record list could not be read; in the program each is an uncaught exception
      (`IndexError` / `KeyError`) that ends the process. */
  datatype ExtractError = FirstMessageEmpty | RuvAttributeMissing

  /** The RUV records of a search: none when nothing matched, otherwise every value of the
      RUV attribute of the first entry of the first message, in server order. */
  function GetRuvs(results: SearchResult): (r: Result<seq<string>, ExtractError>)
    ensures |results| == 0 ==> r == Ok([])
    ensures r.Ok? && |results| > 0 ==>
              |results[0]| > 0 && RuvAttribute in results[0][0].attrs
              && r.value == results[0][0].attrs[RuvAttribute]
    ensures r.Err? <==> |results| > 0 && (|results[0]| == 0 || RuvAttribute !in results[0][0].attrs)
    ensures r == Err(FirstMessageEmpty) <==> |results| > 0 && |results[0]| == 0
  {
    if |results| == 0 then Ok([])
    else if |results[0]| == 0 then Err(FirstMessageEmpty)
    else if RuvAttribute !in results[0][0].attrs then Err(RuvAttributeMissing)
    else Ok(results[0][0].attrs[RuvAttribute])
  }

  /** Only the first entry is read: two searches whose first entries coincide give the same
      records, whatever else they returned. */
  lemma OnlyFirstEntryRead(a: SearchResult, b: SearchResult)
    requires |a| > 0 && |b| > 0 && |a[0]| > 0 && |b[0]| > 0
    requires a[0][0] == b[0][0]
    ensures GetRuvs(a) == GetRuvs(b)
    ensures GetRuvs(a) == GetRuvs([[a[0][0]]])
  {
  }
}
