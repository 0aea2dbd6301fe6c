/**
  Turning one captured network exchange (an entry of the HTTP Archive) into
  a flat six-field record, in the finished script (analyse_fichier_HAR.py)
  and in the exercise handout (version_sujet/analyse_fichier_HAR.py).
*/
module Har {
  import opened Wrappers
  import opened Hostname
  import opened Geolocation

  /**
    The attributes of a capture entry the analysis reads. `serverAddress` is
    absent for an exchange the browser blocked. Body sizes are HAR integers
    (-1 when unknown), so they may be negative.
  */
  datatype Entry = Entry(
    serverAddress: Option<string>,
    host: string,
    requestBodySize: int,
    responseBodySize: int)

  /** One row of the report, fields in the order hostname, tld, domain, requestSize, responseSize, country. */
  datatype Record = Record(
    hostname: string,
    tld: string,
    domain: string,
    requestSize: int,
    responseSize: int,
    country: string)

  /**
    What analysing an entry gives: `Blocked` is the `None` returned for an
    entry without a server address, `Row` the record, and `IndexError` the
    exception Python raises on a hostname with a single label, which nothing
    catches.
  */
  datatype Analysis = Blocked | Row(record: Record) | IndexError

  /** The record of the handout, whose fields are still the initial values. */
  const DefaultRecord := Record("", "", "", 0, 0, "")

  /** The names of a record agree with each other: a dot-free tld closing a domain that closes the hostname. */
  predicate WellFormed(r: Record) {
    '.' !in r.tld && IsSuffix("." + r.tld, r.domain) && IsSuffix(r.domain, r.hostname)
  }

  /**
    `analyse_entry` of the finished script (analyse_fichier_HAR.py lines
    119-171): no server address gives `None`; otherwise the host is split,
    the sizes are copied, and the country comes from the database the
    address family selects.
  */
  function AnalyseEntry(dbs: Databases, e: Entry): (a: Analysis)
    ensures a.Blocked? <==> e.serverAddress.None?
    ensures a.IndexError? <==> e.serverAddress.Some? && '.' !in e.host
    ensures a.Row? ==>
      && a.record.hostname == e.host
      && a.record.tld == Tld(e.host)
      && a.record.domain == SecondLevelDomain(e.host)
      && WellFormed(a.record)
      && a.record.requestSize == e.requestBodySize
      && a.record.responseSize == e.responseBodySize
      && a.record.country == CountryCode(dbs, e.serverAddress.value)
  {
    match e.serverAddress
    case None => Blocked
    case Some(ip) =>
      if '.' !in e.host then IndexError
      else
        var tld := Tld(e.host);
        var domain := SecondLevelDomain(e.host);
        Row(Record(e.host, tld, domain, e.requestBodySize, e.responseBodySize, CountryCode(dbs, ip)))
  }

  /**
    `analyse_entry` of the handout (version_sujet/analyse_fichier_HAR.py
    lines 181-213): `None` for a blocked entry, the record of initial values
    for every other entry. It never raises.
  */
  function HandoutAnalyseEntry(e: Entry): (a: Analysis)
    ensures a.Blocked? <==> e.serverAddress.None?
    ensures a.Row? <==> e.serverAddress.Some?
    ensures a.Row? ==> a.record == DefaultRecord
  {
    if e.serverAddress.None? then Blocked else Row(DefaultRecord)
  }
}
