/**
  Locating a server from its IP address with two offline IP2Location
  databases, one for IPv4 and one for IPv6. The databases and the address
  classifier are foreign code reading binary files, so they are given as
  functions the caller supplies; only the choice between them is modelled.
*/
module Geolocation {

  /** The part of an IP2Location record the analysis reads: the short country code. */
  datatype GeoRecord = GeoRecord(countryShort: string)

  /** The address classifier (`is_ipv4`) and the two databases (`get_all`). */
  datatype Databases = Databases(
    isIpv4: string -> bool,
    ipv4Base: string -> GeoRecord,
    ipv6Base: string -> GeoRecord)

  /**
    The record for an address: the IPv4 base answers when the classifier says
    IPv4, the IPv6 base answers otherwise (etapes_preliminaires.py lines 32-35,
    analyse_fichier_HAR.py lines 163-166).
  */
  function Lookup(dbs: Databases, ip: string): (rec: GeoRecord)
    ensures dbs.isIpv4(ip) ==> rec == dbs.ipv4Base(ip)
    ensures !dbs.isIpv4(ip) ==> rec == dbs.ipv6Base(ip)
  {
    if dbs.isIpv4(ip) then dbs.ipv4Base(ip) else dbs.ipv6Base(ip)
  }

  /** The short country code of the server at `ip` (etapes_preliminaires.py line 43, analyse_fichier_HAR.py line 167). */
  function CountryCode(dbs: Databases, ip: string): (code: string)
    ensures dbs.isIpv4(ip) ==> code == dbs.ipv4Base(ip).countryShort
    ensures !dbs.isIpv4(ip) ==> code == dbs.ipv6Base(ip).countryShort
  {
    Lookup(dbs, ip).countryShort
  }

  /**
    Exactly one base is consulted: two configurations that classify the
    address alike and whose chosen base agrees on it give the same record,
    whatever the other base holds.
  */
  lemma LookupConsultsOneBase(dbs: Databases, other: Databases, ip: string)
    requires dbs.isIpv4(ip) == other.isIpv4(ip)
    requires dbs.isIpv4(ip) ==> dbs.ipv4Base(ip) == other.ipv4Base(ip)
    requires !dbs.isIpv4(ip) ==> dbs.ipv6Base(ip) == other.ipv6Base(ip)
    ensures Lookup(dbs, ip) == Lookup(other, ip)
    ensures CountryCode(dbs, ip) == CountryCode(other, ip)
  {
  }
}
