# HAR capture analysis — a verified model

This project models the logic of a teaching script that reads a browser's
HTTP Archive (HAR) capture, turns every recorded network exchange into a flat
record, and summarises the records in bar charts.

The model covers five pieces:

- **Hostname splitting** (`Hostname`). `Split` is Python's `str.split('.')`.
  The top-level domain (tld) is the last label. The second-level domain is
  the last two labels joined by a dot. A hostname with a single label makes
  `split('.')[-2]` raise `IndexError`, so `SecondLevelDomain` requires a dot.
  No public-suffix list is consulted: `www.sydney.edu.au` gives `edu.au`.
- **Geolocation dispatch** (`Geolocation`). The address classifier and the
  IPv4 and IPv6 IP2Location databases are foreign code. They are given as
  functions in a `Databases` value. Only the choice between them is modelled.
- **Record building** (`Har`). `AnalyseEntry` is `analyse_entry` of the
  finished script. `HandoutAnalyseEntry` is the exercise handout's version,
  which still returns the initial values. An entry without a server address
  gives `Blocked` (Python's `None`). In the finished script, a dotless host
  gives `IndexError`, the exception nothing catches.
- **The collection loop** (`Collection`). `CollectRecords` appends each
  record that is not `None`, as both scripts do. An uncaught exception stops
  the script at that entry (`Aborted`). `RowsOf` is an independent filter,
  and the lemmas tie the loop to it.
- **The report** (`Report`). A group-by with a sum or a count, an ascending
  sort, the `tail(15)` of the domain charts, and the distinct-domain count.
  These work over a `seq<Record>`.

A malformed entry, one without a server address, is dropped from the
records: `analyse_entry` returns `None` and the loop skips it. No record with
an absent or erroneous country is built for it. The model follows the code.

The aggregation code of `version_sujet/analyse_fichier_HAR.py` (lines 40-79)
is identical to that of `analyse_fichier_HAR.py` (lines 41-80), and so is its
collection loop. One model serves both, and the table cites the finished
script. Both files define `plot_vol_recv_per_country` twice with the same
body. The later definition wins, and it is the one `CountryReport` models
with `ResponseSize`.

## Model

| member | source | states |
|---|---|---|
| `Hostname.Split` | analyse_fichier_HAR.py:154 | `split('.')` yields at least one label, and no label contains a dot |
| `Hostname.JoinSplit` | analyse_fichier_HAR.py:154 | joining the labels of a hostname with dots gives the hostname back |
| `Hostname.SplitJoin` | etapes_preliminaires.py:14 | splitting dot-free labels joined with dots gives the same labels back |
| `Hostname.TwoLabelsIffDot` | analyse_fichier_HAR.py:156 | a hostname has a second-to-last label exactly when it contains a dot, so `[-2]` fails exactly on dotless hosts |
| `Hostname.Tld` | analyse_fichier_HAR.py:154 | the tld has no dot, is a suffix of the hostname, and is the whole hostname or follows a dot |
| `Hostname.TldUnique` | etapes_preliminaires.py:14 | those three properties determine the tld: it is the longest dot-free suffix |
| `Hostname.SecondLevelDomain` | analyse_fichier_HAR.py:156 | given a dot, the domain is a suffix of the hostname, ends with "." + tld, has no other dot, and is the whole hostname or follows a dot |
| `Hostname.SecondLevelDomainIsSuffix` | etapes_preliminaires.py:16 | the domain is the second-to-last label, a dot and the tld, and is a suffix of the hostname |
| `Hostname.ElyseeExample` | etapes_preliminaires.py:13 | `www.elysee.fr` gives tld `fr` and domain `elysee.fr` |
| `Hostname.SydneyExample` | etapes_preliminaires.py:7-16 | `www.sydney.edu.au` gives tld `au` and domain `edu.au`, the last two labels |
| `Geolocation.Lookup` | etapes_preliminaires.py:32-35 | the IPv4 base answers when the address is IPv4, the IPv6 base otherwise |
| `Geolocation.CountryCode` | analyse_fichier_HAR.py:163-167 | the country is the short code of the record from the base the address family selects |
| `Geolocation.LookupConsultsOneBase` | etapes_preliminaires.py:31-43 | only one base is consulted: the other base's contents never change the record or the country |
| `Har.AnalyseEntry` | analyse_fichier_HAR.py:139-171 | `None` exactly when the server address is missing; `IndexError` exactly when a dotless host is reached; otherwise the six fields in order, with the host, its tld and domain (well formed), both sizes copied unchanged, and the looked-up country |
| `Har.HandoutAnalyseEntry` | version_sujet/analyse_fichier_HAR.py:192-213 | `None` exactly for a blocked entry; otherwise the record `["", "", "", 0, 0, ""]`; never raises |
| `Collection.RowsOf` | analyse_fichier_HAR.py:183-184 | the order-preserving filter of the records has at most one record per entry |
| `Collection.CollectRecords` | analyse_fichier_HAR.py:179-184 | the loop's result is the step-by-step collection of the entries, including stopping at the entry that raises |
| `Collection.CollectedIsRowsOf` | version_sujet/analyse_fichier_HAR.py:223-229 | when no entry raises, the loop completes with exactly the non-`None` records in entry order |
| `Collection.AbortedAtFirstError` | analyse_fichier_HAR.py:180-184 | the script stops at entry i exactly when entry i raises and no earlier entry does |
| `Collection.CollectedAbortedPrefix` | analyse_fichier_HAR.py:180-181 | once an entry has raised, the later entries change nothing |
| `Collection.CollectedIsNotCompleted` | analyse_fichier_HAR.py:181 | any entry that raises keeps the loop from completing |
| `Collection.RowsOfAppend` | analyse_fichier_HAR.py:183-184 | collecting two runs of entries gives the records of the first run followed by those of the second |
| `Collection.RowsOfSplitAt` | analyse_fichier_HAR.py:183-184 | each kept record sits between the records of the earlier entries and those of the later ones |
| `Collection.RowsOfFromEntries` | analyse_fichier_HAR.py:181-184 | every collected record is the analysis of some entry |
| `Collection.FinishedScriptCollects` | analyse_fichier_HAR.py:150-184 | when every entry with a server address has a dotted host, the loop completes and every record is well formed |
| `Collection.RowsWellFormed` | analyse_fichier_HAR.py:154-156 | every record the finished analysis yields has a dot-free tld ending its domain, and a domain ending its hostname |
| `Collection.HandoutCollects` | version_sujet/analyse_fichier_HAR.py:223-229 | the handout's loop completes with one default record per entry that has a server address |
| `Report.TotalCount` | analyse_fichier_HAR.py:74 | counting rows over a list of records gives its length |
| `Report.Where` | analyse_fichier_HAR.py:49 | a group holds exactly the records whose column has its key, each as many times as it occurs in the list, and no others |
| `Report.CountIsRows` | analyse_fichier_HAR.py:79 | a count group's value is the number of records with its key |
| `Report.UniqueKeys` | analyse_fichier_HAR.py:42 | `pd.unique` yields each key of the column once, and only keys that occur |
| `Report.DistinctDomainCount` | analyse_fichier_HAR.py:42 | the reported number of domains is the size of the set of domain values, and at most the number of records |
| `Report.GroupsOfMembers` | analyse_fichier_HAR.py:49 | a group is listed exactly when its key is one of the keys and its value is the measure over that key's records; keys without repeats give groups with distinct keys |
| `Report.GroupBy` | analyse_fichier_HAR.py:49 | one group per distinct key; a group is listed exactly when its key occurs and its value is the measure over that key's records |
| `Report.GroupsOfPartition` | analyse_fichier_HAR.py:49 | over keys that cover every record without repeats, the group values add up to the total |
| `Report.GroupByPartition` | analyse_fichier_HAR.py:49-54 | the group sums add up to the total size, and the group counts to the number of records |
| `Report.Insert` | analyse_fichier_HAR.py:49 | inserting into a sorted list keeps it sorted and adds exactly one group |
| `Report.SortAscending` | analyse_fichier_HAR.py:54 | `sort_values(ascending=True)` gives a sorted permutation of the groups |
| `Report.SortSum` | analyse_fichier_HAR.py:74 | sorting keeps the sum of the values |
| `Report.SortDistinct` | analyse_fichier_HAR.py:69 | sorting keeps the keys distinct |
| `Report.Tail` | analyse_fichier_HAR.py:59 | `tail(n)` has min(n, length) groups, the last ones |
| `Report.CountryReport` | analyse_fichier_HAR.py:47-75 | a country chart has one group per distinct country with that country's sum or count, in ascending order, and its values add up to the total |
| `Report.DomainReport` | analyse_fichier_HAR.py:57-80 | a domain chart has min(15, number of domains) distinct genuine domain groups, in ascending order |
| `Report.DomainReportKeepsLargest` | analyse_fichier_HAR.py:64 | every domain group left out of the chart is no larger than any group kept |
| `Report.TailKeepsLargest` | analyse_fichier_HAR.py:59 | the tail of a sorted permutation dominates every group outside it |
| `Report.CountryCountsAddUp` | version_sujet/analyse_fichier_HAR.py:71-94 | the per-country exchange counts, the total the percentage labels divide by, add up to the number of records |
| `Report.SingleCountryReport` | analyse_fichier_HAR.py:72-75 | when all records share one country, its chart is a single bar holding the whole measure |

## Left out

- Opening the capture file and parsing it with haralyzer and `json.loads`: file I/O and a foreign library. The entries are an input sequence.
- The IP2Location databases and `is_ipv4`: foreign calls on binary files. They are functions in `Databases`, supplied by the caller.
- Latitude and longitude, the kilobyte division `div(1000)`, and the percentage strings: floating point. Sizes stay whole bytes.
- The matplotlib code (`plot_data`, `plot_subplot`, titles, axes) and every `print`: presentation only.
- The numpy and pandas construction of the dataframe and `astype('int64')`: a library representation, replaced by `seq<Record>`. The sums are unbounded integers, so a 64-bit overflow is not modelled.
- DistinctDomainCount, CountryReport, DomainReport: an empty record list, from a capture with no entries or with every entry blocked, is not treated as an error. In `analyse_fichier_HAR.py` (lines 33-34) and `version_sujet/analyse_fichier_HAR.py` (lines 32-33), `np.array([])` is one-dimensional, so building the six-column `pd.DataFrame` raises `ValueError` and no count or chart is produced. The model returns a count of 0 and empty charts instead.
- The order of groups with equal values after `sort_values`: pandas does not promise a stable sort. Only sortedness, permutation and threshold facts are stated. The same holds for the key order that `groupby` produces before the sort.
- `version_sujet/etapes_preliminaires.py` is not part of this model: its functions are empty stubs and the rest is script I/O.
- The loop over entry attributes in `etapes_preliminaires.py` (lines 56-67): it only prints.
- Which address family the test address `2606:4700::6812:1ef8` belongs to is decided by the foreign classifier, so no lemma fixes its country.
