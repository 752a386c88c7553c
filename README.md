# Container health-grade report: a Dafny model

The program asks the Red Hat container catalog two kinds of question.

1. It fetches the repositories of one product listing, each with its supported content-stream tags.
2. It fetches the health grades of every image in each of those repositories.

It keeps only the grade records whose tag is a supported content stream. It stamps each kept record with its repository name and that repository's tag list, and logs it. It stops with an exception when:

- the listing carries no repositories;
- a grades request fails;
- a grades request returns no grades.

Two helper files build request URLs and count the days to a grade's next drop date. `util.py` and `util/util.py` define the same two helpers, `construct_url` and `calculate_days_remaining`. Each file has its own Dafny module here, and both modules rest on the same URL and date definitions.

Layout:

- `wrappers.dfy`: module `Wrappers`, with `Option` and `Result`.
- `url_join.dfy`: module `UrlJoin`, covering what `construct_url` does.
  - `urljoin` of a relative path against a slash-terminated base, with the path merge of section 5.2.3 of RFC 3986.
  - It is modelled on bases and endpoints that have no empty segments, no dot segments, no query and no fragment.
- `dates.dfy`: module `Dates`, covering what `calculate_days_remaining` computes.
  - The proleptic Gregorian day numbering of Python's `date.toordinal`.
  - The `YYYY-MM-DD` prefix that `datetime.fromisoformat` reads.
  - The signed day difference to a given "today".
- `util.dfy`: module `Util`, for `util.py`.
- `util_package.dfy`: module `UtilPackage`, for `util/util.py`.
- `catalog.dfy`: module `Catalog`, for `main.py`.
  - The two request URLs.
  - `filter_content_stream_grades`.
  - The repository loop of `main()`, as the method `RunListing`.
    - `RunListing` is proved against the recursive specification `Process` / `MainOutcome`.
    - The two HTTP fetches become inputs: the listing's `data` (`None` when the key is missing), and a map from repository name to the grades response.
    - A repository absent from the map stands for a grades request whose status check raised.
    - The result is the sequence of logged records together with the exception that ended the run, if any. Records of earlier repositories are logged before a later repository fails.

## Model

| member | source | states |
|---|---|---|
| Catalog.RepositoriesUrl | main.py:25-26 | the listing request goes to the server URL, one `/`, then `product-listings/id/<id>/repositories` |
| Catalog.GradesUrl | main.py:53-54 | the grades request goes to the server URL, one `/`, then `repositories/registry/registry.access.redhat.com/repository/<name>/grades` |
| Catalog.ServerUrlIsSimple | main.py:10 | the catalog server URL is an https base without a trailing slash, inside the modelled `urljoin` domain |
| Catalog.FilterContentStreamGrades | main.py:72-82 | the result is no longer than the input, and holds only input records whose tag is supported |
| Catalog.FilterKeepsExactlySupported | main.py:80 | a record is in the result if and only if it is in the input and its tag is in the tag list |
| Catalog.FilterCounts | main.py:80 | each supported record is kept as many times as it occurs, each unsupported one zero times |
| Catalog.FilterIsSubsequence | main.py:80 | the kept records keep their input order |
| Catalog.FilterDependsOnTagSet | main.py:77 | two tag lists with the same members give the same result, since lookup goes through `set(content_stream_tags)` |
| Catalog.FilterIdempotent | main.py:72-82 | filtering a filtered list again changes nothing |
| Catalog.SupportedRecordsExactly | main.py:107-111 | a record is among one repository's records if and only if it is one of that repository's grades with a supported tag, stamped with the repository name and its full tag list |
| Catalog.Process | main.py:99-115 | the repository loop: any exception it ends with names a listed repository, as a failed or an empty grades request; every record it emits has its tag in its own stamped tag list |
| Catalog.MainOutcome | main.py:94-119 | `main()`: the listing error is raised exactly when `data` is missing or empty, and then nothing is logged; otherwise the repository loop decides the outcome |
| Catalog.RunListing | main.py:86-119 | the loop's logged records and final exception are exactly `MainOutcome` of the two responses |
| Catalog.ProcessSucceeds | main.py:99-115 | the loop finishes without an exception if and only if every repository's grades were fetched and non-empty; it then logs all repositories' records in listing order |
| Catalog.ProcessStopsAtFirstFailure | main.py:103-115 | the first failed or empty grades response ends the run with that repository's error; exactly the earlier repositories' records were logged |
| Catalog.EmittedProvenance | main.py:107-112 | every logged record is a supported grade of a listed repository, stamped with that repository's name and tag list |
| Catalog.EmittedComplete | main.py:107-112 | every supported grade of a repository reached without failure is logged with its stamp |
| Catalog.EmittedInListingOrder | main.py:99-112 | the records of the first k repositories come before those of the rest |
| Catalog.EmittedByAppend | main.py:99-112 | the records of two lists of repositories run one after the other are the first list's records followed by the second's |
| Util.ConstructUrl | util.py:10-21 | the server URL unchanged, plus `/` exactly when it did not end with one, then the endpoint; no empty path segment after the scheme |
| Util.CalculateDaysRemaining | util.py:24-36 | fails exactly when the string does not parse; otherwise returns the day-number difference, zero exactly on today and negative exactly for earlier dates |
| UtilPackage.ConstructUrl | util/util.py:8-19 | the same as `Util.ConstructUrl`, for the package copy |
| UtilPackage.CalculateDaysRemaining | util/util.py:22-34 | the same as `Util.CalculateDaysRemaining`, for the package copy |
| UrlJoin.EnsureTrailingSlash | util.py:14-16 | the result ends with `/`; it is the input when that already ends with `/`, and the input plus `/` otherwise |
| UrlJoin.Merge | util/util.py:17 | the RFC 3986 merge: the reference replaces everything after the base path's last `/`; a slash-terminated base path is simply extended |
| UrlJoin.ConstructUrl | util.py:14-19 | `urljoin` of the endpoint with the slash-terminated server URL equals that slash-terminated URL followed by the endpoint |
| UrlJoin.ConstructUrlIdempotent | util/util.py:12-17 | adding the trailing slash beforehand changes neither the domain nor the result |
| UrlJoin.ConstructUrlSeam | util.py:14-19 | the result starts with the server URL, keeps its scheme, and has no `//` after the scheme |
| Dates.DaysInMonth | util.py:33 | every month has 28 to 31 days, and 29 occurs exactly for February of a leap year |
| Dates.NextDay | util.py:35 | the successor of a valid date is valid and later |
| Dates.NextDayNumber | util.py:35 | the next day's number is one more, across month ends, year ends and 29 February |
| Dates.AddDaysNumber | util/util.py:33 | moving a date k days moves its number by exactly k |
| Dates.DayNumberOrder | util/util.py:33 | day numbers order dates as the calendar does, and two dates share a number only when they are equal |
| Dates.FormatIsoDate | util.py:33 | writing a date yields the 10-character `YYYY-MM-DD` layout |
| Dates.FormatReadsBack | util.py:33 | writing a date and reading it back gives the date |
| Dates.FormatDatePrefix | util/util.py:31 | reading a `YYYY-MM-DD` prefix and writing it back gives the prefix |
| Dates.ParseIsoDate | util.py:33 | a success is a valid date of at most year 9999 whose text is the first ten characters, followed by nothing or an accepted suffix; a failure is the `ValueError` of that string |
| Dates.ParseIsoDateExactly | util/util.py:31 | a string parses to d if and only if it is d's text followed by nothing or an accepted suffix |
| Dates.ParseFormatted | util.py:33 | a valid date's text plus an accepted suffix parses back to that date |
| Dates.DaysRemaining | util/util.py:31-33 | succeeds exactly when the parse does, failing with the string's own error otherwise; the value is the parsed date's number minus today's, zero if and only if the date is today, negative if and only if it is earlier, positive if and only if it is later |
| Dates.DaysRemainingDateOnly | util.py:33 | strings with the same first ten characters and accepted suffixes give the same count: time of day and offset are dropped |
| Dates.DaysRemainingShift | util/util.py:31-33 | moving the written date k days later raises the count by exactly k |

## Left out

- HTTP requests, response status checks, JSON parsing and logging are not modelled. The listing's `data` and each repository's grades response are inputs of `RunListing`. A repository missing from the grades map stands for a request whose `raise_for_status` raised.
- A failure of the listing request itself is not modelled, and neither is a listing response that is not a JSON object. Both raise at or before `main.py:94`: the request at `main.py:36-40`, and `.get("data")` on a non-object at `main.py:94` itself.
- The query parameters (`include`, `page_size`, `page`) and the single fetched page of 100 repositories are not modelled.
- Catalog.RunListing: the grades request is a map lookup, so two listing entries with the same repository name get the same response. The real service could answer the two requests differently.
- Catalog.RunListing: the loop stamps the grade dictionaries in place (`main.py:110-111`). The model builds new `AnnotatedGrade` values instead. Aliasing of those dictionaries plays no part in what is logged.
- Catalog.FilterContentStreamGrades: a grade record without a `tag` key (a `KeyError`) is not modelled. Neither is a listing entry without `repository` or `content_stream_tags` (a `None` name, or a `TypeError` from `set(None)`).
- `data` values that are not lists are not modelled. `MainOutcome` treats a missing key and an empty list as the only falsy values.
- Catalog.RepositoriesUrl and Catalog.GradesUrl: the listing id and the repository name must be `PathPiece`s. That means non-empty, no leading or trailing `/`, no `//`, no dot segment, printable ASCII only (no space, no DEL, no control and no non-ASCII character), and none of `?#;[]:`. Names outside that set are not modelled.
- UrlJoin.ConstructUrl: modelled only for bases whose scheme is written in lower case as `http://` or `https://` (Python lower-cases an upper-case scheme such as `HTTPS://`, so the result is then not the base followed by the endpoint), with no empty or dot segments, query or fragment; and for endpoints of the same kind that do not start with `/`. Both must be printable ASCII only (no space, no DEL, no control and no non-ASCII character) and avoid `?#;[]`, and endpoints also `:`. General `urljoin` is not modelled: absolute references, `..` removal, scheme-relative and query references, parameters.
- Util.ConstructUrl: the same domain restriction as `UrlJoin.ConstructUrl`: a lower-case `http://` or `https://` scheme, an endpoint that does not start with `/`, printable ASCII without empty or dot segments, query or fragment.
- UtilPackage.ConstructUrl: the same domain restriction as `UrlJoin.ConstructUrl`: a lower-case `http://` or `https://` scheme, an endpoint that does not start with `/`, printable ASCII without empty or dot segments, query or fragment.
- Dates.ParseIsoDate: the grammar `datetime.fromisoformat` applies after the date (time of day, fractions, UTC offset) is the parameter `timeAccepted`. The model reads only the extended `YYYY-MM-DD` date form. The basic `YYYYMMDD` and ISO week forms that newer Python versions also accept are rejected.
- Util.CalculateDaysRemaining: `datetime.today()` is the parameter `today`, taken as a valid date. The local-time reading of the clock is not modelled.
- UtilPackage.CalculateDaysRemaining: the same clock and grammar parameters as `Util.CalculateDaysRemaining`.
- `render_template` in `util/util.py`, the mailer and the logger setup are not part of this model.
