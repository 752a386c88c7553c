/** The URL and date helpers of util.py. */
module Util {
  import opened Wrappers
  import UrlJoin
  import Dates

  /** `construct_url(server_url, endpoint)`: the server URL, a `/` if it
      did not end with one, then the endpoint; no empty path segment. */
  function ConstructUrl(serverUrl: string, endpoint: string): (url: string)
    requires UrlJoin.SimpleBase(serverUrl) && UrlJoin.SimpleEndpoint(endpoint)
    ensures UrlJoin.EndsWithSlash(serverUrl) ==> url == serverUrl + endpoint
    ensures !UrlJoin.EndsWithSlash(serverUrl) ==> url == serverUrl + "/" + endpoint
    ensures UrlJoin.NoDoubleSlash(url[UrlJoin.SchemeLength(serverUrl)..])
  {
    UrlJoin.ConstructUrlSeam(serverUrl, endpoint);
    UrlJoin.ConstructUrl(serverUrl, endpoint)
  }

  /** `calculate_days_remaining(next_drop_date_str)` on the given today:
      a malformed string is an error; otherwise the signed number of days
      from today to the string's date, zero exactly on today. */
  function CalculateDaysRemaining(nextDropDateStr: string, today: Dates.Date, timeAccepted: string -> bool)
    : (r: Result<int, Dates.DateError>)
    requires Dates.ValidDate(today)
    ensures r.Failure? <==> Dates.ParseIsoDate(nextDropDateStr, timeAccepted).Failure?
    ensures r.Success? ==>
      var d := Dates.ParseIsoDate(nextDropDateStr, timeAccepted).value;
      && r.value == Dates.DayNumber(d) - Dates.DayNumber(today)
      && (r.value == 0 <==> d == today)
      && (r.value < 0 <==> Dates.Before(d, today))
  {
    Dates.DaysRemaining(nextDropDateStr, today, timeAccepted)
  }
}
