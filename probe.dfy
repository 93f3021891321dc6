/** The health check of main.py (`check_health`), reduced to how it classifies an outcome. */
module Probe {

  /** `ResponseCode` of main.py:15-17. */
  datatype ResponseCode = UP | DOWN

  /**
   What the single request of main.py:34 produced: a response with an HTTP
   status, a `requests.exceptions.Timeout`, or any other `requests.RequestException`.
   */
  datatype Outcome = Status(code: int) | Timeout | RequestFailure

  /** main.py:35-42: a 2xx status is UP; every other status, a timeout and a request failure are DOWN. */
  function Classify(outcome: Outcome): (result: ResponseCode)
    ensures result == UP <==> outcome.Status? && 200 <= outcome.code < 300
    ensures result == DOWN <==> outcome.Timeout? || outcome.RequestFailure? || outcome.code < 200 || 300 <= outcome.code
  {
    match outcome
    case Status(code) => if 200 <= code < 300 then UP else DOWN
    case Timeout => DOWN
    case RequestFailure => DOWN
  }
}
