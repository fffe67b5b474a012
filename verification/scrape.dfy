/** What the fetch-and-parse layer hands to a stock check, and what a
    notification carries. HTTP, HTML parsing and SMTP themselves are outside
    the model. */
module Scrape {

  datatype Option<T> = None | Some(value: T)

  /** The two `except` clauses of a stock check: a `requests` error
      (connection failure, timeout, non-2xx status from `raise_for_status`)
      or any other exception. */
  datatype Failure = RequestFailed | Unexpected

  /** The outcome of fetching a page and looking up the status node with
      `soup.find(tag, class_=...)`: either an exception was raised, or the
      page parsed and the node's text is `Some(text)` (a located node is
      always truthy, even when its text is empty) or `None` when no node
      matched. */
  datatype Probe = Raised(failure: Failure) | Fetched(node: Option<string>)

  /** The plain-text part of a notification e-mail. */
  datatype Message = Message(subject: string, body: string)
}
