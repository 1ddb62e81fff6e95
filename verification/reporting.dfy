/** The process-wide error state: the `isError` flag and the error banner.
    `isError` is cleared only when a parse begins and is set by every report;
    the banner shows the most recent report, and is hidden when a pass ends
    without error. */
module Reporting {
  import opened Records

  class Reporter {
    var isError: bool
    /** The banner: the message on display, None when hidden. */
    var shown: Option<Message>
    /** The messages reported since the current pass began, in order. */
    ghost var reports: seq<Message>

    ghost predicate Valid()
      reads this
    {
      isError == (reports != []) &&
      (reports != [] ==> shown == LastOf(reports))
    }

    constructor ()
      ensures Valid() && reports == [] && shown == None
    {
      isError := false;
      shown := None;
      reports := [];
    }

    /** `isError = false` at the start of a parse; the banner is left as it was. */
    method Begin()
      modifies this
      ensures Valid() && reports == [] && shown == old(shown)
    {
      isError := false;
      reports := [];
    }

    /** `updateError(message)` followed by `isError = true`. */
    method Report(m: Message)
      requires Valid()
      modifies this
      ensures Valid() && reports == old(reports) + [m] && shown == Some(m)
    {
      shown := Some(m);
      isError := true;
      reports := reports + [m];
    }

    /** `if (!isError)` hide the banner: afterwards it shows exactly the last
        report of the pass, or nothing. */
    method HideIfNoError()
      requires Valid()
      modifies this
      ensures Valid() && reports == old(reports) && shown == LastOf(reports)
    {
      if !isError {
        shown := None;
      }
    }
  }
}
