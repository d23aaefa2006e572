/** Failure-carrying results shared by the media catalog, the filename
    parser and the stack. The source signals every failure by raising
    `ValueError` (or `IndexError` for a pop); each kind of failure gets its
    own constructor here, named after the message the source raises. */
module Outcomes {

  /** The failures the catalog and stack code raise. */
  datatype Error =
    | SeasonExists             // ValueError('Season exists')
    | EpisodeExists            // ValueError('Episode exists')
    | EpisodeMissing(n: int)   // ValueError('Episode {} does not exist')
    | DurationNotSet           // ValueError('Duration not set')
    | EmptyTitle               // ValueError('Empty title')
    | BlankDirector            // ValueError('Director must be non-whitespaces')
    | PopFromEmpty             // IndexError raised by list.pop() on []

  /** Python's `None` or a value. */
  datatype Option<+T> = None | Some(value: T)

  /** A value, or the failure that was raised instead. */
  datatype Result<+T> = Ok(value: T) | Err(error: Error)

  /** An operation on state that either completed or raised. */
  datatype Outcome = Pass | Fail(error: Error)
}
