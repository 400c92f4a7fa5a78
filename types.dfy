/** Outcome types shared by the whole model of the FLEx-to-LaTeX converter. */
module Types {

  /** A value that may be absent: an XML attribute or an element's text (`None` in Python). */
  datatype Option<+T> = None | Some(value: T)
  {
    function GetOr(default: T): T
    {
      match this
      case Some(v) => v
      case None => default
    }
  }

  /**
   * A script-level Python variable that outlives the loop iteration that assigned it:
   * either never assigned yet (reading it raises NameError) or holding the last value.
   */
  datatype Binding<+T> = Unbound | Bound(value: T)

  /** The ways in which the conversion script stops with an uncaught exception, or never stops. */
  datatype Failure =
    | NoTitle            // `rawtitle` read before any title item assigned it (NameError)
    | TitleWithoutText   // the chosen title item has no text, so `None + ".tex"` fails (TypeError)
    | CollisionLoop      // both `title.tex` and `title2.tex` exist: the renaming loop never ends
    | NoPhrases          // `phrases` read before any paragraph had a `phrases` child (NameError)
    | WordWithoutText    // a txt or cf item without text, so `" " + None` fails (TypeError)
    | EmptyLine          // `fullline[0]` on an empty surface line (IndexError)

  datatype Result<+T> = Ok(value: T) | Err(failure: Failure)
}
