/** What a pass does to the page: synthetic clicks and `checked = true`
    assignments, recorded in order, and the exceptions a pass can raise. */
module Effects {
  import opened Dom

  /** An effect on the element with the given identity. */
  datatype Event = Clicked(key: nat) | Checked(key: nat)

  /** The TypeErrors a pass can throw: `radioArray[4]` is undefined,
      `radioArray[4][column]` is null, or `continueButtons[0]` is undefined. */
  datatype Fault = RowFourMissing | EmptyCell(column: nat) | NoContinueButton

  /** The effects of a run, in order, and the exception that ended it, if any. */
  datatype Outcome = Outcome(events: seq<Event>, fault: Option<Fault>)

  /** The page, seen only through the effects the script has on it. */
  class Page {
    var trace: seq<Event>

    constructor ()
      ensures trace == []
    {
      trace := [];
    }

    /** `element.click()` */
    method Click(key: nat)
      modifies this
      ensures trace == old(trace) + [Clicked(key)]
    {
      trace := trace + [Clicked(key)];
    }

    /** `element.checked = true` */
    method Check(key: nat)
      modifies this
      ensures trace == old(trace) + [Checked(key)]
    {
      trace := trace + [Checked(key)];
    }
  }
}
