/** Normalisation of an optional comment to a description string. */
module Comments {
  import opened Wrappers
  import opened Proto

  /**
   The description of an element: the empty string when no comment is
   attached, otherwise the comment's message text. Extracting that text is
   the parser library's business, so it is passed in as `text`.
   */
  function Describe(text: Comment -> string, c: Option<Comment>): (r: string)
    ensures c.None? ==> r == ""
    ensures c.Some? ==> r == text(c.value)
  {
    match c
    case None => ""
    case Some(comment) => text(comment)
  }
}
