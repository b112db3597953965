/** Recognition of the mail editor's message body, the gate both page
    functions pass before reading or changing anything. */
module ComposeGate {
  import opened Options

  /** The accessible names the message body carries, Russian and English. */
  const MessageBodyLabels: set<string> := {"Текст письма", "Message Body"}

  /** The class the editor puts on its message body. */
  const MessageBodyClass: string := "Am"

  /** What the gate reads from `document.activeElement`; an absent
      attribute is `None`. */
  datatype Focus = Focus(
    contentEditable: bool,
    ariaLabel: Option<string>,
    classList: set<string>,
    gEditable: Option<string>)

  /** The focused element is the message body: it is editable and carries
      one of the known labels, the known class, or `g_editable="true"`. */
  predicate IsComposeBody(focus: Option<Focus>)
  {
    match focus
    case None => false
    case Some(f) =>
      && f.contentEditable
      && (|| (f.ariaLabel.Some? && f.ariaLabel.value in MessageBodyLabels)
          || MessageBodyClass in f.classList
          || f.gEditable == Some("true"))
  }
}
