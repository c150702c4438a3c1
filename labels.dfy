/**
 * Gesture labels shared by the classifier, the stabilizer and the sentence
 * assembler. The classifier returns one of ten fixed strings; each is a
 * constructor here, and Name() gives its text.
 */
module Labels {

  datatype Gesture = OK | Hello | Help | Good | You | ThankYou | Yes | No | Stop | NoGesture
  {
    /** The label's text; NoGesture is the sentinel "—" (U+2014 EM DASH). */
    function Name(): (s: string)
      ensures s != ""
    {
      match this
      case OK => "OK"
      case Hello => "Hello"
      case Help => "Help"
      case Good => "Good"
      case You => "You"
      case ThankYou => "Thank you"
      case Yes => "Yes"
      case No => "No"
      case Stop => "Stop"
      case NoGesture => "\U{2014}"
    }
  }

  /** Different labels have different texts, so comparing labels is comparing their strings. */
  lemma NamesDistinct(g: Gesture, h: Gesture)
    ensures g.Name() == h.Name() <==> g == h
  {
  }

  datatype Option<T> = None | Some(value: T)
}
