/**
 * The per-frame handler: classify the detected hand, if any, feed its label
 * to the stabilizer session and run the commit gate.
 */
module Pipeline {
  import opened Labels
  import opened Classifier
  import opened Window
  import opened Sentences
  import opened Session

  /** One detected hand: its 21 landmarks and the detector's handedness label, if any. */
  datatype Hand = Hand(landmarks: seq<Point>, detected: Option<string>)

  /** The handedness passed to the classifier: the detector's label, or "Unknown" when it is missing or empty. */
  function HandednessOf(detected: Option<string>): (h: string)
    ensures h != ""
    ensures detected.Some? && detected.value != "" ==> h == detected.value
    ensures detected.None? || detected.value == "" ==> h == "Unknown"
  {
    match detected
    case Some(l) => if l == "" then "Unknown" else l
    case None => "Unknown"
  }

  /**
   * One detector callback. Without a hand the display shows "—" with
   * confidence 0 and the session is untouched: the stabilizer is not
   * consulted and "—" never passes the commit gate. With a hand, its
   * raw classification goes through the stabilizer and the gate, and the
   * displayed confidence is the raw classification's.
   */
  method OnResults(session: StabilizerSession, hand: Option<Hand>, now: int)
    returns (display: Gesture, confidence: nat, committed: bool)
    requires session.Valid()
    requires hand.Some? ==> |hand.value.landmarks| == 21
    modifies session
    ensures session.Valid()
    ensures hand.None? ==> display == NoGesture && confidence == 0 && !committed
    ensures hand.None? ==> unchanged(session)
    ensures hand.Some? ==>
      var c := Classify(hand.value.landmarks, HandednessOf(hand.value.detected));
      && confidence == c.confidence
      && session.buffer == Slide(old(session.buffer), c.gesture)
      && display == Stabilized(session.buffer, old(session.lastGesture))
      && committed == CommitAllowed(display, old(session.lastGesture), old(session.lastTime), now, session.cooldown)
    ensures committed ==> && session.history == old(session.history) + [display]
                          && session.sentence == Assemble(session.history)
                          && session.lastGesture == display && session.lastTime == now
                          && !session.cleared
                          && session.restarts == Restarted(old(session.restarts), old(session.cleared), |old(session.history)|)
    ensures !committed ==> && session.history == old(session.history)
                           && session.sentence == old(session.sentence)
                           && session.lastGesture == old(session.lastGesture)
                           && session.lastTime == old(session.lastTime)
                           && session.cleared == old(session.cleared)
                           && session.restarts == old(session.restarts)
    ensures session.cooldown == old(session.cooldown)
  {
    match hand {
      case None =>
        display, confidence, committed := NoGesture, 0, false;
      case Some(h) =>
        var raw := Classify(h.landmarks, HandednessOf(h.detected));
        display, committed := session.ProcessFrame(raw.gesture, now);
        confidence := raw.confidence;
    }
  }
}
