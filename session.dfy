/**
 * The stabilizer session: the state that the page keeps across camera frames
 * (the window of raw labels, the last committed gesture and its time, the
 * cooldown, the committed-gesture history and the current sentence), and the
 * per-frame step that stabilizes a raw label and commits it through the
 * cooldown gate.
 */
module Session {
  import opened Labels
  import opened Window
  import opened Sentences

  /** Default cooldown between commits, in milliseconds. */
  const DefaultCooldown: int := 900

  /** The commit gate: a real gesture, different from the last committed one, after the cooldown. */
  predicate CommitAllowed(output: Gesture, lastGesture: Gesture, lastTime: int, now: int, cooldown: int) {
    output != NoGesture && output != lastGesture && now - lastTime > cooldown
  }

  /**
   * A frame whose window has no dominant label shows the last committed
   * gesture again, and that can never pass the gate.
   */
  lemma FallbackNeverCommits(window: seq<Gesture>, lastGesture: Gesture, lastTime: int, now: int, cooldown: int)
    requires forall g :: !Dominant(window, g)
    ensures !CommitAllowed(Stabilized(window, lastGesture), lastGesture, lastTime, now, cooldown)
  {
    StabilizedFallsBack(window, lastGesture);
  }

  /**
   * The cooldown comparison is strict: a frame at most `cooldown` after the
   * last commit, exactly `cooldown` included, cannot commit.
   */
  lemma CooldownSeparatesCommits(g: Gesture, h: Gesture, t0: int, t1: int, cooldown: int)
    requires t1 - t0 <= cooldown
    ensures !CommitAllowed(h, g, t0, t1, cooldown)
  {
  }

  /**
   * What the commit bookkeeping keeps true of the history: "—" is never
   * committed, the last committed gesture (unless a clear forgot it) is the
   * newest history entry, and two equal adjacent entries only occur at a
   * position committed right after a clear.
   */
  ghost predicate HistoryInvariant(history: seq<Gesture>, lastGesture: Gesture, cleared: bool, restarts: set<nat>) {
    && NoGesture !in history
    && (lastGesture == NoGesture || (history != [] && history[|history| - 1] == lastGesture))
    && (lastGesture == NoGesture && history != [] ==> cleared)
    && (forall i :: 0 < i < |history| && history[i - 1] == history[i] ==> i in restarts)
  }

  /**
   * The restart positions after a commit that appends at position `n`:
   * the position is added exactly when a clear came before the commit.
   */
  ghost function Restarted(restarts: set<nat>, cleared: bool, n: nat): set<nat>
  {
    if cleared then restarts + {n} else restarts
  }

  /** A commit through the gate keeps the history invariant. */
  lemma CommitKeepsInvariant(history: seq<Gesture>, lastGesture: Gesture, cleared: bool, restarts: set<nat>, output: Gesture)
    requires HistoryInvariant(history, lastGesture, cleared, restarts)
    requires output != NoGesture && output != lastGesture
    ensures HistoryInvariant(history + [output], output, false, Restarted(restarts, cleared, |history|))
  {
    var h := history + [output];
    var r := Restarted(restarts, cleared, |history|);
    forall i | 0 < i < |h| && h[i - 1] == h[i]
      ensures i in r
    {
      if i < |history| {
        assert h[i - 1] == history[i - 1] && h[i] == history[i];
      }
    }
  }

  /** Clearing the sentence keeps the history invariant. */
  lemma ClearKeepsInvariant(history: seq<Gesture>, lastGesture: Gesture, cleared: bool, restarts: set<nat>)
    requires HistoryInvariant(history, lastGesture, cleared, restarts)
    ensures HistoryInvariant(history, NoGesture, true, restarts)
  {
  }

  class StabilizerSession {
    var buffer: seq<Gesture>
    var lastGesture: Gesture
    var lastTime: int
    var cooldown: int
    var history: seq<Gesture>
    var sentence: Sentence

    /** Every raw label pushed so far, oldest first. */
    ghost var trace: seq<Gesture>
    /** clearSentence ran since the last commit. */
    ghost var cleared: bool
    /** Positions of history entries committed right after a clearSentence. */
    ghost var restarts: set<nat>

    /** The window holds the most recent raw labels of the trace. */
    ghost predicate WindowValid()
      reads this`buffer, this`trace
    {
      buffer == Recent(trace)
    }

    /** The committed history satisfies the bookkeeping invariant. */
    ghost predicate HistoryValid()
      reads this`history, this`lastGesture, this`cleared, this`restarts
    {
      HistoryInvariant(history, lastGesture, cleared, restarts)
    }

    ghost predicate Valid()
      reads this`buffer, this`trace, this`history, this`lastGesture, this`cleared, this`restarts
    {
      WindowValid() && HistoryValid()
    }

    constructor ()
      ensures Valid()
      ensures buffer == [] && history == [] && sentence == Blank
      ensures lastGesture == NoGesture && lastTime == 0 && cooldown == DefaultCooldown
      ensures !cleared && restarts == {}
    {
      buffer, lastGesture, lastTime, cooldown := [], NoGesture, 0, DefaultCooldown;
      history, sentence := [], Blank;
      trace, cleared, restarts := [], false, {};
    }

    /** The speed slider sets the cooldown. */
    method SetCooldown(ms: int)
      modifies this`cooldown
      ensures cooldown == ms
    {
      cooldown := ms;
    }

    /** Push a raw label onto the window, evicting the oldest one beyond BufferSize. */
    method Push(raw: Gesture)
      requires Valid()
      modifies this`buffer, this`trace
      ensures Valid()
      ensures trace == old(trace) + [raw]
      ensures buffer == Slide(old(buffer), raw) && |buffer| <= BufferSize
    {
      SlideRecent(trace, raw);
      buffer := buffer + [raw];
      if |buffer| > BufferSize {
        buffer := buffer[1..];
      }
      trace := trace + [raw];
    }

    /**
     * getStabilizedGesture: push the raw label, then return the window's
     * dominant label, or the last committed gesture when there is none.
     */
    method Stabilize(raw: Gesture) returns (output: Gesture)
      requires Valid()
      modifies this`buffer, this`trace
      ensures Valid()
      ensures trace == old(trace) + [raw]
      ensures buffer == Slide(old(buffer), raw) && |buffer| <= BufferSize
      ensures output == Stabilized(buffer, lastGesture)
    {
      Push(raw);
      output := Vote(buffer, lastGesture);
    }

    /**
     * The bookkeeping of a commit: append the gesture to the history and
     * remember the gesture and the time.
     */
    method Record(output: Gesture, now: int)
      requires Valid()
      requires output != NoGesture && output != lastGesture
      modifies this`history, this`lastGesture, this`lastTime, this`cleared, this`restarts
      ensures Valid()
      ensures history == old(history) + [output]
      ensures lastGesture == output && lastTime == now
      ensures !cleared && restarts == Restarted(old(restarts), old(cleared), |old(history)|)
    {
      CommitKeepsInvariant(history, lastGesture, cleared, restarts, output);
      restarts := Restarted(restarts, cleared, |history|);
      history := history + [output];
      lastGesture, lastTime := output, now;
      cleared := false;
    }

    /** The sentence shown after a commit, assembled from the history. */
    method UpdateSentence()
      requires history != []
      modifies this`sentence
      ensures sentence == Assemble(history)
    {
      sentence := Assemble(history);
    }

    /** The commit gate: record the gesture when the gate opens. */
    method Commit(output: Gesture, now: int) returns (committed: bool)
      requires Valid()
      modifies this`history, this`sentence, this`lastGesture, this`lastTime, this`cleared, this`restarts
      ensures Valid()
      ensures committed == CommitAllowed(output, old(lastGesture), old(lastTime), now, cooldown)
      ensures committed ==> && history == old(history) + [output] && sentence == Assemble(history)
                            && lastGesture == output && lastTime == now
      ensures !committed ==> && history == old(history) && sentence == old(sentence)
                             && lastGesture == old(lastGesture) && lastTime == old(lastTime)
      ensures committed ==> !cleared && restarts == Restarted(old(restarts), old(cleared), |old(history)|)
      ensures !committed ==> cleared == old(cleared) && restarts == old(restarts)
    {
      committed := CommitAllowed(output, lastGesture, lastTime, now, cooldown);
      if committed {
        Record(output, now);
        UpdateSentence();
      }
    }

    /**
     * One frame with a hand: stabilize its raw label, then try to commit it.
     */
    method ProcessFrame(raw: Gesture, now: int) returns (output: Gesture, committed: bool)
      requires Valid()
      modifies this`buffer, this`trace, this`history, this`sentence, this`lastGesture,
               this`lastTime, this`cleared, this`restarts
      ensures Valid()
      ensures buffer == Slide(old(buffer), raw) && |buffer| <= BufferSize
      ensures output == Stabilized(buffer, old(lastGesture))
      ensures committed == CommitAllowed(output, old(lastGesture), old(lastTime), now, cooldown)
      ensures committed ==> && history == old(history) + [output]
                            && sentence == Assemble(history)
                            && lastGesture == output && lastTime == now
      ensures !committed ==> && history == old(history) && sentence == old(sentence)
                             && lastGesture == old(lastGesture) && lastTime == old(lastTime)
      ensures committed ==> !cleared && restarts == Restarted(old(restarts), old(cleared), |old(history)|)
      ensures !committed ==> cleared == old(cleared) && restarts == old(restarts)
      ensures output == old(lastGesture) ==> !committed
    {
      output := Stabilize(raw);
      committed := Commit(output, now);
    }

    /** clearSentence: empty the sentence and forget the last committed gesture. */
    method ClearSentence()
      requires Valid()
      modifies this`sentence, this`lastGesture, this`cleared
      ensures Valid()
      ensures sentence == Blank && lastGesture == NoGesture && cleared
      ensures restarts == old(restarts)
    {
      ClearKeepsInvariant(history, lastGesture, cleared, restarts);
      sentence, lastGesture := Blank, NoGesture;
      cleared := true;
    }
  }

  /**
   * Consecutive history entries differ, except across a clearSentence: a
   * repeated gesture can only be the first commit after a clear.
   */
  lemma AdjacentRepeatsFollowClear(s: StabilizerSession, i: nat)
    requires s.Valid()
    requires 0 < i < |s.history| && i !in s.restarts
    ensures s.history[i - 1] != s.history[i]
  {
  }

  /**
   * The cooldown on the class: of two frames at most one cooldown apart,
   * at most one commits.
   */
  method TwoFramesOneCommit(s: StabilizerSession, raw0: Gesture, t0: int, raw1: Gesture, t1: int)
    returns (c0: bool, c1: bool)
    requires s.Valid() && t1 - t0 <= s.cooldown
    modifies s
    ensures s.Valid()
    ensures !(c0 && c1)
  {
    var out0, out1;
    out0, c0 := s.ProcessFrame(raw0, t0);
    out1, c1 := s.ProcessFrame(raw1, t1);
  }

  /** Without any clear, no two adjacent history entries are equal. */
  lemma NoClearNoRepeats(s: StabilizerSession)
    requires s.Valid() && s.restarts == {}
    ensures forall i :: 0 < i < |s.history| ==> s.history[i - 1] != s.history[i]
  {
    forall i | 0 < i < |s.history|
      ensures s.history[i - 1] != s.history[i]
    {
      AdjacentRepeatsFollowClear(s, i);
    }
  }
}
