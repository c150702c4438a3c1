# Sign-AI gesture core in Dafny

This project models the rule engine of the Sign-AI browser assistant
(`script.js`). The engine turns the hand landmarks of each camera frame into
words and short sentences. It has four parts, over one shared vocabulary:
the ten label strings the classifier can return are the constructors of
`Labels.Gesture`, and `Name()` gives each one's text. The source compares
labels as strings; `NamesDistinct` shows that comparing constructors is the
same thing.

- **Classifier** (`classifier.dfy`, module `Classifier`). `classifyGesture` is
  a chain of nine rules, and the first rule that matches picks the label and
  confidence. The rules read five finger-open flags, a pinch test, a spread
  test, the handedness string, and whether the thumb tip is above or below
  the thumb's joint. `Decide` is that chain over abstract `Features`.
  `Measure` computes the features from the 21 landmarks over the reals.
  Distances are compared as squares, so no square root is needed. Two lemmas
  show that the squared comparisons decide exactly what the source's
  `Math.hypot` comparisons decide. `RuleTable` and `FirstMatch` restate the
  chain as an ordered table of (finger pattern, extra condition, result)
  rules. `DecideIsFirstMatch` proves that the chain and the table agree on
  every input.
- **Stabilization window** (`window.dfy`, module `Window`). This is the pure
  part of `getStabilizedGesture`:
  - the bounded FIFO of the last 12 raw labels (`Slide`, `Recent`);
  - the tally dictionary, whose keys come in order of first appearance
    (`Counts`, `Keys`);
  - the scan for the strictly largest count (`Leader`);
  - the threshold `count > 12 * 0.6`, stated exactly over the integers
    (`ExceedsThreshold`).

  `Vote` is the imperative tally of the source: the counting loop
  (`CountVotes`), then the scan loop over the keys. It is proved against
  `Stabilized`. The lemmas show
  that at most one label can exceed the threshold, so the order of the scan
  never changes the answer.
- **Sentence assembler** (`sentences.dfy`, module `Sentences`). The template
  list is looked up by the ordered pair (second-to-last, last), as
  `templates.find` does. Without a match the result is the newest gesture.
  The seven template sentences are the constructors of `Phrase`. The
  sentence on display is a `Sentence`: blank after a clear, a template's
  phrase, or a gesture verbatim. `Text()` gives the string the page shows.
- **Stabilizer session** (`session.dfy`, module `Session`). The page's
  module-level state becomes the fields of one class, `StabilizerSession`:
  `buffer`, `lastGesture`, `lastTime`, `cooldown`, `history` and `sentence`.
  Its methods are:
  - `Stabilize`, which is `getStabilizedGesture`: `Push` slides the buffer,
    then `Vote` tallies it;
  - `Commit`, the cooldown-gated commit block of `hands.onResults`: `Record`
    appends to the history and remembers the gesture and the time, then
    `UpdateSentence` assembles the sentence;
  - `ProcessFrame`, which runs `Stabilize` and `Commit`;
  - `ClearSentence`;
  - `SetCooldown`, the speed slider.

  Three ghost fields support the invariant `Valid()`:
  - `trace` holds every raw label pushed so far;
  - `cleared` records that `clearSentence` ran since the last commit;
  - `restarts` holds the history positions committed straight after a clear.

  `Valid()` keeps these facts, the first as `WindowValid()` and the others
  as `HistoryValid()`, which is the value predicate `HistoryInvariant`:
  - the buffer is always the 12 most recent raw labels, in arrival order;
  - the history never holds "—";
  - `lastGesture` is the last history entry unless it was reset;
  - two adjacent history entries are equal only across a clear.

  `pipeline.dfy` (module `Pipeline`) holds `OnResults`, the per-frame
  handler. It either sees no hand, and changes nothing, or it classifies the
  hand and runs `ProcessFrame`.

The sentinel label "—" is U+2014 (`Labels.NoGesture`). The clock reading is
passed in as the `now` parameter.

Three details of the code that the model keeps:

- **Cooldown.** The commit needs `now - lastTime > COOLDOWN`. The comparison
  is strict (script.js:317): a frame exactly one cooldown after the last
  commit does not commit.
- **"You".** The rule is `indexOpen && !middleOpen && !ringOpen &&
  !pinkyOpen`. The thumb is not tested (script.js:215): thumb and index
  together also give "You".
- **"Hello".** Five open fingers without enough spread are not "Hello"
  (script.js:187-203). The chain then goes on to the later rules.

## Model

| member | source | states |
|---|---|---|
| `Window.Slide` | script.js:141-144 | pushing onto a window of at most 12 labels gives the last 12 labels of the old window followed by the new one; the new label is last |
| `Window.SlideRecent` | script.js:137-144 | sliding the window of a whole label trace is the window of the extended trace, so the buffer is always the 12 most recent raw labels in arrival order, oldest evicted first |
| `Window.Occurrences` | script.js:146-149 | a label's count is at most the window's length, and it is positive exactly when the label is in the window |
| `Window.Keys` | script.js:146-153 | the tally's keys are exactly the labels of the window, each once |
| `Window.FirstIndex` | script.js:146-153 | the position returned holds the label, and no earlier position does |
| `Window.FirstIndexSnoc` | script.js:146-149 | appending a label keeps the first positions of the labels already present, and a new label first occurs at the end |
| `Window.KeysInFirstAppearanceOrder` | script.js:146-153 | a key listed before another first occurs in the window before it, so the keys come in order of first appearance |
| `Window.CountsMatchKeys` | script.js:146-153 | the tally dictionary has exactly the keys `Keys(window)`, each mapped to its number of occurrences |
| `Window.CountsDomain` | script.js:146-149 | the tally dictionary holds exactly the labels of the window, each mapped to its number of occurrences |
| `Window.Leader` | script.js:151-158 | the scan's winner has a count at least that of every key; it is ("—", 0) or a key together with its true count |
| `Window.LeaderIsFirstMaximum` | script.js:153-158 | on a tie the strict `>` keeps the key met first: any key with the winning count comes no earlier than the winner |
| `Window.TallyStep` | script.js:146-149 | one step of the counting loop: a label already has a count exactly when it is already a key; a known label's count goes up by one, and a new label gets count 1 and is appended to the keys |
| `Window.CountVotes` | script.js:146-149 | the counting loop returns the keys in first-appearance order and a dictionary with exactly those keys, each mapped to its number of occurrences in the window |
| `Window.LeaderStep` | script.js:153-158 | one step of the scan: the next key replaces the leader only when its count is strictly larger |
| `Window.Vote` | script.js:146-160 | the counting loop and the scan loop return the stabilized label of the window: its leader above the threshold, else the last committed gesture |
| `Window.OccurrencesOfTwo` | script.js:146-149 | the counts of two different labels add up to at most the window's length |
| `Window.AtMostOneDominant` | script.js:153-160 | in a window of at most 12 labels, at most one label has a count above 12 * 0.6 |
| `Window.StabilizedIsDominant` | script.js:151-160 | a label with count at least 8 is the stabilized result, whatever the previous gesture and independent of the tie-break |
| `Window.ScanOrderIrrelevant` | script.js:151-160 | scanning the window's labels in any order, repeats allowed, and applying the threshold gives the same label as the first-appearance scan |
| `Window.StabilizedFallsBack` | script.js:160 | when no label exceeds the threshold, the result is the previous gesture unchanged |
| `Window.StabilizedCases` | script.js:151-160 | the result is a label above the threshold, or no label is above it and the result is the previous gesture |
| `Window.ShortWindowKeepsLast` | script.js:140-160 | while the window holds fewer than 8 labels, the result is always the previous gesture |
| `Window.OccurrencesOfUniform` | script.js:146-149 | a window holding a single label counts it as many times as its length |
| `Window.UniformWindowStabilizes` | script.js:140-160 | a window of 8 to 12 copies of one label stabilizes to that label |
| `Window.EvenSplitKeepsLast` | script.js:151-160 | a full window split six and six between two labels keeps the previous gesture |
| `Sentences.FindTemplate` | script.js:325-327 | it returns nothing exactly when no template has the ordered pattern; otherwise it returns the first template with that pattern |
| `Sentences.Sentence.Text` | script.js:321-331 | the displayed text is empty exactly for the blank sentence |
| `Sentences.Assemble` | script.js:321-329 | the sentence is the newest gesture verbatim or one of the template phrases |
| `Sentences.TemplatePatternsDistinct` | script.js:20-28 | no two templates share an ordered pattern |
| `Sentences.AssembleCases` | script.js:321-329 | with two or more entries whose last two match a template, the sentence is that template's sentence; otherwise it is the newest gesture verbatim |
| `Sentences.HelloYouGreets` | script.js:321-329 | a history ending in "Hello", "You" assembles to "Hello, how are you?" |
| `Sentences.ReversedPairHasNoTemplate` | script.js:321-329 | a history ending in "You", "Hello" assembles to "Hello", because the pattern is ordered |
| `Sentences.SingleGestureVerbatim` | script.js:321-323 | a history of one gesture assembles to that gesture |
| `Labels.Gesture.Name` | script.js:182-239 | every label has a non-empty text |
| `Labels.NamesDistinct` | script.js:314-318 | two labels have the same text exactly when they are the same label, so the string comparisons of the source are label comparisons |
| `Classifier.Decide` | script.js:182-239 | every result's confidence is in {0, 88, 90, 92, 95}; confidence 0 goes with "—" and only with it |
| `Classifier.FirstMatch` | script.js:181-239 | when no rule from `from` on matches, the result is ("—", 0); otherwise it is the result of a matching rule with no matching rule before it |
| `Classifier.FirstMatchOfNine` | script.js:181-239 | on a table of nine rules, the first match is the chain of tests of rule 0 to rule 8 in order, ending in ("—", 0) |
| `Classifier.RuleTableConditions` | script.js:182-237 | each of the nine table rows tests exactly the condition of the corresponding `if` of the source |
| `Classifier.DecideIsFirstMatch` | script.js:181-239 | the if-chain equals the first matching rule of the ordered nine-rule table, for every input |
| `Classifier.OnlyPinchOverlaps` | script.js:183-237 | apart from the pinch rule, no two rules can match the same input, so evaluation order matters only for "OK" |
| `Classifier.PinchOverlapsHello` | script.js:183-203 | a pinch with all five fingers open and spread matches both "OK" and "Hello", and the result is "OK" with 95 |
| `Classifier.PinchWins` | script.js:182-185 | a pinch with middle, ring and pinky open is "OK" with 95, whatever the other inputs are |
| `Classifier.HelpOnlyOnLeftHand` | script.js:205-209 | the result is "Help" if and only if the thumb is folded, the other four fingers are open, the hand is "Left" and there is no pinch |
| `Classifier.HelpPoseOnOtherHand` | script.js:205-239 | the "Help" pose without a pinch on any handedness other than "Left" falls through to ("—", 0) |
| `Classifier.ThumbOnly` | script.js:223-239 | a thumb-only pose gives "Yes" when the tip's y is below the joint's, "No" when above, and ("—", 0) when they are equal |
| `Classifier.Measure` | script.js:164-200 | the features carry the given handedness and the y coordinates of landmarks 4 and 3 |
| `Classifier.Classify` | script.js:163-240 | the confidence is at most 100, and it is 0 exactly for "—" |
| `Classifier.ExtendedIsDistanceTest` | script.js:164-179 | the squared-distance finger test is open exactly when the distance from tip to wrist exceeds the factor times the distance from joint to wrist |
| `Classifier.PinchIsDistanceTest` | script.js:182-183 | the squared-distance pinch flag holds exactly when the thumb-tip to index-tip distance is below 0.05 |
| `Session.FallbackNeverCommits` | script.js:160 | a frame whose window has no label over the threshold shows the last committed gesture again and cannot commit |
| `Session.CooldownSeparatesCommits` | script.js:317 | no commit happens at most one cooldown after the last commit, the boundary included |
| `Session.TwoFramesOneCommit` | script.js:313-338 | of two frames at most one cooldown apart, on any valid session, at most one commits |
| `Session.CommitKeepsInvariant` | script.js:313-338 | appending a gesture that passed the gate keeps the history invariant, with the new position marked as a restart when a clear came before |
| `Session.ClearKeepsInvariant` | script.js:354-358 | resetting the last gesture to "—" and marking the clear keeps the history invariant |
| `Session.StabilizerSession.constructor` | script.js:12-18 | a new session has an empty buffer, history and sentence, last gesture "—", last time 0 and cooldown 900; no clear has happened and no position is a restart |
| `Session.StabilizerSession.SetCooldown` | script.js:92-94 | the slider's value becomes the cooldown |
| `Session.StabilizerSession.Push` | script.js:141-144 | the buffer is slid by the raw label and stays at most 12 long, so it is still the 12 most recent raw labels |
| `Session.StabilizerSession.Stabilize` | script.js:140-161 | the buffer is slid by the raw label and stays at most 12 long; the result is the stabilized label of the new buffer with respect to the last committed gesture |
| `Session.StabilizerSession.Record` | script.js:313-338 | the gesture is appended to the history and becomes the last gesture, with the frame's time; the new position becomes a restart exactly when a clear came before, and the clear is then used up |
| `Session.StabilizerSession.UpdateSentence` | script.js:316-331 | the sentence becomes the one assembled from the history |
| `Session.StabilizerSession.Commit` | script.js:313-338 | commits exactly when the output is not "—", differs from the last gesture, and the time since the last commit exceeds the cooldown. A commit appends the output to the history, sets the assembled sentence, and records the gesture and the time. Otherwise history, sentence, last gesture and last time are unchanged. The restart positions grow only by a commit that follows a clear |
| `Session.StabilizerSession.ProcessFrame` | script.js:289-338 | a frame with a hand slides the buffer, computes the stabilized output and runs the commit gate as `Commit` states, sentence and restart positions included; an output equal to the last gesture, which is what a fallback gives, never commits |
| `Session.StabilizerSession.ClearSentence` | script.js:354-358 | empties the sentence, resets the last gesture to "—" and marks the clear; the restart positions are unchanged and nothing else changes |
| `Session.AdjacentRepeatsFollowClear` | script.js:314-356 | two adjacent history entries differ unless the later one was the first commit after a clear |
| `Session.NoClearNoRepeats` | script.js:314-356 | a session in which no commit followed a clear has no two equal adjacent history entries |
| `Pipeline.HandednessOf` | script.js:277 | the handedness is the detector's label when it has a non-empty one, and "Unknown" otherwise |
| `Pipeline.OnResults` | script.js:272-338 | a frame without a hand displays "—" with confidence 0 and leaves the session unchanged. A frame with a hand shows the raw confidence and feeds the raw label to the stabilizer and the commit gate; a commit sets the sentence assembled from the new history, and without one the sentence, history and restart positions stay as they were |

## Left out

- MediaPipe `Hands` and `Camera`, canvas drawing, and the status and confidence display (script.js:242-311, 344-351). These are foreign library calls and DOM updates. The landmarks and the handedness label arrive as the `hand` parameter of `OnResults`.
- The re-entrancy guard `isProcessing` and the `requestAnimationFrame` scheduling (script.js:256-259, 340). They are asynchronous scheduling. Each call of `OnResults` is one frame that was not dropped.
- Floating point: coordinates and thresholds are exact reals. `Math.hypot` is replaced by comparisons of squared distances. The constants 1.1, 1.2, 0.05 and 0.04 are the exact decimals, so IEEE rounding at the boundaries is not modelled (script.js:164-200).
- The threshold `GESTURE_BUFFER_SIZE * 0.6` is modelled as `count * 10 > 12 * 6`. This is exact for integer counts because the floating-point value of `12 * 0.6` lies strictly between 7 and 8, so both tests accept exactly the counts from 8 up (script.js:160).
- `Date.now()` becomes the `now` parameter. Times and the cooldown are unbounded integers (script.js:313).
- The key order of the tally object is modelled as first-appearance order. JavaScript would enumerate integer-like keys first, but the classifier never produces one. `ScanOrderIrrelevant` shows the result does not depend on the order anyway (script.js:153).
- `parseInt` of the slider value and the speed-label text (script.js:92-103). `SetCooldown` takes the integer directly.
- Side effects of a commit: the DOM update, the conversation-history panel entry and the success sound (script.js:332-334, 31-50, 67-80). `Commit` models only the sentence they receive.
- The "Waiting for gesture..." placeholder that a clear writes into the page (script.js:357) is display text; the model's sentence is blank.
- The theme toggle and localStorage, the preset phrases, the history export, speech synthesis and the translation request (script.js:53-64, 82-134, 360-415). These are DOM, storage and network code outside the rule engine.
- The speak and translate handlers' checks on the sentence text (script.js:361, 373). They read `sentence` but are DOM and network code.
- Landmark sets of another size. `Classify` and `OnResults` require exactly 21 landmarks: the detector always delivers 21, and the source indexes landmarks 0 to 20 without checking.
