/**
 * The pose classifier: five finger-open flags, a pinch test, a spread test,
 * the handedness and the thumb's tip-versus-joint height feed a chain of nine
 * rules of which the first that matches decides the label and confidence.
 */
module Classifier {
  import opened Labels

  /** A landmark in normalized image coordinates; the depth coordinate is not used. */
  datatype Point = Point(x: real, y: real)

  /** The result of classifying one frame. */
  datatype Classification = Classification(gesture: Gesture, confidence: nat)

  /** What the rule chain looks at. */
  datatype Features = Features(
    thumbOpen: bool, indexOpen: bool, middleOpen: bool, ringOpen: bool, pinkyOpen: bool,
    pinch: bool,          // thumb tip to index tip closer than 0.05
    spread: bool,         // mean horizontal gap of adjacent fingertips above 0.04
    handedness: string,   // "Left", "Right" or "Unknown"
    thumbTipY: real,      // landmark 4
    thumbJointY: real)    // landmark 3

  /** Landmark indices used by the classifier. */
  const Wrist: nat := 0
  const ThumbIp: nat := 3
  const ThumbTip: nat := 4
  const IndexPip: nat := 6
  const IndexTip: nat := 8
  const MiddlePip: nat := 10
  const MiddleTip: nat := 12
  const RingPip: nat := 14
  const RingTip: nat := 16
  const PinkyPip: nat := 18
  const PinkyTip: nat := 20

  /** The rule chain of classifyGesture, evaluated top to bottom. */
  function Decide(f: Features): (c: Classification)
    ensures c.confidence in {0, 88, 90, 92, 95}
    ensures c.confidence == 0 <==> c.gesture == NoGesture
  {
    var t, i, m, r, p := f.thumbOpen, f.indexOpen, f.middleOpen, f.ringOpen, f.pinkyOpen;
    if f.pinch && m && r && p then Classification(OK, 95)
    else if t && i && m && r && p && f.spread then Classification(Hello, 95)
    else if !t && i && m && r && p && f.handedness == "Left" then Classification(Help, 90)
    else if i && m && !r && !p && !t then Classification(Good, 92)
    else if i && !m && !r && !p then Classification(You, 90)
    else if t && p && !i && !m && !r then Classification(ThankYou, 88)
    else if t && !i && !m && !r && !p && f.thumbTipY < f.thumbJointY then Classification(Yes, 95)
    else if t && !i && !m && !r && !p && f.thumbTipY > f.thumbJointY then Classification(No, 95)
    else if !t && !i && !m && !r && !p then Classification(Stop, 90)
    else Classification(NoGesture, 0)
  }

  // ---------------------------------------------------------------------
  // The rule chain as an ordered table, a reference definition of Decide
  // ---------------------------------------------------------------------

  /** What a rule demands of one finger. */
  datatype Finger = Open | Folded | Either

  /** The extra condition a rule adds to its finger pattern. */
  datatype Extra = Always | Pinch | Spread | LeftHand | TipAbove | TipBelow

  datatype Rule = Rule(thumb: Finger, index: Finger, middle: Finger, ring: Finger, pinky: Finger,
                       extra: Extra, result: Classification)

  /** The nine rules in evaluation order. */
  const RuleTable: seq<Rule> := [
    Rule(Either, Either, Open, Open, Open, Pinch, Classification(OK, 95)),
    Rule(Open, Open, Open, Open, Open, Spread, Classification(Hello, 95)),
    Rule(Folded, Open, Open, Open, Open, LeftHand, Classification(Help, 90)),
    Rule(Folded, Open, Open, Folded, Folded, Always, Classification(Good, 92)),
    Rule(Either, Open, Folded, Folded, Folded, Always, Classification(You, 90)),
    Rule(Open, Folded, Folded, Folded, Open, Always, Classification(ThankYou, 88)),
    Rule(Open, Folded, Folded, Folded, Folded, TipAbove, Classification(Yes, 95)),
    Rule(Open, Folded, Folded, Folded, Folded, TipBelow, Classification(No, 95)),
    Rule(Folded, Folded, Folded, Folded, Folded, Always, Classification(Stop, 90))
  ]

  predicate FingerFits(want: Finger, open: bool) {
    match want
    case Open => open
    case Folded => !open
    case Either => true
  }

  predicate ExtraHolds(e: Extra, f: Features) {
    match e
    case Always => true
    case Pinch => f.pinch
    case Spread => f.spread
    case LeftHand => f.handedness == "Left"
    case TipAbove => f.thumbTipY < f.thumbJointY
    case TipBelow => f.thumbTipY > f.thumbJointY
  }

  predicate RuleMatches(rule: Rule, f: Features) {
    && FingerFits(rule.thumb, f.thumbOpen)
    && FingerFits(rule.index, f.indexOpen)
    && FingerFits(rule.middle, f.middleOpen)
    && FingerFits(rule.ring, f.ringOpen)
    && FingerFits(rule.pinky, f.pinkyOpen)
    && ExtraHolds(rule.extra, f)
  }

  /** The result of the first rule at or after position `from` that matches, or ("—", 0). */
  function FirstMatch(rules: seq<Rule>, f: Features, from: nat): (c: Classification)
    ensures (forall k :: from <= k < |rules| ==> !RuleMatches(rules[k], f)) ==> c == Classification(NoGesture, 0)
    ensures (exists k :: from <= k < |rules| && RuleMatches(rules[k], f)) ==>
              exists i :: && from <= i < |rules| && RuleMatches(rules[i], f) && c == rules[i].result
                          && forall k :: from <= k < i ==> !RuleMatches(rules[k], f)
    decreases |rules| - from
  {
    if from >= |rules| then Classification(NoGesture, 0)
    else if RuleMatches(rules[from], f) then rules[from].result
    else FirstMatch(rules, f, from + 1)
  }

  /** FirstMatch over a nine-rule table, written out as a chain of tests. */
  lemma FirstMatchOfNine(rs: seq<Rule>, f: Features)
    requires |rs| == 9
    ensures FirstMatch(rs, f, 0) ==
      if RuleMatches(rs[0], f) then rs[0].result
      else if RuleMatches(rs[1], f) then rs[1].result
      else if RuleMatches(rs[2], f) then rs[2].result
      else if RuleMatches(rs[3], f) then rs[3].result
      else if RuleMatches(rs[4], f) then rs[4].result
      else if RuleMatches(rs[5], f) then rs[5].result
      else if RuleMatches(rs[6], f) then rs[6].result
      else if RuleMatches(rs[7], f) then rs[7].result
      else if RuleMatches(rs[8], f) then rs[8].result
      else Classification(NoGesture, 0)
  {
    assert FirstMatch(rs, f, 9) == Classification(NoGesture, 0);
    assert FirstMatch(rs, f, 8) == if RuleMatches(rs[8], f) then rs[8].result else FirstMatch(rs, f, 9);
    assert FirstMatch(rs, f, 7) == if RuleMatches(rs[7], f) then rs[7].result else FirstMatch(rs, f, 8);
    assert FirstMatch(rs, f, 6) == if RuleMatches(rs[6], f) then rs[6].result else FirstMatch(rs, f, 7);
    assert FirstMatch(rs, f, 5) == if RuleMatches(rs[5], f) then rs[5].result else FirstMatch(rs, f, 6);
    assert FirstMatch(rs, f, 4) == if RuleMatches(rs[4], f) then rs[4].result else FirstMatch(rs, f, 5);
    assert FirstMatch(rs, f, 3) == if RuleMatches(rs[3], f) then rs[3].result else FirstMatch(rs, f, 4);
    assert FirstMatch(rs, f, 2) == if RuleMatches(rs[2], f) then rs[2].result else FirstMatch(rs, f, 3);
    assert FirstMatch(rs, f, 1) == if RuleMatches(rs[1], f) then rs[1].result else FirstMatch(rs, f, 2);
  }

  /** Each rule of the table, spelled out as the condition on the features it tests. */
  lemma RuleTableConditions(f: Features)
    ensures var t, i, m, r, p := f.thumbOpen, f.indexOpen, f.middleOpen, f.ringOpen, f.pinkyOpen;
      && RuleMatches(RuleTable[0], f) == (f.pinch && m && r && p)
      && RuleMatches(RuleTable[1], f) == (t && i && m && r && p && f.spread)
      && RuleMatches(RuleTable[2], f) == (!t && i && m && r && p && f.handedness == "Left")
      && RuleMatches(RuleTable[3], f) == (i && m && !r && !p && !t)
      && RuleMatches(RuleTable[4], f) == (i && !m && !r && !p)
      && RuleMatches(RuleTable[5], f) == (t && p && !i && !m && !r)
      && RuleMatches(RuleTable[6], f) == (t && !i && !m && !r && !p && f.thumbTipY < f.thumbJointY)
      && RuleMatches(RuleTable[7], f) == (t && !i && !m && !r && !p && f.thumbTipY > f.thumbJointY)
      && RuleMatches(RuleTable[8], f) == (!t && !i && !m && !r && !p)
  {
  }

  /** The rule chain computes exactly the first match in the rule table. */
  lemma DecideIsFirstMatch(f: Features)
    ensures Decide(f) == FirstMatch(RuleTable, f, 0)
  {
    FirstMatchOfNine(RuleTable, f);
    RuleTableConditions(f);
  }

  /**
   * Evaluation order matters only for the pinch rule: apart from it, no
   * two rules of the table can match the same features.
   */
  lemma OnlyPinchOverlaps(f: Features, i: nat, j: nat)
    requires 1 <= i < j < |RuleTable|
    ensures !(RuleMatches(RuleTable[i], f) && RuleMatches(RuleTable[j], f))
  {
  }

  /** The pinch rule does overlap: a pinch with all fingers open and spread is also a "Hello" pose. */
  lemma PinchOverlapsHello(f: Features)
    requires f.pinch && f.spread
    requires f.thumbOpen && f.indexOpen && f.middleOpen && f.ringOpen && f.pinkyOpen
    ensures RuleMatches(RuleTable[0], f) && RuleMatches(RuleTable[1], f)
    ensures Decide(f) == Classification(OK, 95)
  {
  }

  /** A pinch with middle, ring and pinky open is "OK", whatever thumb, index and spread say. */
  lemma PinchWins(f: Features)
    requires f.pinch && f.middleOpen && f.ringOpen && f.pinkyOpen
    ensures Decide(f) == Classification(OK, 95)
  {
  }

  /** "Help" is recognized exactly for the left hand showing four fingers with the thumb folded, without a pinch. */
  lemma HelpOnlyOnLeftHand(f: Features)
    ensures Decide(f).gesture == Help <==>
      (&& !f.thumbOpen && f.indexOpen && f.middleOpen && f.ringOpen && f.pinkyOpen
       && f.handedness == "Left" && !f.pinch)
  {
  }

  /** The "Help" pose on any other hand matches no rule. */
  lemma HelpPoseOnOtherHand(f: Features)
    requires !f.thumbOpen && f.indexOpen && f.middleOpen && f.ringOpen && f.pinkyOpen
    requires f.handedness != "Left" && !f.pinch
    ensures Decide(f) == Classification(NoGesture, 0)
  {
  }

  /** Thumb alone: "Yes" when its tip is higher than its joint, "No" when lower, nothing when level. */
  lemma ThumbOnly(f: Features)
    requires f.thumbOpen && !f.indexOpen && !f.middleOpen && !f.ringOpen && !f.pinkyOpen
    ensures Decide(f) == (if f.thumbTipY < f.thumbJointY then Classification(Yes, 95)
                          else if f.thumbTipY > f.thumbJointY then Classification(No, 95)
                          else Classification(NoGesture, 0))
  {
  }

  // ---------------------------------------------------------------------
  // The geometric layer: finger flags and tests from the 21 landmarks
  // ---------------------------------------------------------------------

  /** Squared Euclidean distance in the image plane. */
  function SquaredDistance(p: Point, q: Point): (d: real)
    ensures d >= 0.0
  {
    (p.x - q.x) * (p.x - q.x) + (p.y - q.y) * (p.y - q.y)
  }

  function Abs(r: real): (a: real)
    ensures a >= 0.0 && (a == r || a == -r)
  {
    if r < 0.0 then -r else r
  }

  /** `|tip - wrist| > factor * |joint - wrist|`, compared on squares. */
  predicate Extended(landmarks: seq<Point>, tip: nat, joint: nat, factor: real)
    requires tip < |landmarks| && joint < |landmarks| && Wrist < |landmarks|
  {
    SquaredDistance(landmarks[tip], landmarks[Wrist]) > factor * factor * SquaredDistance(landmarks[joint], landmarks[Wrist])
  }

  /** The features classifyGesture computes from one hand's 21 landmarks. */
  function Measure(landmarks: seq<Point>, handedness: string): (f: Features)
    requires |landmarks| == 21
    ensures f.handedness == handedness
    ensures f.thumbTipY == landmarks[ThumbTip].y && f.thumbJointY == landmarks[ThumbIp].y
  {
    var lm := landmarks;
    var spread := (Abs(lm[ThumbTip].x - lm[IndexTip].x) + Abs(lm[IndexTip].x - lm[MiddleTip].x)
                   + Abs(lm[MiddleTip].x - lm[RingTip].x) + Abs(lm[RingTip].x - lm[PinkyTip].x)) / 4.0;
    Features(
      Extended(lm, ThumbTip, ThumbIp, 1.1),
      Extended(lm, IndexTip, IndexPip, 1.2),
      Extended(lm, MiddleTip, MiddlePip, 1.2),
      Extended(lm, RingTip, RingPip, 1.2),
      Extended(lm, PinkyTip, PinkyPip, 1.2),
      SquaredDistance(lm[ThumbTip], lm[IndexTip]) < 0.05 * 0.05,
      spread > 0.04,
      handedness,
      lm[ThumbTip].y,
      lm[ThumbIp].y)
  }

  /** classifyGesture: measure the landmarks, then run the rule chain. */
  function Classify(landmarks: seq<Point>, handedness: string): (c: Classification)
    requires |landmarks| == 21
    ensures c.confidence <= 100
    ensures c.confidence == 0 <==> c.gesture == NoGesture
  {
    Decide(Measure(landmarks, handedness))
  }

  /**
   * The finger flags of Measure agree with the test written on distances:
   * with dTip and dJoint the lengths from the wrist to the tip and to the
   * joint, the finger is open exactly when dTip > dJoint * factor.
   */
  lemma ExtendedIsDistanceTest(landmarks: seq<Point>, tip: nat, joint: nat, factor: real, dTip: real, dJoint: real)
    requires tip < |landmarks| && joint < |landmarks| && Wrist < |landmarks| && factor > 0.0
    requires dTip >= 0.0 && dTip * dTip == SquaredDistance(landmarks[tip], landmarks[Wrist])
    requires dJoint >= 0.0 && dJoint * dJoint == SquaredDistance(landmarks[joint], landmarks[Wrist])
    ensures Extended(landmarks, tip, joint, factor) <==> dTip > dJoint * factor
  {
    SquaresCompareLikeLengths(dTip, dJoint, factor);
    assert dJoint * factor == factor * dJoint;
  }

  /** The pinch flag of Measure is the test "thumb tip to index tip closer than 0.05". */
  lemma PinchIsDistanceTest(landmarks: seq<Point>, handedness: string, d: real)
    requires |landmarks| == 21
    requires d >= 0.0 && d * d == SquaredDistance(landmarks[ThumbTip], landmarks[IndexTip])
    ensures Measure(landmarks, handedness).pinch <==> d < 0.05
  {
    SquareBelowThreshold(d, 0.05);
  }

  /**
   * Comparing squared distances decides the same as comparing the distances
   * themselves: for lengths h1, h2 >= 0 and a factor k > 0,
   * h1 > k * h2 exactly when h1^2 > k^2 * h2^2.
   */
  lemma SquaresCompareLikeLengths(h1: real, h2: real, k: real)
    requires h1 >= 0.0 && h2 >= 0.0 && k > 0.0
    ensures h1 > k * h2 <==> h1 * h1 > k * k * (h2 * h2)
  {
    var b := k * h2;
    assert b >= 0.0;
    assert k * k * (h2 * h2) == b * b;
    if h1 > b {
      SquareMonotone(h1, b);
    } else if b > h1 {
      SquareMonotone(b, h1);
    }
  }

  /** A distance below a positive threshold is a squared distance below its square. */
  lemma SquareBelowThreshold(h: real, limit: real)
    requires h >= 0.0 && limit > 0.0
    ensures h < limit <==> h * h < limit * limit
  {
    if h > limit {
      SquareMonotone(h, limit);
    } else if limit > h {
      SquareMonotone(limit, h);
    }
  }

  /** Squaring is strictly increasing on the non-negative reals. */
  lemma SquareMonotone(a: real, b: real)
    requires a >= 0.0 && b >= 0.0 && a > b
    ensures a * a > b * b
  {
    var d := a - b;
    assert a * a == b * b + d * (a + b);
    assert d * (a + b) > 0.0 by {
      assert d > 0.0 && a + b > 0.0;
    }
  }
}
