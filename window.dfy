/**
 * The stabilization window of the gesture stabilizer: a bounded FIFO of the
 * most recent raw labels, the tally of its labels in first-appearance order,
 * and the majority vote over that tally.
 */
module Window {
  import opened Labels

  /** Capacity of the window (GESTURE_BUFFER_SIZE). */
  const BufferSize: nat := 12

  /**
   * `count > BufferSize * 0.6`, stated exactly over the integers:
   * count * 10 > BufferSize * 6, that is, count >= 8.
   */
  predicate ExceedsThreshold(count: nat) {
    count * 10 > BufferSize * 6
  }

  /** The last BufferSize labels of `s`, in arrival order (all of `s` when it is shorter). */
  function Recent(s: seq<Gesture>): (r: seq<Gesture>)
    ensures |r| <= BufferSize
    ensures |r| == if |s| <= BufferSize then |s| else BufferSize
  {
    if |s| <= BufferSize then s else s[|s| - BufferSize..]
  }

  /** Push `raw` and, when the window is over capacity, evict the oldest label. */
  function Slide(buffer: seq<Gesture>, raw: Gesture): (r: seq<Gesture>)
    ensures |buffer| <= BufferSize ==> r == Recent(buffer + [raw])
    ensures r != [] && r[|r| - 1] == raw
  {
    var pushed := buffer + [raw];
    if |pushed| > BufferSize then pushed[1..] else pushed
  }

  /** Sliding the window of a trace is the window of the extended trace. */
  lemma SlideRecent(trace: seq<Gesture>, raw: Gesture)
    ensures Slide(Recent(trace), raw) == Recent(trace + [raw])
  {
    var t := trace + [raw];
    if |trace| > BufferSize {
      assert Recent(trace) + [raw] == t[|t| - BufferSize - 1..];
      assert (Recent(trace) + [raw])[1..] == t[|t| - BufferSize..];
    }
  }

  /** How many times `g` occurs in `s`. */
  function Occurrences(s: seq<Gesture>, g: Gesture): (n: nat)
    ensures n <= |s|
    ensures n > 0 <==> g in s
  {
    if s == [] then 0
    else
      assert s == s[..|s| - 1] + [s[|s| - 1]];
      Occurrences(s[..|s| - 1], g) + (if s[|s| - 1] == g then 1 else 0)
  }

  /** The tally dictionary: each label of `s` mapped to its count, built label by label. */
  function Counts(s: seq<Gesture>): map<Gesture, nat>
  {
    if s == [] then map[]
    else
      var m := Counts(s[..|s| - 1]);
      var g := s[|s| - 1];
      m[g := (if g in m then m[g] else 0) + 1]
  }

  /** The tally dictionary of a sequence extended by one label. */
  lemma CountsSnoc(s: seq<Gesture>, x: Gesture)
    ensures Counts(s + [x]) == Counts(s)[x := (if x in Counts(s) then Counts(s)[x] else 0) + 1]
  {
    assert (s + [x])[..|s|] == s;
  }

  /** The tally dictionary holds exactly the labels of `s`, each with its count. */
  lemma {:induction false} CountsDomain(s: seq<Gesture>, g: Gesture)
    ensures g in Counts(s) <==> g in s
    ensures g in Counts(s) ==> Counts(s)[g] == Occurrences(s, g)
  {
    if s != [] {
      assert s == s[..|s| - 1] + [s[|s| - 1]];
      CountsDomain(s[..|s| - 1], g);
    }
  }

  /** The keys of a sequence extended by one label. */
  lemma KeysSnoc(s: seq<Gesture>, x: Gesture)
    ensures Keys(s + [x]) == if x in Keys(s) then Keys(s) else Keys(s) + [x]
  {
    assert (s + [x])[..|s|] == s;
  }

  /**
   * The distinct labels of `s` in order of first appearance: the order in
   * which the keys of the tally object are enumerated.
   */
  function Keys(s: seq<Gesture>): (ks: seq<Gesture>)
    ensures forall g :: g in ks <==> g in s
    ensures forall i, j :: 0 <= i < j < |ks| ==> ks[i] != ks[j]
  {
    if s == [] then []
    else
      assert s == s[..|s| - 1] + [s[|s| - 1]];
      var k := Keys(s[..|s| - 1]);
      if s[|s| - 1] in k then k else k + [s[|s| - 1]]
  }

  /** The position of the first occurrence of `g` in `s`. */
  function FirstIndex(s: seq<Gesture>, g: Gesture): (r: nat)
    requires g in s
    ensures r < |s| && s[r] == g && g !in s[..r]
  {
    if s[0] == g then 0
    else
      assert s == [s[0]] + s[1..];
      var r := FirstIndex(s[1..], g);
      assert s[..r + 1] == [s[0]] + s[1..][..r];
      r + 1
  }

  /** Appending a label leaves the first occurrences of the earlier labels where they were. */
  lemma FirstIndexSnoc(s: seq<Gesture>, x: Gesture, g: Gesture)
    requires g in s + [x]
    ensures g in s ==> FirstIndex(s + [x], g) == FirstIndex(s, g)
    ensures g !in s ==> FirstIndex(s + [x], g) == |s|
  {
    var t := s + [x];
    var r := FirstIndex(t, g);
    if g in s {
      var q := FirstIndex(s, g);
      assert t[q] == g && t[..q] == s[..q];
      assert s[..r] == t[..r];
    }
  }

  /**
   * The keys come in order of first appearance: a key listed before another
   * first occurs in `s` before it.
   */
  lemma {:induction false} KeysInFirstAppearanceOrder(s: seq<Gesture>)
    ensures forall i, j :: 0 <= i < j < |Keys(s)| ==> FirstIndex(s, Keys(s)[i]) < FirstIndex(s, Keys(s)[j])
  {
    if s != [] {
      var p, x := s[..|s| - 1], s[|s| - 1];
      assert s == p + [x];
      KeysInFirstAppearanceOrder(p);
      KeysSnoc(p, x);
      var k, ks := Keys(p), Keys(s);
      forall i, j | 0 <= i < j < |ks|
        ensures FirstIndex(s, ks[i]) < FirstIndex(s, ks[j])
      {
        FirstIndexSnoc(p, x, ks[i]);
        FirstIndexSnoc(p, x, ks[j]);
        assert ks[i] == k[i];
        if j < |k| {
          assert ks[j] == k[j];
        } else {
          assert ks[j] == x && x !in p;
        }
      }
    }
  }

  /**
   * One step of the tally loop over `w`, at position `i`: the label is a key
   * exactly when it already has a count; a known label's count goes up by
   * one, and a new label gets count 1 and is appended to the keys.
   */
  lemma TallyStep(w: seq<Gesture>, i: nat)
    requires i < |w|
    ensures w[i] in Counts(w[..i]) <==> w[i] in Keys(w[..i])
    ensures w[i] in Counts(w[..i]) ==>
              && Counts(w[..i + 1]) == Counts(w[..i])[w[i] := Counts(w[..i])[w[i]] + 1]
              && Keys(w[..i + 1]) == Keys(w[..i])
    ensures w[i] !in Counts(w[..i]) ==>
              && Counts(w[..i + 1]) == Counts(w[..i])[w[i] := 1]
              && Keys(w[..i + 1]) == Keys(w[..i]) + [w[i]]
  {
    assert w[..i + 1] == w[..i] + [w[i]];
    CountsSnoc(w[..i], w[i]);
    KeysSnoc(w[..i], w[i]);
    CountsDomain(w[..i], w[i]);
  }

  /** A label with its count in the window. */
  datatype Tally = Tally(gesture: Gesture, count: nat)

  /**
   * The scan over the tally: walk `keys` in order and keep a key whenever
   * its count is strictly greater than the best so far, starting from
   * ("—", 0).
   */
  function Leader(keys: seq<Gesture>, s: seq<Gesture>): (t: Tally)
    ensures forall k :: k in keys ==> Occurrences(s, k) <= t.count
    ensures t == Tally(NoGesture, 0) || (t.gesture in keys && t.count == Occurrences(s, t.gesture))
  {
    if keys == [] then Tally(NoGesture, 0)
    else
      var t := Leader(keys[..|keys| - 1], s);
      var k := keys[|keys| - 1];
      var c := Occurrences(s, k);
      assert keys == keys[..|keys| - 1] + [k];
      if c > t.count then Tally(k, c) else t
  }

  /**
   * Ties go to the key met first: every key whose count equals the leader's
   * comes no earlier than the leader in `keys`.
   */
  lemma {:induction false} LeaderIsFirstMaximum(keys: seq<Gesture>, s: seq<Gesture>, j: nat)
    requires j < |keys|
    requires Leader(keys, s).count > 0 && Occurrences(s, keys[j]) == Leader(keys, s).count
    ensures Leader(keys, s).gesture in keys[..j + 1]
  {
    var n := |keys| - 1;
    if j < n {
      assert keys[..n][j] == keys[j];
      assert keys[j] in keys[..n];
      LeaderIsFirstMaximum(keys[..n], s, j);
      assert keys[..n][..j + 1] == keys[..j + 1];
    } else {
      assert keys[..j + 1] == keys;
    }
  }

  /**
   * The stabilized label of a window: its leader when the leader's count
   * exceeds the threshold, otherwise the previously committed label.
   */
  function Stabilized(window: seq<Gesture>, last: Gesture): Gesture
  {
    var t := Leader(Keys(window), window);
    if ExceedsThreshold(t.count) then t.gesture else last
  }

  /** A label that holds more than 60% of a full window. */
  predicate Dominant(window: seq<Gesture>, g: Gesture) {
    ExceedsThreshold(Occurrences(window, g))
  }

  /** Two different labels share the window: their counts add up to at most its length. */
  lemma {:induction false} OccurrencesOfTwo(s: seq<Gesture>, a: Gesture, b: Gesture)
    requires a != b
    ensures Occurrences(s, a) + Occurrences(s, b) <= |s|
  {
    if s != [] {
      OccurrencesOfTwo(s[..|s| - 1], a, b);
    }
  }

  /** In a window of at most 12 labels at most one label exceeds the threshold. */
  lemma AtMostOneDominant(window: seq<Gesture>, a: Gesture, b: Gesture)
    requires |window| <= BufferSize
    requires Dominant(window, a) && Dominant(window, b)
    ensures a == b
  {
    if a != b {
      OccurrencesOfTwo(window, a, b);
    }
  }

  /**
   * A dominant label is the stabilized label, whatever the previous label;
   * ScanOrderIrrelevant shows the same for every order of the scan.
   */
  lemma StabilizedIsDominant(window: seq<Gesture>, last: Gesture, g: Gesture)
    requires |window| <= BufferSize
    requires Dominant(window, g)
    ensures Stabilized(window, last) == g
  {
    var t := Leader(Keys(window), window);
    assert g in Keys(window);
    assert t.gesture in Keys(window) && t.count == Occurrences(window, t.gesture);
    AtMostOneDominant(window, g, t.gesture);
  }

  /**
   * The scan order does not matter: scanning the window's labels in any
   * order, with repeats allowed, and applying the threshold gives the
   * stabilized label.
   */
  lemma ScanOrderIrrelevant(w: seq<Gesture>, ks: seq<Gesture>, last: Gesture)
    requires |w| <= BufferSize
    requires forall g :: g in ks <==> g in w
    ensures (var t := Leader(ks, w); if ExceedsThreshold(t.count) then t.gesture else last) == Stabilized(w, last)
  {
    var t := Leader(ks, w);
    if exists g :: Dominant(w, g) {
      var g :| Dominant(w, g);
      assert g in ks;
      assert t.gesture in ks && t.count == Occurrences(w, t.gesture);
      AtMostOneDominant(w, g, t.gesture);
      StabilizedIsDominant(w, last, g);
    } else {
      if t != Tally(NoGesture, 0) {
        assert !Dominant(w, t.gesture);
      }
      StabilizedFallsBack(w, last);
    }
  }

  /** Without a dominant label the stabilized label is the previous one. */
  lemma StabilizedFallsBack(window: seq<Gesture>, last: Gesture)
    requires forall g :: !Dominant(window, g)
    ensures Stabilized(window, last) == last
  {
    var t := Leader(Keys(window), window);
    if t != Tally(NoGesture, 0) {
      assert !Dominant(window, t.gesture);
    }
  }

  /**
   * The stabilized label is either a dominant label, or there is none and it
   * is the previous label.
   */
  lemma StabilizedCases(window: seq<Gesture>, last: Gesture)
    requires |window| <= BufferSize
    ensures Dominant(window, Stabilized(window, last))
            || ((forall g :: !Dominant(window, g)) && Stabilized(window, last) == last)
  {
    if exists g :: Dominant(window, g) {
      var g :| Dominant(window, g);
      StabilizedIsDominant(window, last, g);
    } else {
      StabilizedFallsBack(window, last);
    }
  }

  /** While the window holds fewer than 8 labels, the previous label is kept. */
  lemma ShortWindowKeepsLast(window: seq<Gesture>, last: Gesture)
    requires |window| * 10 <= BufferSize * 6
    ensures Stabilized(window, last) == last
  {
    StabilizedFallsBack(window, last);
  }

  /** A label that fills the whole window occurs |window| times. */
  lemma {:induction false} OccurrencesOfUniform(s: seq<Gesture>, g: Gesture)
    requires forall i :: 0 <= i < |s| ==> s[i] == g
    ensures Occurrences(s, g) == |s|
  {
    if s != [] {
      OccurrencesOfUniform(s[..|s| - 1], g);
    }
  }

  /** Feeding the same label 8 to 12 times in a row makes it the stabilized label. */
  lemma UniformWindowStabilizes(window: seq<Gesture>, last: Gesture, g: Gesture)
    requires BufferSize * 6 < |window| * 10 && |window| <= BufferSize
    requires forall i :: 0 <= i < |window| ==> window[i] == g
    ensures Stabilized(window, last) == g
  {
    OccurrencesOfUniform(window, g);
    StabilizedIsDominant(window, last, g);
  }

  /** Six of one label and six of another never cross the threshold. */
  lemma EvenSplitKeepsLast(window: seq<Gesture>, last: Gesture, a: Gesture, b: Gesture)
    requires |window| == BufferSize && a != b
    requires Occurrences(window, a) == 6 && Occurrences(window, b) == 6
    ensures Stabilized(window, last) == last
  {
    forall g
      ensures !Dominant(window, g)
    {
      if g != a {
        OccurrencesOfTwo(window, a, g);
      }
    }
    StabilizedFallsBack(window, last);
  }

  /** The tally dictionary's keys are exactly `Keys(s)`, and each maps to its count. */
  lemma CountsMatchKeys(s: seq<Gesture>)
    ensures forall g :: g in Counts(s) <==> g in Keys(s)
    ensures forall g :: g in Counts(s) ==> Counts(s)[g] == Occurrences(s, g)
  {
    forall g
      ensures (g in Counts(s) <==> g in Keys(s))
      ensures g in Counts(s) ==> Counts(s)[g] == Occurrences(s, g)
    {
      CountsDomain(s, g);
    }
  }

  /** The tally loop of getStabilizedGesture: per-label counts and the labels in first-appearance order. */
  method CountVotes(window: seq<Gesture>) returns (counts: map<Gesture, nat>, keys: seq<Gesture>)
    ensures keys == Keys(window)
    ensures forall g :: g in counts <==> g in keys
    ensures forall g :: g in keys ==> counts[g] == Occurrences(window, g)
  {
    counts, keys := map[], [];
    var i := 0;
    while i < |window|
      invariant 0 <= i <= |window|
      invariant counts == Counts(window[..i])
      invariant keys == Keys(window[..i])
    {
      var g := window[i];
      TallyStep(window, i);
      if g in counts {
        counts := counts[g := counts[g] + 1];
      } else {
        counts := counts[g := 1];
        keys := keys + [g];
      }
      i := i + 1;
    }
    assert window[..i] == window;
    CountsMatchKeys(window);
  }

  /** One step of the scan: the key at position `j` replaces the leader only with a strictly larger count. */
  lemma LeaderStep(keys: seq<Gesture>, s: seq<Gesture>, j: nat)
    requires j < |keys|
    ensures Leader(keys[..j + 1], s) ==
      var t := Leader(keys[..j], s);
      if Occurrences(s, keys[j]) > t.count then Tally(keys[j], Occurrences(s, keys[j])) else t
  {
    assert keys[..j + 1][..j] == keys[..j];
  }

  /**
   * The tally of getStabilizedGesture: count every label of the window into
   * a dictionary whose keys keep their order of first appearance, then scan
   * the keys in that order for the strictly largest count, starting from
   * ("—", 0); the winner is returned only above the threshold, otherwise the
   * last committed gesture is.
   */
  method Vote(window: seq<Gesture>, last: Gesture) returns (output: Gesture)
    ensures output == Stabilized(window, last)
  {
    var counts, keys := CountVotes(window);
    var maxCount: nat, stabilized := 0, NoGesture;
    var j := 0;
    while j < |keys|
      invariant 0 <= j <= |keys|
      invariant Tally(stabilized, maxCount) == Leader(keys[..j], window)
    {
      var g := keys[j];
      LeaderStep(keys, window, j);
      assert counts[g] == Occurrences(window, g);
      if counts[g] > maxCount {
        maxCount := counts[g];
        stabilized := g;
      }
      j := j + 1;
    }
    assert keys[..j] == keys;
    output := if ExceedsThreshold(maxCount) then stabilized else last;
  }
}
