/**
 * The sentence assembler: the ordered pair formed by the last two committed
 * gestures is looked up in a fixed template list; without a matching
 * template the sentence is the newest gesture itself.
 */
module Sentences {
  import opened Labels

  /** The sentences the templates produce; Text() gives each one's wording. */
  datatype Phrase = HowAreYou | NeedHelp | INeedHelp | IDontNeedHelp | ThankYouVeryMuch | YouAreGood | PleaseStop
  {
    function Text(): (s: string)
      ensures s != ""
    {
      match this
      case HowAreYou => "Hello, how are you?"
      case NeedHelp => "Do you need help?"
      case INeedHelp => "Yes, I need help."
      case IDontNeedHelp => "I don't need help."
      case ThankYouVeryMuch => "Thank you very much!"
      case YouAreGood => "You are good."
      case PleaseStop => "Please stop!"
    }
  }

  /**
   * The sentence on display: empty after a clear, a template's phrase, or the
   * newest gesture's text verbatim. Text() is the string the page shows.
   */
  datatype Sentence = Blank | Templated(phrase: Phrase) | Verbatim(gesture: Gesture)
  {
    function Text(): (s: string)
      ensures s == "" <==> this == Blank
    {
      match this
      case Blank => ""
      case Templated(p) => p.Text()
      case Verbatim(g) => g.Name()
    }
  }

  /** A template: an ordered pair of gestures and the sentence it stands for. */
  datatype Template = Template(first: Gesture, second: Gesture, phrase: Phrase)

  /** The template list, in its declared order. */
  const Templates: seq<Template> := [
    Template(Hello, You, HowAreYou),
    Template(Help, You, NeedHelp),
    Template(Yes, Help, INeedHelp),
    Template(No, Help, IDontNeedHelp),
    Template(ThankYou, You, ThankYouVeryMuch),
    Template(Good, You, YouAreGood),
    Template(Stop, You, PleaseStop)
  ]

  /** Exact match on both positions, in order. */
  predicate Matches(t: Template, a: Gesture, b: Gesture) {
    t.first == a && t.second == b
  }

  /** The first template of `ts` whose pattern is (a, b), as `templates.find` returns it. */
  function FindTemplate(ts: seq<Template>, a: Gesture, b: Gesture): (r: Option<Template>)
    ensures r.None? <==> forall i :: 0 <= i < |ts| ==> !Matches(ts[i], a, b)
    ensures r.Some? ==> exists i :: 0 <= i < |ts| && ts[i] == r.value && Matches(r.value, a, b)
                                    && forall j :: 0 <= j < i ==> !Matches(ts[j], a, b)
  {
    if ts == [] then None
    else if Matches(ts[0], a, b) then Some(ts[0])
    else
      var r := FindTemplate(ts[1..], a, b);
      assert forall i :: 1 <= i < |ts| ==> ts[i] == ts[1..][i - 1];
      r
  }

  /**
   * The sentence assembled once `history` has received its newest gesture:
   * the template for (second-to-last, last) when there is one, otherwise the
   * newest gesture's text verbatim.
   */
  function Assemble(history: seq<Gesture>): (s: Sentence)
    requires history != []
    ensures s == Verbatim(history[|history| - 1]) || exists i :: 0 <= i < |Templates| && s == Templated(Templates[i].phrase)
  {
    var newest := history[|history| - 1];
    if |history| >= 2 then
      match FindTemplate(Templates, history[|history| - 2], newest)
      case Some(t) => Templated(t.phrase)
      case None => Verbatim(newest)
    else Verbatim(newest)
  }

  /** No two templates share a pattern, so the first match is the only one. */
  lemma TemplatePatternsDistinct()
    ensures forall i, j :: 0 <= i < j < |Templates| ==>
              (Templates[i].first, Templates[i].second) != (Templates[j].first, Templates[j].second)
  {
  }

  /**
   * The assembled sentence: if the last two gestures form the pattern of
   * some template, it is that template's sentence; otherwise it is the
   * newest gesture.
   */
  lemma AssembleCases(history: seq<Gesture>)
    requires history != []
    ensures var n := |history|;
            if n >= 2 && exists i :: 0 <= i < |Templates| && Matches(Templates[i], history[n - 2], history[n - 1])
            then exists i :: 0 <= i < |Templates| && Matches(Templates[i], history[n - 2], history[n - 1])
                              && Assemble(history) == Templated(Templates[i].phrase)
            else Assemble(history) == Verbatim(history[n - 1])
  {
  }

  /** ["Hello", "You"] assembles to "Hello, how are you?". */
  lemma HelloYouGreets(history: seq<Gesture>)
    requires |history| >= 2 && history[|history| - 2..] == [Hello, You]
    ensures Assemble(history).Text() == "Hello, how are you?"
  {
    assert history[|history| - 2] == Hello;
    assert history[|history| - 1] == You;
    assert FindTemplate(Templates, Hello, You) == Some(Templates[0]);
  }

  /** The order counts: ["You", "Hello"] has no template and assembles to "Hello". */
  lemma ReversedPairHasNoTemplate(history: seq<Gesture>)
    requires |history| >= 2 && history[|history| - 2..] == [You, Hello]
    ensures Assemble(history).Text() == "Hello"
  {
    assert history[|history| - 2] == You;
    assert history[|history| - 1] == Hello;
    assert FindTemplate(Templates, You, Hello) == None;
    assert Assemble(history) == Verbatim(Hello);
  }

  /** A single committed gesture assembles to that gesture verbatim. */
  lemma SingleGestureVerbatim(g: Gesture)
    ensures Assemble([g]).Text() == g.Name()
  {
  }
}
