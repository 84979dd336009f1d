/** Matching what was recognised against the local actions (src/HuoshanEngine.hpp:410-476). */
module LocalAi {
  import opened Common
  import opened Words

  /** Whether a pattern matches a text; compiling or running the regular expression can throw. */
  datatype MatchAnswer = Matches | NoMatch | MatchThrows

  type Regex = (Bytes, Bytes) -> MatchAnswer

  datatype LocalAction = LocalAction(name: Bytes, patterns: seq<Bytes>, function_: Bytes, params: Bytes,
                                     replysp: seq<Bytes>, replysn: seq<Bytes>)

  const NO_ACTION := LocalAction([], [], [], [], [], [])

  /** The first answer that is not `NoMatch` decides. */
  function FirstAnswer(answers: seq<MatchAnswer>): MatchAnswer {
    if answers == [] then NoMatch
    else if answers[0].NoMatch? then FirstAnswer(answers[1..])
    else answers[0]
  }

  function Answers(regex: Regex, action: LocalAction, text: Bytes): (r: seq<MatchAnswer>)
    ensures |r| == |action.patterns| && forall i | 0 <= i < |r| :: r[i] == regex(action.patterns[i], text)
  {
    seq(|action.patterns|, i requires 0 <= i < |action.patterns| => regex(action.patterns[i], text))
  }

  function MatchOf(regex: Regex, action: LocalAction, text: Bytes): MatchAnswer {
    FirstAnswer(Answers(regex, action, text))
  }

  /** `None` is an exception; an action with an empty name stands for "none matched". */
  function ActionFor(regex: Regex, actions: seq<LocalAction>, text: Bytes): Option<LocalAction> {
    if actions == [] then Some(NO_ACTION) else
    match MatchOf(regex, actions[0], text)
    case Matches => Some(actions[0])
    case NoMatch => ActionFor(regex, actions[1..], text)
    case MatchThrows => None
  }

  /** The action found is the first, in load order, with any pattern that matches. */
  lemma {:induction false} ActionForIsFirst(regex: Regex, actions: seq<LocalAction>, text: Bytes, i: nat)
    requires i < |actions| && !MatchOf(regex, actions[i], text).NoMatch?
    requires forall j | 0 <= j < i :: MatchOf(regex, actions[j], text).NoMatch?
    ensures ActionFor(regex, actions, text) ==
            if MatchOf(regex, actions[i], text).Matches? then Some(actions[i]) else None
  {
    if i > 0 {
      assert actions[1..][i - 1] == actions[i];
      forall j | 0 <= j < i - 1
        ensures MatchOf(regex, actions[1..][j], text).NoMatch?
      {
        assert actions[1..][j] == actions[j + 1];
      }
      ActionForIsFirst(regex, actions[1..], text, i - 1);
    }
  }

  lemma {:induction false} ActionForNone(regex: Regex, actions: seq<LocalAction>, text: Bytes)
    requires forall j | 0 <= j < |actions| :: MatchOf(regex, actions[j], text).NoMatch?
    ensures ActionFor(regex, actions, text) == Some(NO_ACTION)
  {
    if actions != [] {
      forall j | 0 <= j < |actions| - 1
        ensures MatchOf(regex, actions[1..][j], text).NoMatch?
      {
        assert actions[1..][j] == actions[j + 1];
      }
      ActionForNone(regex, actions[1..], text);
    }
  }

  /** The text asks for action `i`: one of its patterns matches, none of its earlier ones does or throws, and no pattern
      of an action loaded before it does. */
  ghost predicate AsksFor(regex: Regex, actions: seq<LocalAction>, text: Bytes, i: nat) {
    && i < |actions|
    && (exists p: nat :: DecidesAt(regex, actions[i], text, p))
    && forall k, q | 0 <= k < i && 0 <= q < |actions[k].patterns| :: regex(actions[k].patterns[q], text).NoMatch?
  }

  ghost predicate DecidesAt(regex: Regex, action: LocalAction, text: Bytes, p: nat) {
    && p < |action.patterns| && regex(action.patterns[p], text).Matches?
    && forall q | 0 <= q < p :: regex(action.patterns[q], text).NoMatch?
  }

  lemma DecidesIff(regex: Regex, action: LocalAction, text: Bytes)
    ensures MatchOf(regex, action, text).Matches? <==> exists p: nat :: DecidesAt(regex, action, text, p)
    ensures MatchOf(regex, action, text).NoMatch? <==>
              forall q | 0 <= q < |action.patterns| :: regex(action.patterns[q], text).NoMatch?
  {
    var answers := Answers(regex, action, text);
    var d := FirstDecision(answers);
    if MatchOf(regex, action, text).Matches? {
      assert DecidesAt(regex, action, text, d);
    }
    if p: nat :| DecidesAt(regex, action, text, p) {
      FirstAnswerSkips(answers, p);
    }
  }

  lemma {:induction false} FirstDecision(answers: seq<MatchAnswer>) returns (d: nat)
    ensures d <= |answers| && forall q | 0 <= q < d :: answers[q].NoMatch?
    ensures FirstAnswer(answers) == if d == |answers| then NoMatch else answers[d]
    ensures d < |answers| ==> !answers[d].NoMatch?
  {
    d := 0;
    if answers != [] && answers[0].NoMatch? {
      var d' := FirstDecision(answers[1..]);
      d := d' + 1;
      assert forall q | 1 <= q < |answers| :: answers[q] == answers[1..][q - 1];
    }
  }

  lemma AskedForIsFound(regex: Regex, actions: seq<LocalAction>, text: Bytes, i: nat)
    requires AsksFor(regex, actions, text, i)
    ensures ActionFor(regex, actions, text) == Some(actions[i])
  {
    DecidesIff(regex, actions[i], text);
    forall k | 0 <= k < i
      ensures MatchOf(regex, actions[k], text).NoMatch?
    {
      DecidesIff(regex, actions[k], text);
    }
    ActionForIsFirst(regex, actions, text, i);
  }

  lemma {:induction false} FoundIsAskedFor(regex: Regex, actions: seq<LocalAction>, text: Bytes) returns (i: nat)
    requires ActionFor(regex, actions, text).Some? && ActionFor(regex, actions, text).value.name != []
    ensures AsksFor(regex, actions, text, i) && ActionFor(regex, actions, text) == Some(actions[i])
  {
    hide MatchOf;
    DecidesIff(regex, actions[0], text);
    if MatchOf(regex, actions[0], text).Matches? {
      i := 0;
    } else {
      var i' := FoundIsAskedFor(regex, actions[1..], text);
      i := i' + 1;
      assert actions[i] == actions[1..][i'];
      assert forall k | 1 <= k < i :: actions[k] == actions[1..][k - 1];
    }
  }

  lemma FirstAnswerSkips(answers: seq<MatchAnswer>, i: nat)
    requires i <= |answers| && forall j | 0 <= j < i :: answers[j].NoMatch?
    ensures FirstAnswer(answers) == FirstAnswer(answers[i..])
  {
    if i == 0 {
      assert answers[0..] == answers;
    } else {
      FirstAnswerSkips(answers[1..], i - 1);
      assert answers[1..][i - 1..] == answers[i..];
    }
  }

  /** `LocalAction::Match`: tries the patterns in order. */
  method Match(regex: Regex, action: LocalAction, text: Bytes) returns (r: MatchAnswer)
    ensures r == MatchOf(regex, action, text)
    ensures r.Matches? <==> exists i | 0 <= i < |action.patterns| ::
              regex(action.patterns[i], text).Matches? && forall j | 0 <= j < i :: regex(action.patterns[j], text).NoMatch?
  {
    var n := |action.patterns|;
    ghost var answers := Answers(regex, action, text);
    var i := 0;
    while i < n
      invariant i <= n && forall j | 0 <= j < i :: regex(action.patterns[j], text).NoMatch?
    {
      FirstAnswerSkips(answers, i);
      r := regex(action.patterns[i], text);
      if !r.NoMatch? {
        return;
      }
      i := i + 1;
    }
    FirstAnswerSkips(answers, n);
    r := NoMatch;
  }

  /** `LocalAi::MatchAction`: tries the actions in load order. */
  method MatchAction(regex: Regex, actions: seq<LocalAction>, text: Bytes) returns (r: Option<LocalAction>)
    ensures r == ActionFor(regex, actions, text)
  {
    var i := 0;
    while i < |actions|
      invariant i <= |actions| && forall j | 0 <= j < i :: MatchOf(regex, actions[j], text).NoMatch?
    {
      var m := Match(regex, actions[i], text);
      if !m.NoMatch? {
        ActionForIsFirst(regex, actions, text, i);
        return if m.Matches? then Some(actions[i]) else None;
      }
      i := i + 1;
    }
    ActionForNone(regex, actions, text);
    r := Some(NO_ACTION);
  }
}
