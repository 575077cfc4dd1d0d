/** Whose steps a trace holds. */
module Traces {

  /** The steps of one actor, in order. */
  function Own<S>(trace: seq<S>, mine: S -> bool): seq<S> {
    if trace == [] then []
    else Own(trace[..|trace| - 1], mine) + if mine(trace[|trace| - 1]) then [trace[|trace| - 1]] else []
  }

  lemma OwnMore<S>(trace: seq<S>, step: S, mine: S -> bool)
    ensures Own(trace + [step], mine) == Own(trace, mine) + if mine(step) then [step] else []
  {
    assert (trace + [step])[..|trace|] == trace;
  }

  /** What others do in between adds nothing. */
  lemma {:induction false} OwnOthers<S>(trace: seq<S>, later: seq<S>, mine: S -> bool)
    requires trace <= later && forall step :: step in later[|trace|..] ==> !mine(step)
    ensures Own(later, mine) == Own(trace, mine)
    decreases |later|
  {
    if trace != later {
      var front, last := later[..|later| - 1], later[|later| - 1];
      assert later[|trace|..] == front[|trace|..] + [last];
      OwnOthers(trace, front, mine);
    }
  }
}
