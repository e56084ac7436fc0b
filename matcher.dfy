/** `matcher_aux` and `matcher` of parse.py: a loop over the nodes of a
    pattern that moves an input index `s_idx` and a pattern index `re_idx`,
    recursing into each union alternative and into each star body. The draft
    never reads the input and returns nothing; what it does observably is
    print one line per node kind it meets, which is modelled as a returned
    trace of events. */
module Matching {
  import opened PatternIR

  /** One printed line of the walk, in the order the source prints them. */
  datatype Event =
    | SawLiteral(c: char)           // "a literal: ..."
    | SawUnion(alts: seq<Node>)     // "the union for ever: ..."
    | SawAlternative(alt: Node)     // the alternative, printed before its recursive call
    | SawStar(body: seq<Node>)      // "the big star: ..."
    | SawUnknown(tag: string)       // "HOW COULD THIS HAPPEN?? ..."
    | Done                          // "done", printed when a call returns

  /** What one call leaves behind: the lines it printed and the values of its
      local `s_idx` and `re_idx` when its loop ended. */
  datatype Exit = Exit(trace: seq<Event>, sIdx: int, reIdx: nat)

  function Prepend(t: seq<Event>, e: Exit): Exit
  {
    Exit(t + e.trace, e.sIdx, e.reIdx)
  }

  lemma PrependTwice(a: seq<Event>, b: seq<Event>, e: Exit)
    ensures Prepend(a, Prepend(b, e)) == Prepend(a + b, e)
  {
    assert a + (b + e.trace) == (a + b) + e.trace;
  }

  // ---------------------------------------------------------------------
  // The walk as functions: the reference the methods are proved against.
  // ---------------------------------------------------------------------

  /** How far handling one node moves the input index: one for a literal,
      nothing for anything else. */
  function Advance(n: Node): nat
  {
    if n.Literal? then 1 else 0
  }

  /** The loop of `matcher_aux` from `re_idx == reIdx` on, without the final
      "done". A known node prints its lines and moves the pattern index by
      one (and the input index by `Advance`); an unknown tag prints its line
      and leaves the loop; reaching `reLen` leaves the loop. */
  function Steps(re: Pattern, sIdx: int, reIdx: nat, reLen: nat): (e: Exit)
    requires reIdx <= reLen <= |re|
    ensures reIdx <= e.reIdx <= reLen
    decreases PatternSize(re), 3, reLen - reIdx
  {
    if reIdx == reLen then Exit([], sIdx, reIdx)
    else if re[reIdx].Unknown? then Exit([SawUnknown(re[reIdx].tag)], sIdx, reIdx)
    else
      NodeWithinPattern(re, reIdx);
      Prepend(NodeTrace(re[reIdx], sIdx), Steps(re, sIdx + Advance(re[reIdx]), reIdx + 1, reLen))
  }

  /** The lines printed while handling one known node met at input index
      `sIdx`: a union prints itself and then each alternative with the lines
      of its recursive call; a star prints itself and then the lines of the
      one recursive call on its body. */
  function NodeTrace(n: Node, sIdx: int): (t: seq<Event>)
    requires !n.Unknown?
    decreases NodeSize(n), 2, 0
  {
    match n
    case Literal(c) => [SawLiteral(c)]
    case Union(alts) => [SawUnion(alts)] + AltTraces(alts, |alts|, sIdx)
    case Star(body) => [SawStar(body)] + Aux(body, sIdx, 0, |body|).trace
  }

  /** One pass of the loop over a known node. */
  lemma StepsKnown(re: Pattern, sIdx: int, reIdx: nat, reLen: nat)
    requires reIdx < reLen <= |re| && !re[reIdx].Unknown?
    ensures Steps(re, sIdx, reIdx, reLen)
         == Prepend(NodeTrace(re[reIdx], sIdx), Steps(re, sIdx + Advance(re[reIdx]), reIdx + 1, reLen))
  {
  }

  /** The loop invariant of `MatcherAux` survives handling one known node. */
  lemma StepTaken(re: Pattern, sIdx: int, reIdx: nat, reLen: nat, printed: seq<Event>, trace: seq<Event>, si: int, ri: nat)
    requires reIdx <= ri < reLen <= |re| && !re[ri].Unknown?
    requires Steps(re, sIdx, reIdx, reLen) == Prepend(printed, Steps(re, si, ri, reLen))
    requires trace == printed + NodeTrace(re[ri], si)
    ensures Steps(re, sIdx, reIdx, reLen) == Prepend(trace, Steps(re, si + Advance(re[ri]), ri + 1, reLen))
  {
    StepsKnown(re, si, ri, reLen);
    PrependTwice(printed, NodeTrace(re[ri], si), Steps(re, si + Advance(re[ri]), ri + 1, reLen));
  }

  /** One call of `matcher_aux`: the loop, then "done". */
  function Aux(re: Pattern, sIdx: int, reIdx: nat, reLen: nat): (e: Exit)
    requires reIdx <= reLen <= |re|
    decreases PatternSize(re), 4, 0
  {
    var e := Steps(re, sIdx, reIdx, reLen);
    Exit(e.trace + [Done], e.sIdx, e.reIdx)
  }

  /** The lines printed for the first `n` alternatives of a union met at input
      index `sIdx`: each alternative is printed, then walked as the one-node
      pattern `(r,)` from `re_idx = 0` with `re_len = 1`, starting at the same
      `sIdx`. */
  function AltTraces(alts: seq<Node>, n: nat, sIdx: int): (t: seq<Event>)
    requires n <= |alts|
    decreases PatternSize(alts), 5, n
  {
    if n == 0 then []
    else
      NodeWithinPattern(alts, n - 1);
      AltTraces(alts, n - 1, sIdx) + [SawAlternative(alts[n - 1])] + Aux([alts[n - 1]], sIdx, 0, 1).trace
  }

  // ---------------------------------------------------------------------
  // The source's code: a loop with recursive calls.
  // ---------------------------------------------------------------------

  /** `matcher_aux(s, re, s_idx, re_idx, s_len, re_len)`. The parameters `s`
      and `sLen` are passed along and never read. The ghost results are the
      final values of the locals `s_idx` and `re_idx`, which the source
      discards. */
  method MatcherAux(s: string, re: Pattern, sIdx: int, reIdx: nat, sLen: int, reLen: nat)
      returns (trace: seq<Event>, ghost sOut: int, ghost reOut: nat)
    requires reIdx <= reLen <= |re|
    ensures trace == Aux(re, sIdx, reIdx, reLen).trace
    ensures sOut == Aux(re, sIdx, reIdx, reLen).sIdx && reOut == Aux(re, sIdx, reIdx, reLen).reIdx
    ensures reIdx == reLen ==> trace == [Done] && sOut == sIdx && reOut == reIdx
    decreases PatternSize(re), 0
  {
    var si, ri := sIdx, reIdx;
    var done := false;
    trace := [];
    while !done
      invariant reIdx <= ri <= reLen
      invariant Steps(re, sIdx, reIdx, reLen) == Prepend(trace, Steps(re, si, ri, reLen))
      decreases reLen - ri
    {
      if ri == reLen {
        assert Steps(re, sIdx, reIdx, reLen) == Exit(trace, si, ri);
        break;
      }
      NodeWithinPattern(re, ri);
      ghost var printed := trace;
      match re[ri] {
        case Literal(c) =>
          trace := trace + [SawLiteral(c)];
          StepTaken(re, sIdx, reIdx, reLen, printed, trace, si, ri);
          si := si + 1;
          ri := ri + 1;
        case Union(alts) =>
          trace := trace + [SawUnion(alts)];
          var t := MatchAlternatives(s, alts, si, sLen);
          trace := trace + t;
          assert trace == printed + NodeTrace(re[ri], si) by {
            assert NodeTrace(re[ri], si) == [SawUnion(alts)] + t;
          }
          StepTaken(re, sIdx, reIdx, reLen, printed, trace, si, ri);
          ri := ri + 1;
        case Star(body) =>
          trace := trace + [SawStar(body)];
          var t;
          ghost var innerS, innerRe;
          t, innerS, innerRe := MatcherAux(s, body, si, 0, sLen, |body|);
          trace := trace + t;
          assert trace == printed + NodeTrace(re[ri], si) by {
            assert NodeTrace(re[ri], si) == [SawStar(body)] + t;
          }
          StepTaken(re, sIdx, reIdx, reLen, printed, trace, si, ri);
          ri := ri + 1;
        case Unknown(tag) =>
          trace := trace + [SawUnknown(tag)];
          assert Steps(re, sIdx, reIdx, reLen) == Exit(trace, si, ri);
          break;
      }
    }
    trace := trace + [Done];
    sOut, reOut := si, ri;
  }

  /** The `for r in cur_regex_expr` loop of a union: each alternative is
      printed and then walked as the one-node pattern `(r,)` from
      `re_idx = 0` with `re_len = 1`, every call starting from the same
      `sIdx`, whose changes stay local to the call. */
  method MatchAlternatives(s: string, alts: seq<Node>, sIdx: int, sLen: int) returns (trace: seq<Event>)
    ensures trace == AltTraces(alts, |alts|, sIdx)
    decreases PatternSize(alts), 1
  {
    trace := [];
    for k := 0 to |alts|
      invariant trace == AltTraces(alts, k, sIdx)
    {
      NodeWithinPattern(alts, k);
      var t;
      ghost var innerS, innerRe;
      t, innerS, innerRe := MatcherAux(s, [alts[k]], sIdx, 0, sLen, 1);
      trace := trace + [SawAlternative(alts[k])] + t;
    }
  }

  /** `matcher(s, re)`: the walk from indices 0/0 with `s_len = len(s)` and
      `re_len = len(re)`; no result value. */
  method Matcher(s: string, re: Pattern) returns (trace: seq<Event>, ghost sOut: int, ghost reOut: nat)
    ensures Exit(trace, sOut, reOut) == Aux(re, 0, 0, |re|)
    ensures reOut == StopIndex(re, 0, |re|)
    ensures sOut == CountLiterals(re[..reOut])
    ensures Visited(trace) == PreOrder(re)
  {
    trace, sOut, reOut := MatcherAux(s, re, 0, 0, |s|, |re|);
    StepsStop(re, 0, 0, |re|);
    AuxVisitsPreOrder(re, 0, 0, |re|);
    assert re[0..|re|] == re;
    assert re[0..reOut] == re[..reOut];
  }

  // ---------------------------------------------------------------------
  // Where the loop stops and where the input index ends up.
  // ---------------------------------------------------------------------

  /** The index of the first unknown node in `re[lo..hi]`, or `hi`. */
  function StopIndex(re: Pattern, lo: nat, hi: nat): (r: nat)
    requires lo <= hi <= |re|
    ensures lo <= r <= hi
    ensures r < hi ==> re[r].Unknown?
    ensures forall k :: lo <= k < r ==> !re[k].Unknown?
    decreases hi - lo
  {
    if lo == hi then hi
    else if re[lo].Unknown? then lo
    else StopIndex(re, lo + 1, hi)
  }

  /** The number of literal nodes at the top level of a pattern. */
  function CountLiterals(p: Pattern): (r: nat)
    ensures r <= |p|
    ensures r == |p| <==> (forall k :: 0 <= k < |p| ==> p[k].Literal?)
  {
    if p == [] then 0
    else (if p[0].Literal? then 1 else 0) + CountLiterals(p[1..])
  }

  /** The loop stops at the first unknown node or at `reLen`, and the input
      index has moved by one for each top-level literal before that point and
      by nothing for a union or a star: the recursive calls cannot move the
      caller's `s_idx`. */
  lemma {:induction false} StepsStop(re: Pattern, sIdx: int, reIdx: nat, reLen: nat)
    requires reIdx <= reLen <= |re|
    ensures Steps(re, sIdx, reIdx, reLen).reIdx == StopIndex(re, reIdx, reLen)
    ensures Steps(re, sIdx, reIdx, reLen).sIdx == sIdx + CountLiterals(re[reIdx..StopIndex(re, reIdx, reLen)])
    decreases reLen - reIdx
  {
    var stop := StopIndex(re, reIdx, reLen);
    if reIdx == reLen || re[reIdx].Unknown? {
      assert re[reIdx..stop] == [];
    } else {
      StepsStop(re, sIdx + Advance(re[reIdx]), reIdx + 1, reLen);
      assert re[reIdx..stop][1..] == re[reIdx + 1..stop];
    }
  }

  // ---------------------------------------------------------------------
  // The lines printed do not depend on the input index.
  // ---------------------------------------------------------------------

  lemma {:induction false} StepsTraceIgnoresInput(re: Pattern, s1: int, s2: int, reIdx: nat, reLen: nat)
    requires reIdx <= reLen <= |re|
    ensures Steps(re, s1, reIdx, reLen).trace == Steps(re, s2, reIdx, reLen).trace
    decreases PatternSize(re), 3, reLen - reIdx
  {
    if reIdx < reLen && !re[reIdx].Unknown? {
      var n := re[reIdx];
      NodeWithinPattern(re, reIdx);
      StepsKnown(re, s1, reIdx, reLen);
      StepsKnown(re, s2, reIdx, reLen);
      NodeTraceIgnoresInput(n, s1, s2);
      StepsTraceIgnoresInput(re, s1 + Advance(n), s2 + Advance(n), reIdx + 1, reLen);
    }
  }

  lemma {:induction false} NodeTraceIgnoresInput(n: Node, s1: int, s2: int)
    requires !n.Unknown?
    ensures NodeTrace(n, s1) == NodeTrace(n, s2)
    decreases NodeSize(n), 2, 0
  {
    match n
    case Literal(_) =>
    case Union(alts) => AltTracesIgnoreInput(alts, |alts|, s1, s2);
    case Star(body) => AuxTraceIgnoresInput(body, s1, s2, 0, |body|);
  }

  /** Whatever `s_idx` a call of `matcher_aux` starts from, it prints the same
      lines: the walk is the same for every input and every starting index. */
  lemma {:induction false} AuxTraceIgnoresInput(re: Pattern, s1: int, s2: int, reIdx: nat, reLen: nat)
    requires reIdx <= reLen <= |re|
    ensures Aux(re, s1, reIdx, reLen).trace == Aux(re, s2, reIdx, reLen).trace
    decreases PatternSize(re), 4, 0
  {
    StepsTraceIgnoresInput(re, s1, s2, reIdx, reLen);
  }

  lemma {:induction false} AltTracesIgnoreInput(alts: seq<Node>, n: nat, s1: int, s2: int)
    requires n <= |alts|
    ensures AltTraces(alts, n, s1) == AltTraces(alts, n, s2)
    decreases PatternSize(alts), 5, n
  {
    if n > 0 {
      NodeWithinPattern(alts, n - 1);
      AltTracesIgnoreInput(alts, n - 1, s1, s2);
      AuxTraceIgnoresInput([alts[n - 1]], s1, s2, 0, 1);
    }
  }

  // ---------------------------------------------------------------------
  // The nodes visited: a pre-order walk that stops at an unknown node.
  // ---------------------------------------------------------------------

  /** The node an event reports visiting, if any. */
  function Reported(e: Event): (v: seq<Node>)
    ensures |v| <= 1
  {
    match e
    case SawLiteral(c) => [Literal(c)]
    case SawUnion(alts) => [Union(alts)]
    case SawStar(body) => [Star(body)]
    case SawUnknown(tag) => [Unknown(tag)]
    case SawAlternative(_) => []
    case Done => []
  }

  /** The nodes a trace reports visiting, in order. */
  function Visited(t: seq<Event>): (v: seq<Node>)
    ensures |v| <= |t|
  {
    if t == [] then [] else Reported(t[0]) + Visited(t[1..])
  }

  lemma {:induction false} VisitedAppend(a: seq<Event>, b: seq<Event>)
    ensures Visited(a + b) == Visited(a) + Visited(b)
  {
    if a == [] {
      assert a + b == b;
    } else {
      assert (a + b)[0] == a[0];
      assert (a + b)[1..] == a[1..] + b;
      VisitedAppend(a[1..], b);
    }
  }

  /** Reference definition, independent of indices: the nodes of a pattern in
      pre-order, up to and including the first top-level unknown node of the
      pattern; an unknown node below a star or a union ends only its own
      sub-walk. */
  function PreOrder(p: Pattern): seq<Node>
    decreases PatternSize(p), 1
  {
    if p == [] then []
    else if p[0].Unknown? then [p[0]]
    else
      NodeWithinPattern(p, 0);
      [p[0]] + Inside(p[0]) + PreOrder(p[1..])
  }

  /** The nodes below a known node in pre-order. The alternatives of a union
      are separate patterns, so an unknown alternative ends only itself. */
  function Inside(n: Node): seq<Node>
    requires !n.Unknown?
    decreases NodeSize(n), 0
  {
    match n
    case Literal(_) => []
    case Union(alts) => PreOrderAlts(alts)
    case Star(body) => PreOrder(body)
  }

  function PreOrderAlts(alts: seq<Node>): seq<Node>
    decreases PatternSize(alts), 2
  {
    if alts == [] then []
    else
      NodeWithinPattern(alts, 0);
      PreOrder([alts[0]]) + PreOrderAlts(alts[1..])
  }

  lemma {:induction false} PreOrderAltsSnoc(alts: seq<Node>, n: nat)
    requires n < |alts|
    ensures PreOrderAlts(alts[..n + 1]) == PreOrderAlts(alts[..n]) + PreOrder([alts[n]])
  {
    if n > 0 {
      PreOrderAltsSnoc(alts[1..], n - 1);
      assert alts[..n + 1][1..] == alts[1..][..n];
      assert alts[..n][1..] == alts[1..][..n - 1];
      assert alts[1..][n - 1] == alts[n];
    } else {
      assert alts[..1] == [alts[0]];
      assert alts[..1][1..] == [];
    }
  }

  lemma {:induction false} StepsVisitsPreOrder(re: Pattern, sIdx: int, reIdx: nat, reLen: nat)
    requires reIdx <= reLen <= |re|
    ensures Visited(Steps(re, sIdx, reIdx, reLen).trace) == PreOrder(re[reIdx..reLen])
    decreases PatternSize(re), 3, reLen - reIdx
  {
    if reIdx < reLen {
      var n := re[reIdx];
      if n.Unknown? {
        assert re[reIdx..reLen][0] == n;
        assert Visited([SawUnknown(n.tag)]) == [n] by {
          assert [SawUnknown(n.tag)][1..] == [];
        }
      } else {
        NodeWithinPattern(re, reIdx);
        NodeTraceVisits(n, sIdx);
        StepsVisitsPreOrder(re, sIdx + Advance(n), reIdx + 1, reLen);
        KnownStepVisits(re, sIdx, reIdx, reLen);
      }
    }
  }

  /** The inductive step of `StepsVisitsPreOrder` for a known node. */
  lemma KnownStepVisits(re: Pattern, sIdx: int, reIdx: nat, reLen: nat)
    requires reIdx < reLen <= |re| && !re[reIdx].Unknown?
    requires Visited(NodeTrace(re[reIdx], sIdx)) == [re[reIdx]] + Inside(re[reIdx])
    requires Visited(Steps(re, sIdx + Advance(re[reIdx]), reIdx + 1, reLen).trace) == PreOrder(re[reIdx + 1..reLen])
    ensures Visited(Steps(re, sIdx, reIdx, reLen).trace) == PreOrder(re[reIdx..reLen])
  {
    var p, n := re[reIdx..reLen], re[reIdx];
    var rest := Steps(re, sIdx + Advance(n), reIdx + 1, reLen);
    StepsKnown(re, sIdx, reIdx, reLen);
    VisitedAppend(NodeTrace(n, sIdx), rest.trace);
    assert p[0] == n && p[1..] == re[reIdx + 1..reLen];
  }

  /** Handling a known node reports the node and then the nodes below it. */
  lemma {:induction false} NodeTraceVisits(n: Node, sIdx: int)
    requires !n.Unknown?
    ensures Visited(NodeTrace(n, sIdx)) == [n] + Inside(n)
    decreases NodeSize(n), 2, 0
  {
    match n
    case Literal(c) =>
      assert Visited([SawLiteral(c)]) == [n] by {
        assert [SawLiteral(c)][1..] == [];
      }
    case Union(alts) =>
      var inner := AltTraces(alts, |alts|, sIdx);
      AltTracesVisitPreOrder(alts, |alts|, sIdx);
      assert alts[..|alts|] == alts;
      VisitedAppend([SawUnion(alts)], inner);
      assert Visited([SawUnion(alts)]) == [n] by {
        assert [SawUnion(alts)][1..] == [];
      }
    case Star(body) =>
      var inner := Aux(body, sIdx, 0, |body|).trace;
      AuxVisitsPreOrder(body, sIdx, 0, |body|);
      assert body[0..|body|] == body;
      VisitedAppend([SawStar(body)], inner);
      assert Visited([SawStar(body)]) == [n] by {
        assert [SawStar(body)][1..] == [];
      }
  }

  /** A call of `matcher_aux` visits the nodes of `re[reIdx..reLen]` in
      pre-order, stopping at an unknown node: the index bookkeeping amounts
      to walking that slice. */
  lemma {:induction false} AuxVisitsPreOrder(re: Pattern, sIdx: int, reIdx: nat, reLen: nat)
    requires reIdx <= reLen <= |re|
    ensures Visited(Aux(re, sIdx, reIdx, reLen).trace) == PreOrder(re[reIdx..reLen])
    decreases PatternSize(re), 4, 0
  {
    StepsVisitsPreOrder(re, sIdx, reIdx, reLen);
    VisitedAppend(Steps(re, sIdx, reIdx, reLen).trace, [Done]);
  }

  /** A union visits its alternatives in the declared order, each one in full. */
  lemma {:induction false} AltTracesVisitPreOrder(alts: seq<Node>, n: nat, sIdx: int)
    requires n <= |alts|
    ensures Visited(AltTraces(alts, n, sIdx)) == PreOrderAlts(alts[..n])
    decreases PatternSize(alts), 5, n
  {
    if n > 0 {
      NodeWithinPattern(alts, n - 1);
      AltTracesVisitPreOrder(alts, n - 1, sIdx);
      AuxVisitsPreOrder([alts[n - 1]], sIdx, 0, 1);
      AltStepVisits(alts, n - 1, sIdx);
    } else {
      assert alts[..0] == [];
    }
  }

  /** The inductive step of `AltTracesVisitPreOrder`. */
  lemma AltStepVisits(alts: seq<Node>, k: nat, sIdx: int)
    requires k < |alts|
    requires Visited(AltTraces(alts, k, sIdx)) == PreOrderAlts(alts[..k])
    requires Visited(Aux([alts[k]], sIdx, 0, 1).trace) == PreOrder([alts[k]][0..1])
    ensures Visited(AltTraces(alts, k + 1, sIdx)) == PreOrderAlts(alts[..k + 1])
  {
    var t := AltTraces(alts, k, sIdx);
    var inner := Aux([alts[k]], sIdx, 0, 1).trace;
    var alt := [SawAlternative(alts[k])];
    assert [alts[k]][0..1] == [alts[k]];
    assert Visited(alt) == [] by {
      assert alt[1..] == [];
    }
    calc {
      Visited(AltTraces(alts, k + 1, sIdx));
      Visited(t + alt + inner);
      { VisitedAppend(t + alt, inner); }
      Visited(t + alt) + Visited(inner);
      { VisitedAppend(t, alt); assert Visited(t) + [] == Visited(t); }
      PreOrderAlts(alts[..k]) + PreOrder([alts[k]]);
      { PreOrderAltsSnoc(alts, k); }
      PreOrderAlts(alts[..k + 1]);
    }
  }

  // ---------------------------------------------------------------------
  // Consequences for the walk.
  // ---------------------------------------------------------------------

  /** No node after an unknown one is ever visited: the walk of a pattern is
      the walk of its prefix that ends with its first unknown node. */
  lemma {:induction false} UnknownEndsWalk(p: Pattern, k: nat)
    requires k < |p| && p[k].Unknown?
    ensures PreOrder(p) == PreOrder(p[..k + 1])
  {
    var q := p[..k + 1];
    assert q[0] == p[0];
    if k > 0 && !p[0].Unknown? {
      UnknownEndsWalk(p[1..], k - 1);
      assert q[1..] == p[1..][..k];
    }
  }

  /** In a pattern with no unknown node anywhere, the walk visits every node
      of every tree exactly as many times as there are nodes: a star's body is
      walked once, not repeated, and each alternative once. */
  lemma {:induction false} KnownWalkVisitsEveryNode(p: Pattern)
    requires KnownPattern(p)
    ensures |PreOrder(p)| == PatternSize(p)
    decreases PatternSize(p), 1
  {
    if p != [] {
      NodeWithinPattern(p, 0);
      KnownWalkVisitsEveryNode(p[1..]);
      match p[0]
      case Literal(_) =>
      case Union(alts) => KnownAltsVisitEveryNode(alts);
      case Star(body) => KnownWalkVisitsEveryNode(body);
    }
  }

  lemma {:induction false} KnownAltsVisitEveryNode(alts: seq<Node>)
    requires KnownPattern(alts)
    ensures |PreOrderAlts(alts)| == PatternSize(alts)
    decreases PatternSize(alts), 2
  {
    if alts != [] {
      NodeWithinPattern(alts, 0);
      assert KnownPattern([alts[0]]) by {
        assert [alts[0]][0] == alts[0] && [alts[0]][1..] == [];
      }
      assert PatternSize([alts[0]]) == NodeSize(alts[0]) by {
        assert [alts[0]][1..] == [];
      }
      KnownWalkVisitsEveryNode([alts[0]]);
      KnownAltsVisitEveryNode(alts[1..]);
    }
  }
}
