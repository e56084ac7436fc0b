/** The example patterns built by the script at the bottom of parse.py, and
    what the walk does with them. */
module SourceExamples {
  import opened PatternIR
  import opened Matching

  /** `re = (('literal', 'a'), ('union', (('literal', 'd'), ('literal', 'e'))))`, i.e. a(d|e). */
  function ReAde(): Pattern
  {
    [Literal('a'), Union([Literal('d'), Literal('e')])]
  }

  /** `re2`, i.e. f(qp)*. */
  function Re2(): Pattern
  {
    [Literal('f'), Star([Literal('q'), Literal('p')])]
  }

  /** `re3`, i.e. (ab)*(p|q)(x|y)*z. */
  function Re3(): Pattern
  {
    [ Star([Literal('a'), Literal('b')]),
      Union([Literal('p'), Literal('q')]),
      Star([Union([Literal('x'), Literal('y')])]),
      Literal('z') ]
  }

  /** The nodes of re3 in pre-order: every node once. */
  function Re3Nodes(): seq<Node>
  {
    [ Star([Literal('a'), Literal('b')]), Literal('a'), Literal('b'),
      Union([Literal('p'), Literal('q')]), Literal('p'), Literal('q'),
      Star([Union([Literal('x'), Literal('y')])]), Union([Literal('x'), Literal('y')]),
      Literal('x'), Literal('y'),
      Literal('z') ]
  }

  lemma PairWalk(c: char, d: char)
    ensures PreOrder([Literal(c), Literal(d)]) == [Literal(c), Literal(d)]
    ensures PreOrderAlts([Literal(c), Literal(d)]) == [Literal(c), Literal(d)]
  {
    var p := [Literal(c), Literal(d)];
    assert p[1..] == [Literal(d)];
    assert [Literal(d)][1..] == [];
    assert PreOrder([Literal(d)]) == [Literal(d)];
    assert [Literal(c)][1..] == [];
    assert PreOrder([Literal(c)]) == [Literal(c)];
    assert PreOrderAlts([Literal(d)]) == [Literal(d)];
  }

  /** a(d|e): the literal, then the union and each alternative in order. */
  lemma ReAdeWalk()
    ensures PreOrder(ReAde()) == [Literal('a'), Union([Literal('d'), Literal('e')]), Literal('d'), Literal('e')]
  {
    var de := Union([Literal('d'), Literal('e')]);
    PairWalk('d', 'e');
    assert [de][1..] == [];
    assert PreOrder([de]) == [de, Literal('d'), Literal('e')];
    assert ReAde()[1..] == [de];
  }

  /** f(qp)*: the literal, then the star and its body once, not repeated. */
  lemma Re2Walk()
    ensures PreOrder(Re2()) == [Literal('f'), Star([Literal('q'), Literal('p')]), Literal('q'), Literal('p')]
  {
    var qp := Star([Literal('q'), Literal('p')]);
    PairWalk('q', 'p');
    assert [qp][1..] == [];
    assert PreOrder([qp]) == [qp, Literal('q'), Literal('p')];
    assert Re2()[1..] == [qp];
  }

  /** The walk of the last two nodes of re3, `(x|y)*z`. */
  lemma StarTailWalk()
    ensures PreOrder([Star([Union([Literal('x'), Literal('y')])]), Literal('z')])
         == [ Star([Union([Literal('x'), Literal('y')])]), Union([Literal('x'), Literal('y')]),
              Literal('x'), Literal('y'), Literal('z') ]
  {
    var xy := Union([Literal('x'), Literal('y')]);
    PairWalk('x', 'y');
    assert [Literal('z')][1..] == [];
    assert PreOrder([Literal('z')]) == [Literal('z')];
    assert [xy][1..] == [];
    assert PreOrder([xy]) == [xy, Literal('x'), Literal('y')];
    assert [Star([xy]), Literal('z')][1..] == [Literal('z')];
  }

  /** The walk of the last three nodes of re3, `(p|q)(x|y)*z`. */
  lemma UnionTailWalk()
    ensures PreOrder([ Union([Literal('p'), Literal('q')]),
                       Star([Union([Literal('x'), Literal('y')])]), Literal('z') ])
         == Re3Nodes()[3..]
  {
    PairWalk('p', 'q');
    StarTailWalk();
    assert [ Union([Literal('p'), Literal('q')]),
             Star([Union([Literal('x'), Literal('y')])]), Literal('z') ][1..]
        == [Star([Union([Literal('x'), Literal('y')])]), Literal('z')];
  }

  lemma Re3Walk()
    ensures PreOrder(Re3()) == Re3Nodes()
  {
    var re := Re3();
    PairWalk('a', 'b');
    UnionTailWalk();
    assert re[1..] == [ Union([Literal('p'), Literal('q')]),
                        Star([Union([Literal('x'), Literal('y')])]), Literal('z') ];
  }

  lemma Re3Literals()
    ensures |Re3()| == 4
    ensures StopIndex(Re3(), 0, 4) == 4
    ensures CountLiterals(Re3()[..4]) == 1
  {
    var re := Re3();
    assert re[..4] == re;
    assert re[1..][1..][1..][1..] == [];
    assert CountLiterals(re[1..][1..][1..]) == 1;
  }

  /** The script's one call, `matcher('', re3)`. Every node of re3 is
      visited once, in pre-order; the loop ends at the end of the pattern;
      the input index ends at 1, past the end of the empty input, because the
      one top-level literal `z` moved it and nothing checks it against
      `s_len`. */
  method DriverRun() returns (trace: seq<Event>, ghost sOut: int, ghost reOut: nat)
    ensures Visited(trace) == Re3Nodes()
    ensures reOut == 4
    ensures sOut == 1 && sOut > |""|
  {
    Re3Walk();
    Re3Literals();
    trace, sOut, reOut := Matcher("", Re3());
  }

  /** An unknown alternative ends only its own recursive call: the union goes
      on with its next alternative, and the enclosing pattern with its next
      node. */
  lemma UnknownAlternativeEndsOnlyItself()
    ensures PreOrder([Union([Unknown("x"), Literal('a')]), Literal('b')])
         == [Union([Unknown("x"), Literal('a')]), Unknown("x"), Literal('a'), Literal('b')]
  {
    var alts := [Unknown("x"), Literal('a')];
    assert alts[1..] == [Literal('a')];
    assert PreOrderAlts(alts) == [Unknown("x"), Literal('a')];
  }

  /** An unknown node in a star's body ends the body's walk; the caller goes
      on with the node after the star. */
  lemma UnknownInStarBodyEndsOnlyTheBody()
    ensures PreOrder([Star([Unknown("x"), Literal('a')]), Literal('b')])
         == [Star([Unknown("x"), Literal('a')]), Unknown("x"), Literal('b')]
  {
    var p := [Star([Unknown("x"), Literal('a')]), Literal('b')];
    assert p[1..] == [Literal('b')];
  }
}
