/** The pattern IR of parse.py: a pattern is a tuple of `(tag, payload)` nodes.
    `('literal', c)` holds one character, `('union', (n1, n2, ...))` holds
    alternatives that are single nodes, `('star', (n1, ...))` holds a body that
    is itself a pattern, and any other tag is a node the matcher does not know.
    The `tag` of an `Unknown` node is meant to be none of "literal", "union"
    and "star": a tuple with one of those tags is one of the other three
    constructors. */
module PatternIR {

  datatype Node =
    | Literal(c: char)
    | Union(alts: seq<Node>)
    | Star(body: seq<Node>)
    | Unknown(tag: string)

  type Pattern = seq<Node>

  /** Number of nodes in the tree rooted at `n`, counting `n` itself. */
  function NodeSize(n: Node): (r: nat)
    ensures r >= 1
    decreases n, 1
  {
    match n
    case Literal(_) => 1
    case Unknown(_) => 1
    case Union(alts) => 1 + PatternSize(alts)
    case Star(body) => 1 + PatternSize(body)
  }

  /** Number of nodes in all the trees of a pattern. */
  function PatternSize(p: Pattern): (r: nat)
    decreases p, 0
  {
    if p == [] then 0 else NodeSize(p[0]) + PatternSize(p[1..])
  }

  /** A node of a pattern is no larger than the pattern, so a pattern made of
      one node of `p` is no larger than `p`. */
  lemma {:induction false} NodeWithinPattern(p: Pattern, k: nat)
    requires k < |p|
    ensures NodeSize(p[k]) <= PatternSize(p)
    ensures PatternSize([p[k]]) <= PatternSize(p)
  {
    assert PatternSize([p[k]]) == NodeSize(p[k]) + PatternSize([]);
    if k > 0 {
      NodeWithinPattern(p[1..], k - 1);
      assert p[1..][k - 1] == p[k];
    }
  }

  /** True when no node anywhere in the tree is of an unknown kind. */
  predicate KnownNode(n: Node)
    decreases n, 1
  {
    match n
    case Literal(_) => true
    case Unknown(_) => false
    case Union(alts) => KnownPattern(alts)
    case Star(body) => KnownPattern(body)
  }

  predicate KnownPattern(p: Pattern)
    decreases p, 0
  {
    p == [] || (KnownNode(p[0]) && KnownPattern(p[1..]))
  }
}
