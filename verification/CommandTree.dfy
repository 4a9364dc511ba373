/**
 * The command tree (src/command/command.c): commands with names, aliases, children and a parent, kept in
 * an arena and linked by position.
 */
module CommandTree {
  import opened Common

  datatype Node = Node(name: string, aliases: seq<string>, children: seq<nat>, parent: Option<nat>)

  /** nom_correspond: the name of the command or one of its aliases. */
  predicate Answers(n: Node, id: string) {
    id == n.name || id in n.aliases
  }

  /** No identifier belongs to both. */
  ghost predicate Disjoint(a: Node, b: Node) {
    forall id :: !(Answers(a, id) && Answers(b, id))
  }

  predicate IsChild(nodes: seq<Node>, p: nat, c: nat) {
    c < |nodes| && nodes[c].parent == Some(p)
  }

  predicate NoRepeat(s: seq<nat>) {
    forall i, j :: 0 <= i < j < |s| ==> s[i] != s[j]
  }

  /** Parents and children agree, and each child is listed once. */
  ghost predicate Linked(nodes: seq<Node>) {
    && (forall p, k :: 0 <= p < |nodes| && 0 <= k < |nodes[p].children| ==> IsChild(nodes, p, nodes[p].children[k]))
    && (forall c: nat, p: nat :: IsChild(nodes, p, c) ==> p < |nodes| && c in nodes[p].children)
    && (forall p :: 0 <= p < |nodes| ==> NoRepeat(nodes[p].children))
  }

  /** No identifier is empty, and two children of the same command share none. */
  ghost predicate WellNamed(nodes: seq<Node>) {
    && (forall c :: 0 <= c < |nodes| ==> !Answers(nodes[c], ""))
    && (forall p: nat, c: nat, d: nat :: IsChild(nodes, p, c) && IsChild(nodes, p, d) && c != d ==>
          Disjoint(nodes[c], nodes[d]))
  }

  /** There is no cycle: ranks grow from parent to child. */
  ghost predicate Ranked(nodes: seq<Node>, rank: seq<nat>) {
    && |rank| == |nodes|
    && forall c :: 0 <= c < |nodes| && nodes[c].parent.Some? ==>
         nodes[c].parent.value < |nodes| && rank[nodes[c].parent.value] < rank[c]
  }

  /** The top of the tree a command is in. */
  ghost function Root(nodes: seq<Node>, rank: seq<nat>, i: nat): (r: nat)
    requires Ranked(nodes, rank) && i < |nodes|
    ensures r < |nodes| && nodes[r].parent.None?
    decreases rank[i]
  {
    if nodes[i].parent.None? then i else Root(nodes, rank, nodes[i].parent.value)
  }

  /** `j` is `a` or below it. */
  ghost predicate Under(nodes: seq<Node>, rank: seq<nat>, a: nat, j: nat)
    requires Ranked(nodes, rank) && j < |nodes|
    decreases rank[j]
  {
    j == a || (nodes[j].parent.Some? && Under(nodes, rank, a, nodes[j].parent.value))
  }

  /** The first child that answers to a name, if any. */
  function ChildNamed(nodes: seq<Node>, children: seq<nat>, id: string): (c: Option<nat>)
    ensures c.Some? ==> c.value in children && c.value < |nodes| && Answers(nodes[c.value], id)
    ensures c.None? ==> forall k :: 0 <= k < |children| && children[k] < |nodes| ==> !Answers(nodes[children[k]], id)
  {
    if children == [] then None
    else if children[0] < |nodes| && Answers(nodes[children[0]], id) then Some(children[0])
    else ChildNamed(nodes, children[1..], id)
  }

  /** In a well-linked, well-named forest, the child that answers is the only one. */
  lemma ChildIsUnique(nodes: seq<Node>, p: nat, id: string, c: nat)
    requires Linked(nodes) && WellNamed(nodes) && p < |nodes|
    ensures ChildNamed(nodes, nodes[p].children, id) == Some(c) <==> IsChild(nodes, p, c) && Answers(nodes[c], id)
  {
    var found := ChildNamed(nodes, nodes[p].children, id);
    if found.Some? {
      var k :| 0 <= k < |nodes[p].children| && nodes[p].children[k] == found.value;
      assert IsChild(nodes, p, found.value);
    }
  }

  // ---------------------------------------------------------------------
  // Adding a child
  // ---------------------------------------------------------------------

  function Attached(nodes: seq<Node>, p: nat, c: nat): seq<Node>
    requires p < |nodes| && c < |nodes| && p != c
  {
    nodes[p := nodes[p].(children := nodes[p].children + [c])][c := nodes[c].(parent := Some(p))]
  }

  /** The conditions under which a command may become a child. */
  ghost predicate Attachable(nodes: seq<Node>, rank: seq<nat>, p: nat, c: nat)
    requires Ranked(nodes, rank) && p < |nodes| && c < |nodes|
  {
    && p != c
    && nodes[c].parent.None?
    && !Under(nodes, rank, c, p)
    && forall d: nat :: IsChild(nodes, p, d) ==> Disjoint(nodes[c], nodes[d])
  }

  lemma AttachedChildren(nodes: seq<Node>, p: nat, c: nat)
    requires p < |nodes| && c < |nodes| && p != c && nodes[c].parent.None?
    ensures forall q: nat, d: nat :: IsChild(Attached(nodes, p, c), q, d) <==> IsChild(nodes, q, d) || (q == p && d == c)
    ensures forall q :: 0 <= q < |nodes| ==>
              Attached(nodes, p, c)[q].children == if q == p then nodes[p].children + [c] else nodes[q].children
    ensures forall q :: 0 <= q < |nodes| ==>
              forall id :: Answers(Attached(nodes, p, c)[q], id) <==> Answers(nodes[q], id)
  {
  }

  lemma AttachedFields(nodes: seq<Node>, p: nat, c: nat)
    requires p < |nodes| && c < |nodes| && p != c
    ensures var after := Attached(nodes, p, c);
            && |after| == |nodes| && after[c].parent == Some(p) && after[p].children == nodes[p].children + [c]
            && (forall d, id :: 0 <= d < |nodes| ==> (Answers(after[d], id) <==> Answers(nodes[d], id)))
            && (forall d :: 0 <= d < |nodes| && d != c ==> after[d].parent == nodes[d].parent)
            && (forall d :: 0 <= d < |nodes| && d != p ==> after[d].children == nodes[d].children)
  {
  }

  lemma AttachedIsLinked(nodes: seq<Node>, p: nat, c: nat)
    requires Linked(nodes) && p < |nodes| && c < |nodes| && p != c && nodes[c].parent.None?
    ensures Linked(Attached(nodes, p, c))
  {
    var after := Attached(nodes, p, c);
    AttachedChildren(nodes, p, c);
    hide Attached, IsChild;
    OnlyChildrenListed(nodes, p, c);
    assert NoRepeat(nodes[p].children + [c]);
    hide NoRepeat;
    forall d: nat, q: nat | IsChild(after, q, d)
      ensures q < |after| && d in after[q].children
    {
      if q == p && d == c {
        assert after[p].children[|nodes[p].children|] == c;
      } else {
        var k :| 0 <= k < |nodes[q].children| && nodes[q].children[k] == d;
        assert after[q].children[k] == d;
      }
    }
  }

  lemma OnlyChildrenListed(nodes: seq<Node>, p: nat, c: nat)
    requires Linked(nodes) && p < |nodes| && c < |nodes| && nodes[c].parent.None?
    ensures c !in nodes[p].children
  {
  }

  lemma AttachedIsWellNamed(nodes: seq<Node>, p: nat, c: nat)
    requires WellNamed(nodes) && p < |nodes| && c < |nodes| && p != c && nodes[c].parent.None?
    requires forall d: nat :: IsChild(nodes, p, d) ==> Disjoint(nodes[c], nodes[d])
    ensures WellNamed(Attached(nodes, p, c))
  {
    var after := Attached(nodes, p, c);
    AttachedChildren(nodes, p, c);
    hide Attached, Answers;
    forall q: nat, d: nat, e: nat | IsChild(after, q, d) && IsChild(after, q, e) && d != e
      ensures Disjoint(after[d], after[e])
    {
      if d == c && q == p {
        assert IsChild(nodes, p, e);
      } else if e == c && q == p {
        assert IsChild(nodes, p, d);
      } else {
        assert Disjoint(nodes[d], nodes[e]);
      }
    }
  }

  lemma {:induction false} UnderRoot(nodes: seq<Node>, rank: seq<nat>, c: nat, j: nat)
    requires Ranked(nodes, rank) && c < |nodes| && j < |nodes| && nodes[c].parent.None?
    ensures Under(nodes, rank, c, j) <==> Root(nodes, rank, j) == c
    decreases rank[j]
  {
    if nodes[j].parent.Some? {
      UnderRoot(nodes, rank, c, nodes[j].parent.value);
    }
  }

  /** Ranks after an attachment: the whole tree of the child moves below its new parent. */
  ghost function Moved(nodes: seq<Node>, rank: seq<nat>, p: nat, c: nat): seq<nat>
    requires Ranked(nodes, rank) && p < |nodes| && c < |nodes|
  {
    seq(|nodes|, i requires 0 <= i < |nodes| => if Root(nodes, rank, i) == c then rank[i] + rank[p] + 1 else rank[i])
  }

  lemma AttachedIsRanked(nodes: seq<Node>, rank: seq<nat>, p: nat, c: nat)
    requires Linked(nodes) && Ranked(nodes, rank) && p < |nodes| && c < |nodes|
    requires Attachable(nodes, rank, p, c)
    ensures Ranked(Attached(nodes, p, c), Moved(nodes, rank, p, c))
  {
    var after, moved := Attached(nodes, p, c), Moved(nodes, rank, p, c);
    UnderRoot(nodes, rank, c, p);
    forall d | 0 <= d < |after| && after[d].parent.Some?
      ensures after[d].parent.value < |after| && moved[after[d].parent.value] < moved[d]
    {
      if d != c {
        assert after[d].parent == nodes[d].parent;
      }
    }
  }

  lemma {:induction false} UnderHasRank(nodes: seq<Node>, rank: seq<nat>, after: seq<Node>, ranks: seq<nat>, c: nat, j: nat)
    requires Ranked(nodes, rank) && Ranked(after, ranks) && |after| == |nodes|
    requires forall i :: 0 <= i < |nodes| && nodes[i].parent.Some? ==> after[i].parent == nodes[i].parent
    requires c < |nodes| && j < |nodes| && Under(nodes, rank, c, j)
    ensures ranks[c] <= ranks[j]
    decreases rank[j]
  {
    if j != c {
      UnderHasRank(nodes, rank, after, ranks, c, nodes[j].parent.value);
    }
  }

  /** The refusals are exactly those needed: attaching a command without parent keeps the forest sound iff it is allowed. */
  lemma AttachIsSoundIff(nodes: seq<Node>, rank: seq<nat>, p: nat, c: nat)
    requires Linked(nodes) && WellNamed(nodes) && Ranked(nodes, rank)
    requires p < |nodes| && c < |nodes| && p != c && nodes[c].parent.None?
    ensures Attachable(nodes, rank, p, c) <==>
              Linked(Attached(nodes, p, c)) && WellNamed(Attached(nodes, p, c)) && exists r :: Ranked(Attached(nodes, p, c), r)
  {
    var after := Attached(nodes, p, c);
    AttachedChildren(nodes, p, c);
    if Attachable(nodes, rank, p, c) {
      AttachedIsLinked(nodes, p, c);
      AttachedIsWellNamed(nodes, p, c);
      AttachedIsRanked(nodes, rank, p, c);
    } else if Linked(after) && WellNamed(after) && exists r :: Ranked(after, r) {
      var r :| Ranked(after, r);
      if Under(nodes, rank, c, p) {
        UnderHasRank(nodes, rank, after, r, c, p);
      }
      forall d: nat | IsChild(nodes, p, d)
        ensures Disjoint(nodes[c], nodes[d])
      {
        assert IsChild(after, p, c) && IsChild(after, p, d);
        assert Disjoint(after[c], after[d]);
      }
      assert false;
    }
  }

  // ---------------------------------------------------------------------
  // Adding an alias
  // ---------------------------------------------------------------------

  function Aliased(nodes: seq<Node>, c: nat, alias: string): seq<Node>
    requires c < |nodes|
  {
    nodes[c := nodes[c].(aliases := nodes[c].aliases + [alias])]
  }

  /** The command then answers to exactly one identifier more, the others to what they did, and no link changes. */
  lemma AliasedAnswers(nodes: seq<Node>, c: nat, alias: string)
    requires c < |nodes|
    ensures var after := Aliased(nodes, c, alias);
            && |after| == |nodes|
            && (forall d, id :: 0 <= d < |nodes| ==>
                  (Answers(after[d], id) <==> Answers(nodes[d], id) || (d == c && id == alias)))
            && (forall d :: 0 <= d < |nodes| ==>
                  after[d].children == nodes[d].children && after[d].parent == nodes[d].parent && after[d].name == nodes[d].name)
  {
  }

  /** The alias is new to the command and to its sisters. */
  ghost predicate AliasAllowed(nodes: seq<Node>, c: nat, alias: string)
    requires c < |nodes|
  {
    && alias != "" && !Answers(nodes[c], alias)
    && forall p: nat, d: nat :: IsChild(nodes, p, c) && IsChild(nodes, p, d) && d != c ==> !Answers(nodes[d], alias)
  }

  lemma AliasedIsSound(nodes: seq<Node>, rank: seq<nat>, c: nat, alias: string)
    requires Linked(nodes) && WellNamed(nodes) && Ranked(nodes, rank) && c < |nodes| && AliasAllowed(nodes, c, alias)
    ensures Linked(Aliased(nodes, c, alias)) && WellNamed(Aliased(nodes, c, alias)) && Ranked(Aliased(nodes, c, alias), rank)
  {
    var after := Aliased(nodes, c, alias);
    assert forall p: nat, d: nat :: IsChild(after, p, d) <==> IsChild(nodes, p, d);
    assert forall p :: 0 <= p < |nodes| ==> after[p].children == nodes[p].children;
    assert forall d :: 0 <= d < |nodes| ==>
        forall id :: Answers(after[d], id) <==> Answers(nodes[d], id) || (d == c && id == alias);
    assert Linked(after);
    hide Answers, Linked, Aliased;
    forall p: nat, d: nat, e: nat | IsChild(after, p, d) && IsChild(after, p, e) && d != e
      ensures Disjoint(after[d], after[e])
    {
      assert IsChild(nodes, p, d) && IsChild(nodes, p, e);
      assert Disjoint(nodes[d], nodes[e]);
    }
  }

  // ---------------------------------------------------------------------
  // Clearing a tree
  // ---------------------------------------------------------------------

  function Blank(n: Node): Node {
    Node(n.name, [], [], None)
  }

  /** A cleared command answers to its name only, and is linked to nothing. */
  lemma BlankAnswers(n: Node)
    ensures forall id :: Answers(Blank(n), id) <==> id == n.name
    ensures Blank(n).parent == None && forall c :: c !in Blank(n).children
  {
  }

  /** Every command under `a` is blank, the others are as they were. */
  ghost predicate ClearedFrom(nodes: seq<Node>, rank: seq<nat>, a: nat, after: seq<Node>)
    requires Ranked(nodes, rank) && a < |nodes|
  {
    && |after| == |nodes|
    && forall j :: 0 <= j < |nodes| ==> after[j] == if Under(nodes, rank, a, j) then Blank(nodes[j]) else nodes[j]
  }

  lemma {:induction false} UnderGoesDown(nodes: seq<Node>, rank: seq<nat>, a: nat, j: nat)
    requires Ranked(nodes, rank) && a < |nodes| && j < |nodes| && Under(nodes, rank, a, j)
    ensures a == j || rank[a] < rank[j]
    decreases rank[j]
  {
    if j != a {
      UnderGoesDown(nodes, rank, a, nodes[j].parent.value);
    }
  }

  /** Below `a`, every command is under exactly one child of `a`. */
  lemma {:induction false} UnderOneChild(nodes: seq<Node>, rank: seq<nat>, a: nat, j: nat)
    requires Linked(nodes) && Ranked(nodes, rank) && a < |nodes| && j < |nodes|
    ensures Under(nodes, rank, a, j) <==> j == a || exists c :: c in nodes[a].children && Under(nodes, rank, c, j)
    ensures forall c, d | c in nodes[a].children && d in nodes[a].children ::
              Under(nodes, rank, c, j) && Under(nodes, rank, d, j) ==> c == d
    ensures forall c :: c in nodes[a].children ==> !Under(nodes, rank, c, a)
    decreases rank[j]
  {
    hide Linked;
    forall c | c in nodes[a].children
      ensures IsChild(nodes, a, c) && !Under(nodes, rank, c, a)
    {
      ListedIsChild(nodes, a, c);
      if Under(nodes, rank, c, a) {
        UnderGoesDown(nodes, rank, c, a);
      }
    }
    if nodes[j].parent.Some? {
      var q := nodes[j].parent.value;
      UnderOneChild(nodes, rank, a, q);
      if q == a {
        ChildIsListed(nodes, a, j);
        assert Under(nodes, rank, j, j);
      } else if Under(nodes, rank, a, j) && j != a {
        var c :| c in nodes[a].children && Under(nodes, rank, c, q);
        assert Under(nodes, rank, c, j);
      }
    }
  }

  lemma ListedIsChild(nodes: seq<Node>, p: nat, c: nat)
    requires Linked(nodes) && p < |nodes| && c in nodes[p].children
    ensures IsChild(nodes, p, c)
  {
    var k :| 0 <= k < |nodes[p].children| && nodes[p].children[k] == c;
    assert IsChild(nodes, p, nodes[p].children[k]);
  }

  lemma ChildIsListed(nodes: seq<Node>, p: nat, c: nat)
    requires Linked(nodes) && IsChild(nodes, p, c)
    ensures p < |nodes| && c in nodes[p].children
  {
  }

  /** Clearing from a root leaves a sound forest; clearing from anywhere else leaves a parent listing a stranger. */
  lemma ClearedIsSound(nodes: seq<Node>, rank: seq<nat>, a: nat, after: seq<Node>)
    requires Linked(nodes) && WellNamed(nodes) && Ranked(nodes, rank) && a < |nodes|
    requires ClearedFrom(nodes, rank, a, after)
    ensures Ranked(after, rank) && WellNamed(after)
    ensures Linked(after) <==> nodes[a].parent.None?
  {
    assert forall p: nat, c: nat :: IsChild(after, p, c) <==> IsChild(nodes, p, c) && !Under(nodes, rank, a, c);
    assert forall c :: 0 <= c < |nodes| ==> forall id :: Answers(after[c], id) ==> Answers(nodes[c], id);
    ClearedIsWellNamed(nodes, rank, a, after);
    if nodes[a].parent.None? {
      ClearedIsLinked(nodes, rank, a, after);
    } else {
      var p := nodes[a].parent.value;
      ChildIsListed(nodes, p, a);
      if Under(nodes, rank, a, p) {
        UnderGoesDown(nodes, rank, a, p);
      }
      assert after[p] == nodes[p] && after[a].parent.None?;
      if Linked(after) {
        ListedIsChild(after, p, a);
      }
    }
  }

  lemma ClearedIsWellNamed(nodes: seq<Node>, rank: seq<nat>, a: nat, after: seq<Node>)
    requires WellNamed(nodes) && Ranked(nodes, rank) && a < |nodes| && |after| == |nodes|
    requires forall p: nat, c: nat :: IsChild(after, p, c) ==> IsChild(nodes, p, c)
    requires forall c :: 0 <= c < |nodes| ==> forall id :: Answers(after[c], id) ==> Answers(nodes[c], id)
    ensures WellNamed(after)
  {
    hide Answers;
    forall p: nat, c: nat, d: nat | IsChild(after, p, c) && IsChild(after, p, d) && c != d
      ensures Disjoint(after[c], after[d])
    {
      assert IsChild(nodes, p, c) && IsChild(nodes, p, d);
      assert Disjoint(nodes[c], nodes[d]);
    }
  }

  lemma ClearedIsLinked(nodes: seq<Node>, rank: seq<nat>, a: nat, after: seq<Node>)
    requires Linked(nodes) && Ranked(nodes, rank) && a < |nodes| && nodes[a].parent.None?
    requires ClearedFrom(nodes, rank, a, after)
    ensures Linked(after)
  {
    forall p, k | 0 <= p < |after| && 0 <= k < |after[p].children|
      ensures IsChild(after, p, after[p].children[k])
    {
      assert IsChild(nodes, p, nodes[p].children[k]);
    }
    forall c: nat, p: nat | IsChild(after, p, c)
      ensures p < |after| && c in after[p].children
    {
      assert IsChild(nodes, p, c);
    }
  }

  // ---------------------------------------------------------------------
  // The forest in place
  // ---------------------------------------------------------------------

  class Forest {
    var nodes: seq<Node>
    ghost var rank: seq<nat>

    ghost predicate Valid()
      reads this
    {
      Linked(nodes) && WellNamed(nodes) && Ranked(nodes, rank)
    }

    constructor ()
      ensures Valid() && nodes == []
    {
      nodes, rank := [], [];
    }

    /** command_init: a command with a name, alone. */
    method Init(name: string) returns (c: Option<nat>)
      requires Valid()
      modifies this
      ensures Valid()
      ensures c.Some? <==> name != ""
      ensures c.Some? ==> c.value == |old(nodes)| && nodes == old(nodes) + [Node(name, [], [], None)]
      ensures c.None? ==> nodes == old(nodes)
    {
      if name == "" {
        return None;
      }
      ghost var before := nodes;
      nodes := nodes + [Node(name, [], [], None)];
      rank := rank + [0];
      assert forall p: nat, d: nat :: IsChild(nodes, p, d) <==> IsChild(before, p, d);
      return Some(|nodes| - 1);
    }

    /** nom_correspond */
    method AnswersTo(c: nat, id: string) returns (yes: bool)
      requires c < |nodes|
      ensures yes <==> Answers(nodes[c], id)
    {
      if nodes[c].name == id {
        return true;
      }
      var i := 0;
      while i < |nodes[c].aliases|
        invariant 0 <= i <= |nodes[c].aliases|
        invariant id !in nodes[c].aliases[..i]
      {
        if nodes[c].aliases[i] == id {
          return true;
        }
        i := i + 1;
      }
      return false;
    }

    /** identifiants_en_collision */
    method Collide(a: nat, b: nat) returns (yes: bool)
      requires a < |nodes| && b < |nodes|
      ensures yes <==> !Disjoint(nodes[a], nodes[b])
    {
      yes := AnswersTo(b, nodes[a].name);
      if yes {
        assert Answers(nodes[a], nodes[a].name);
        return;
      }
      var i := 0;
      while i < |nodes[a].aliases|
        invariant 0 <= i <= |nodes[a].aliases|
        invariant forall k :: 0 <= k < i ==> !Answers(nodes[b], nodes[a].aliases[k])
      {
        yes := AnswersTo(b, nodes[a].aliases[i]);
        if yes {
          assert Answers(nodes[a], nodes[a].aliases[i]);
          return;
        }
        i := i + 1;
      }
      return false;
    }

    /** command_find_child */
    method FindChild(p: nat, id: string) returns (c: Option<nat>)
      requires Valid() && p < |nodes|
      ensures c == ChildNamed(nodes, nodes[p].children, id)
    {
      var i := 0;
      while i < |nodes[p].children|
        invariant 0 <= i <= |nodes[p].children|
        invariant ChildNamed(nodes, nodes[p].children, id) == ChildNamed(nodes, nodes[p].children[i..], id)
      {
        assert IsChild(nodes, p, nodes[p].children[i]);
        var yes := AnswersTo(nodes[p].children[i], id);
        if yes {
          return Some(nodes[p].children[i]);
        }
        assert nodes[p].children[i..][1..] == nodes[p].children[i + 1..];
        i := i + 1;
      }
      return None;
    }

    /** The walk from a command to its root, looking for another one. */
    method HasAncestor(p: nat, c: nat) returns (yes: bool)
      requires Valid() && p < |nodes|
      ensures yes <==> Under(nodes, rank, c, p)
    {
      var ancestor: Option<nat> := Some(p);
      while ancestor.Some?
        invariant ancestor.Some? ==> ancestor.value < |nodes|
                                     && (Under(nodes, rank, c, p) <==> Under(nodes, rank, c, ancestor.value))
        invariant ancestor.None? ==> !Under(nodes, rank, c, p)
        decreases if ancestor.Some? then rank[ancestor.value] + 1 else 0
      {
        if ancestor.value == c {
          return true;
        }
        ancestor := nodes[ancestor.value].parent;
      }
      return false;
    }

    /** command_add_alias: refused if the identifier is empty, or already that of the command or of a sister. */
    method AddAlias(c: nat, alias: string) returns (result: int)
      requires Valid() && c < |nodes|
      modifies this
      ensures Valid() && (result == 0 || result == -1)
      ensures result == 0 <==> AliasAllowed(old(nodes), c, alias)
      ensures nodes == if result == 0 then Aliased(old(nodes), c, alias) else old(nodes)
      ensures result == 0 ==> forall id :: Answers(nodes[c], id) <==> Answers(old(nodes)[c], id) || id == alias
      ensures result == 0 ==> forall d :: 0 <= d < |nodes| && d != c ==> nodes[d] == old(nodes)[d]
    {
      if alias == "" {
        return -1;
      }
      var own := AnswersTo(c, alias);
      if own {
        return -1;
      }
      if nodes[c].parent.Some? {
        var p := nodes[c].parent.value;
        assert IsChild(nodes, p, c);
        var i := 0;
        while i < |nodes[p].children|
          invariant nodes == old(nodes) && rank == old(rank) && 0 <= i <= |nodes[p].children|
          invariant forall k :: 0 <= k < i && nodes[p].children[k] != c ==> !Answers(nodes[nodes[p].children[k]], alias)
        {
          var sister := nodes[p].children[i];
          assert IsChild(nodes, p, sister);
          if sister != c {
            var taken := AnswersTo(sister, alias);
            if taken {
              return -1;
            }
          }
          i := i + 1;
        }
      }
      AliasedIsSound(nodes, rank, c, alias);
      nodes := Aliased(nodes, c, alias);
      return 0;
    }

    /**
     * command_add_child: refused if the child has a parent, is the parent or one of its ancestors, or
     * shares an identifier with a child already there. The forest stays acyclic and well named.
     */
    method AddChild(p: nat, c: nat) returns (result: int)
      requires Valid() && p < |nodes| && c < |nodes|
      modifies this
      ensures Valid() && (result == 0 || result == -1)
      ensures result == 0 <==> Attachable(old(nodes), old(rank), p, c)
      ensures nodes == if result == 0 then Attached(old(nodes), p, c) else old(nodes)
      ensures result == 0 ==>
                && |nodes| == |old(nodes)| && nodes[c].parent == Some(p) && nodes[p].children == old(nodes)[p].children + [c]
                && (forall d, id :: 0 <= d < |nodes| ==> (Answers(nodes[d], id) <==> Answers(old(nodes)[d], id)))
                && (forall d :: 0 <= d < |nodes| && d != c ==> nodes[d].parent == old(nodes)[d].parent)
                && (forall d :: 0 <= d < |nodes| && d != p ==> nodes[d].children == old(nodes)[d].children)
      ensures result != 0 ==> rank == old(rank)
    {
      hide Linked, WellNamed, Disjoint, Attached;
      if p == c || nodes[c].parent.Some? {
        return -1;
      }
      var above := HasAncestor(p, c);
      if above {
        return -1;
      }
      var i := 0;
      while i < |nodes[p].children|
        invariant nodes == old(nodes) && rank == old(rank) && 0 <= i <= |nodes[p].children|
        invariant forall k :: 0 <= k < i ==> nodes[p].children[k] < |nodes| && Disjoint(nodes[c], nodes[nodes[p].children[k]])
      {
        ListedIsChild(nodes, p, nodes[p].children[i]);
        var taken := Collide(c, nodes[p].children[i]);
        if taken {
          return -1;
        }
        i := i + 1;
      }
      forall d: nat | IsChild(nodes, p, d)
        ensures Disjoint(nodes[c], nodes[d])
      {
        ChildIsListed(nodes, p, d);
      }
      AttachedIsLinked(nodes, p, c);
      AttachedIsWellNamed(nodes, p, c);
      AttachedIsRanked(nodes, rank, p, c);
      AttachedFields(nodes, p, c);
      rank := Moved(nodes, rank, p, c);
      nodes := Attached(nodes, p, c);
      return 0;
    }

    /**
     * command_clear: unlinks the children, clears each of them, then empties the command. It recurs on
     * higher ranks only, so it ends; `orig` is the forest when clearing started.
     */
    method ClearFrom(a: nat, ghost orig: seq<Node>, ghost limit: nat)
      requires |nodes| == |orig| && a < |orig| && Linked(orig) && Ranked(orig, rank)
      requires nodes[a].name == orig[a].name && nodes[a].children == orig[a].children
      requires forall j :: 0 <= j < |orig| && j != a && Under(orig, rank, a, j) ==> nodes[j] == orig[j]
      requires forall j :: 0 <= j < |rank| ==> rank[j] <= limit
      modifies this`nodes
      ensures |nodes| == |orig|
      ensures forall j :: 0 <= j < |orig| ==>
                nodes[j] == if Under(orig, rank, a, j) then Blank(orig[j]) else old(nodes)[j]
      decreases limit - rank[a]
    {
      hide Linked;
      ghost var children := orig[a].children;
      var i := 0;
      while i < |nodes[a].children|
        invariant |nodes| == |orig| && nodes[a] == old(nodes[a]) && 0 <= i <= |children|
        invariant forall j :: 0 <= j < |orig| && UnderEarlier(orig, rank, a, i, j) ==> nodes[j] == Blank(orig[j])
        invariant forall j :: 0 <= j < |orig| && Under(orig, rank, a, j) && j != a && !UnderEarlier(orig, rank, a, i, j) ==>
                    nodes[j] == orig[j]
        invariant forall j :: 0 <= j < |orig| && (j == a || !Under(orig, rank, a, j)) ==> nodes[j] == old(nodes)[j]
      {
        var c := nodes[a].children[i];
        ChildFacts(orig, rank, a, i);
        nodes := nodes[c := nodes[c].(parent := None)];
        ghost var before := nodes;
        ClearFrom(c, orig, limit);
        i := i + 1;
      }
      assert i == |children|;
      AllChildren(orig, rank, a);
      nodes := nodes[a := Node(nodes[a].name, [], [], None)];
    }

    /** Clearing a whole tree from its root: all of it is blank, the rest is untouched, the forest is sound. */
    method Clear(a: nat)
      requires Valid() && a < |nodes|
      modifies this`nodes
      ensures ClearedFrom(old(nodes), rank, a, nodes)
      // The commands of the tree answer to their names only, and are linked to nothing.
      ensures forall j :: 0 <= j < |nodes| && Under(old(nodes), rank, a, j) ==>
                && nodes[j].parent.None? && nodes[j].children == []
                && forall id :: Answers(nodes[j], id) <==> id == old(nodes)[j].name
      ensures Valid() <==> old(nodes)[a].parent.None?
    {
      hide Linked, WellNamed, Ranked;
      ghost var orig := nodes;
      ghost var limit := Highest(rank);
      ClearFrom(a, orig, limit);
      ClearedIsSound(orig, rank, a, nodes);
    }
  }

  ghost function Highest(rank: seq<nat>): (m: nat)
    ensures forall j :: 0 <= j < |rank| ==> rank[j] <= m
  {
    if rank == [] then 0
    else
      var m := Highest(rank[..|rank| - 1]);
      if rank[|rank| - 1] > m then rank[|rank| - 1] else m
  }

  /** `j` is under one of the first `i` children of `a`. */
  ghost predicate UnderEarlier(nodes: seq<Node>, rank: seq<nat>, a: nat, i: nat, j: nat)
    requires Ranked(nodes, rank) && a < |nodes| && i <= |nodes[a].children| && j < |nodes|
  {
    exists m :: 0 <= m < i && Under(nodes, rank, nodes[a].children[m], j)
  }

  lemma AllChildren(nodes: seq<Node>, rank: seq<nat>, a: nat)
    requires Linked(nodes) && Ranked(nodes, rank) && a < |nodes|
    ensures forall j :: 0 <= j < |nodes| ==>
              (UnderEarlier(nodes, rank, a, |nodes[a].children|, j) <==> Under(nodes, rank, a, j) && j != a)
  {
    hide Linked;
    var children := nodes[a].children;
    forall j | 0 <= j < |nodes|
      ensures UnderEarlier(nodes, rank, a, |children|, j) <==> Under(nodes, rank, a, j) && j != a
    {
      UnderOneChild(nodes, rank, a, j);
      if UnderEarlier(nodes, rank, a, |children|, j) {
        var m :| 0 <= m < |children| && Under(nodes, rank, children[m], j);
        assert children[m] in children;
      }
      if Under(nodes, rank, a, j) && j != a {
        var c :| c in children && Under(nodes, rank, c, j);
        var m :| 0 <= m < |children| && children[m] == c;
        assert Under(nodes, rank, nodes[a].children[m], j);
      }
    }
  }

  /** What clearing needs to know about the `i`-th child. */
  lemma ChildFacts(nodes: seq<Node>, rank: seq<nat>, a: nat, i: nat)
    requires Linked(nodes) && Ranked(nodes, rank) && a < |nodes| && i < |nodes[a].children|
    ensures var c := nodes[a].children[i];
            && c < |nodes| && c != a && rank[a] < rank[c] && IsChild(nodes, a, c)
            && (forall j :: 0 <= j < |nodes| && Under(nodes, rank, c, j) ==>
                  Under(nodes, rank, a, j) && j != a
                  && forall m :: 0 <= m < i ==> !Under(nodes, rank, nodes[a].children[m], j))
  {
    var c := nodes[a].children[i];
    assert IsChild(nodes, a, c);
    hide Linked;
    forall j | 0 <= j < |nodes| && Under(nodes, rank, c, j)
      ensures Under(nodes, rank, a, j) && j != a
      ensures forall m :: 0 <= m < i ==> !Under(nodes, rank, nodes[a].children[m], j)
    {
      UnderOneChild(nodes, rank, a, j);
      UnderOneChild(nodes, rank, a, a);
      NoRepeatedChild(nodes, a, i);
    }
  }

  lemma NoRepeatedChild(nodes: seq<Node>, a: nat, i: nat)
    requires Linked(nodes) && a < |nodes| && i < |nodes[a].children|
    ensures forall m :: 0 <= m < i ==> nodes[a].children[m] != nodes[a].children[i]
  {
    assert NoRepeat(nodes[a].children);
  }
}
