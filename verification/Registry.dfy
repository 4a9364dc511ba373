/** Finding a command by its path (src/command/registry.c). Command 0 of the forest is the root of the registry. */
module Registry {
  import opened Common
  import opened CommandTree

  // ---------------------------------------------------------------------
  // Paths
  // ---------------------------------------------------------------------

  predicate SlashFree(s: string) {
    forall i :: 0 <= i < |s| ==> s[i] != '/'
  }

  /** strchr: where the first '/' is, the length if there is none. */
  function SegmentLength(path: string): (n: nat)
    ensures n <= |path| && SlashFree(path[..n])
    ensures n < |path| ==> path[n] == '/'
  {
    if path == "" || path[0] == '/' then 0 else 1 + SegmentLength(path[1..])
  }

  function Segments(path: string): (s: seq<string>)
    ensures |s| >= 1
    decreases |path|
  {
    var n := SegmentLength(path);
    if n == |path| then [path] else [path[..n]] + Segments(path[n + 1..])
  }

  function Join(ids: seq<string>): string
    requires |ids| >= 1
  {
    if |ids| == 1 then ids[0] else ids[0] + "/" + Join(ids[1..])
  }

  lemma {:induction false} FirstSlash(s: string, k: nat)
    requires k <= |s| && SlashFree(s[..k]) && (k < |s| ==> s[k] == '/')
    ensures SegmentLength(s) == k
    decreases k
  {
    if k > 0 {
      assert s[0] == s[..k][0];
      assert s[1..][..k - 1] == s[..k][1..];
      FirstSlash(s[1..], k - 1);
    }
  }

  lemma FirstSegment(id: string, rest: string)
    requires SlashFree(id)
    ensures SegmentLength(id + "/" + rest) == |id| && SegmentLength(id) == |id|
  {
    assert (id + "/" + rest)[..|id|] == id && id[..|id|] == id;
    FirstSlash(id + "/" + rest, |id|);
    FirstSlash(id, |id|);
  }

  /** Joining slash-free identifiers and cutting at the slashes are inverse. */
  lemma {:induction false} SegmentsOfJoin(ids: seq<string>)
    requires |ids| >= 1 && forall i :: 0 <= i < |ids| ==> SlashFree(ids[i])
    ensures Segments(Join(ids)) == ids
    decreases |ids|
  {
    if |ids| == 1 {
      FirstSegment(ids[0], "");
    } else {
      var rest := Join(ids[1..]);
      FirstSegment(ids[0], rest);
      SegmentsOfJoin(ids[1..]);
      var path := ids[0] + "/" + rest;
      assert path[..|ids[0]|] == ids[0] && path[|ids[0]| + 1..] == rest;
    }
  }

  lemma {:induction false} JoinOfSegments(path: string)
    ensures Join(Segments(path)) == path
    ensures forall i :: 0 <= i < |Segments(path)| ==> SlashFree(Segments(path)[i])
    decreases |path|
  {
    var n := SegmentLength(path);
    if n < |path| {
      JoinOfSegments(path[n + 1..]);
      assert path == path[..n] + "/" + path[n + 1..];
      assert Segments(path)[1..] == Segments(path[n + 1..]);
    } else {
      assert path[..n] == path;
    }
  }

  // ---------------------------------------------------------------------
  // What a path means
  // ---------------------------------------------------------------------

  /**
   * The identifiers name, one by one, the commands from below `top` down to `node`: each is a name or an
   * alias, and each command is the child of the one before.
   */
  ghost predicate Names(nodes: seq<Node>, top: nat, ids: seq<string>, node: nat)
    decreases |ids|
  {
    node < |nodes|
    && if ids == [] then node == top
       else Answers(nodes[node], ids[|ids| - 1]) && nodes[node].parent.Some?
            && Names(nodes, top, ids[..|ids| - 1], nodes[node].parent.value)
  }

  /** The search of registry_find_path from `current` on, one segment at a time. */
  function Resolve(nodes: seq<Node>, current: nat, segments: seq<string>): Option<nat>
    requires current < |nodes|
    decreases |segments|
  {
    if segments == [] || segments[0] == "" then None
    else if current == 0 && segments[0] == nodes[0].name then Resolve(nodes, 0, segments[1..])
    else match ChildNamed(nodes, nodes[current].children, segments[0])
      case None => None
      case Some(c) => if |segments| == 1 then Some(c) else Resolve(nodes, c, segments[1..])
  }

  class CommandRegistry {
    const forest: Forest

    ghost predicate Valid()
      reads this, forest
    {
      forest.Valid() && |forest.nodes| > 0
    }

    constructor ()
      ensures Valid() && fresh(forest) && forest.nodes == [Node("AML", [], [], None)]
    {
      forest := new Forest();
      new;
      var root := forest.Init("AML");
    }

    /** registry_find_path */
    method FindPath(path: string) returns (found: Option<nat>)
      requires Valid()
      ensures found == if path == "" then None else Resolve(forest.nodes, 0, Segments(path))
    {
      hide SegmentLength, ChildNamed;
      if path == "" {
        return None;
      }
      var current: nat := 0;
      var segment := path;
      while segment != ""
        invariant current < |forest.nodes| && segment != ""
        invariant Resolve(forest.nodes, 0, Segments(path)) == Resolve(forest.nodes, current, Segments(segment))
        decreases |segment|
      {
        var n := Separator(segment);
        if n == 0 {
          return None;
        }
        var name := segment[..n];
        assert n == |segment| ==> name == segment;
        if current == 0 && name == forest.nodes[0].name {
          if n == |segment| {
            return None;
          }
          EmptyPath();
          segment := segment[n + 1..];
          if segment == "" {
            return None;
          }
          continue;
        }
        var child := forest.FindChild(current, name);
        if child.None? {
          return None;
        }
        current := child.value;
        if n == |segment| {
          return Some(current);
        }
        EmptyPath();
        segment := segment[n + 1..];
        if segment == "" {
          return None;
        }
      }
    }
  }

  /** strchr, as a loop */
  method Separator(s: string) returns (n: nat)
    ensures n == SegmentLength(s)
  {
    n := 0;
    while n < |s| && s[n] != '/'
      invariant n <= |s| && SegmentLength(s) == n + SegmentLength(s[n..])
    {
      assert s[n..][1..] == s[n + 1..];
      n := n + 1;
    }
  }

  lemma EmptyPath()
    ensures Segments("") == [""]
  {
  }

  // ---------------------------------------------------------------------
  // Paths and commands
  // ---------------------------------------------------------------------

  /** The first identifier of a path leads to a child of the top, the others go on from there. */
  lemma {:induction false} NamesFromTop(nodes: seq<Node>, top: nat, ids: seq<string>, node: nat)
    requires |ids| >= 1 && top < |nodes|
    ensures Names(nodes, top, ids, node) <==>
              exists c: nat :: IsChild(nodes, top, c) && Answers(nodes[c], ids[0]) && Names(nodes, c, ids[1..], node)
    decreases |ids|
  {
    hide Answers;
    if |ids| == 1 {
      assert ids[1..] == [] && ids[..|ids| - 1] == [];
      if Names(nodes, top, ids, node) {
        assert Names(nodes, top, [], nodes[node].parent.value) && Names(nodes, node, [], node);
        assert IsChild(nodes, top, node) && Names(nodes, node, ids[1..], node);
      }
    } else if node < |nodes| && nodes[node].parent.Some? {
      var p := nodes[node].parent.value;
      var init := ids[..|ids| - 1];
      NamesFromTop(nodes, top, init, p);
      assert ids[1..][..|ids| - 2] == init[1..];
      assert forall c: nat :: Names(nodes, c, ids[1..], node) <==>
          Answers(nodes[node], ids[|ids| - 1]) && Names(nodes, c, init[1..], p);
    }
  }

  /** Each identifier goes at least one rank down. */
  lemma {:induction false} NamesGoDown(nodes: seq<Node>, rank: seq<nat>, top: nat, ids: seq<string>, node: nat)
    requires Ranked(nodes, rank) && top < |nodes| && Names(nodes, top, ids, node)
    ensures rank[node] >= rank[top] + |ids|
    decreases |ids|
  {
    if ids != [] {
      NamesGoDown(nodes, rank, top, ids[..|ids| - 1], nodes[node].parent.value);
    }
  }

  /** The names from below the root down to a command: every command of the tree has such a path. */
  ghost function NamesOf(nodes: seq<Node>, rank: seq<nat>, top: nat, node: nat): (ids: seq<string>)
    requires Ranked(nodes, rank) && top < |nodes| && node < |nodes| && Under(nodes, rank, top, node)
    ensures Names(nodes, top, ids, node)
    ensures node != top ==> |ids| >= 1
    decreases rank[node]
  {
    if node == top then []
    else
      var above := NamesOf(nodes, rank, top, nodes[node].parent.value);
      assert (above + [nodes[node].name])[..|above|] == above;
      above + [nodes[node].name]
  }

  /** All the paths to a command are equally long. */
  lemma {:induction false} SameDepth(nodes: seq<Node>, rank: seq<nat>, top: nat, ids: seq<string>, others: seq<string>, node: nat)
    requires Ranked(nodes, rank) && top < |nodes| && Names(nodes, top, ids, node) && Names(nodes, top, others, node)
    ensures |ids| == |others|
    decreases |ids|
  {
    if ids != [] && others != [] {
      SameDepth(nodes, rank, top, ids[..|ids| - 1], others[..|others| - 1], nodes[node].parent.value);
    } else {
      NamesGoDown(nodes, rank, top, ids, node);
      NamesGoDown(nodes, rank, top, others, node);
    }
  }

  ghost predicate Sound(nodes: seq<Node>, rank: seq<nat>) {
    Linked(nodes) && WellNamed(nodes) && Ranked(nodes, rank) && |nodes| > 0
  }

  lemma {:induction false} ResolveFollowsNames(nodes: seq<Node>, rank: seq<nat>, current: nat, ids: seq<string>, node: nat)
    requires Sound(nodes, rank) && current < |nodes| && rank[0] <= rank[current]
    requires |ids| >= 1 && (current == 0 ==> ids[0] != nodes[0].name)
    ensures Resolve(nodes, current, ids) == Some(node) <==> Names(nodes, current, ids, node)
    decreases |ids|
  {
    hide Linked, ChildNamed, Answers, WellNamed;
    NamesFromTop(nodes, current, ids, node);
    if ids[0] == "" {
      NobodyAnswersNothing(nodes);
    } else {
      var found := ChildNamed(nodes, nodes[current].children, ids[0]);
      forall c: nat
        ensures found == Some(c) <==> IsChild(nodes, current, c) && Answers(nodes[c], ids[0])
      {
        ChildIsUnique(nodes, current, ids[0], c);
      }
      if found.Some? && |ids| > 1 {
        assert IsChild(nodes, current, found.value);
        ResolveFollowsNames(nodes, rank, found.value, ids[1..], node);
      }
    }
  }

  lemma NobodyAnswersNothing(nodes: seq<Node>)
    requires WellNamed(nodes)
    ensures forall c :: 0 <= c < |nodes| ==> !Answers(nodes[c], "")
  {
  }

  /** A path without the root names it starts with. */
  function WithoutRoot(root: string, segments: seq<string>): (s: seq<string>)
    ensures s != [] ==> s[0] != root
    ensures |s| <= |segments|
  {
    if segments != [] && segments[0] == root then WithoutRoot(root, segments[1..]) else segments
  }

  lemma {:induction false} RootIsSkipped(nodes: seq<Node>, segments: seq<string>)
    requires |nodes| > 0 && nodes[0].name != ""
    ensures var rest := WithoutRoot(nodes[0].name, segments);
            Resolve(nodes, 0, segments) == if rest == [] then None else Resolve(nodes, 0, rest)
    decreases |segments|
  {
    if segments != [] && segments[0] == nodes[0].name {
      RootIsSkipped(nodes, segments[1..]);
    }
  }

  /**
   * What a path finds: root names at its start apart, its segments name the commands from below the root
   * down to the result, and nothing is found otherwise.
   */
  lemma PathMeaning(r: CommandRegistry, path: string, node: nat)
    requires r.Valid()
    ensures var nodes := r.forest.nodes;
            var ids := WithoutRoot(nodes[0].name, Segments(path));
            (path != "" && Resolve(nodes, 0, Segments(path)) == Some(node)) <==> ids != [] && Names(nodes, 0, ids, node)
  {
    hide Linked, WellNamed, Answers;
    var nodes := r.forest.nodes;
    var ids := WithoutRoot(nodes[0].name, Segments(path));
    RootHasName(nodes);
    RootIsSkipped(nodes, Segments(path));
    if ids != [] {
      ResolveFollowsNames(nodes, r.forest.rank, 0, ids, node);
      if path == "" && Names(nodes, 0, ids, node) {
        EmptyPath();
        EmptySegmentNamesNothing(nodes, 0, [""], 0, node);
      }
    }
  }

  lemma RootHasName(nodes: seq<Node>)
    requires WellNamed(nodes) && |nodes| > 0
    ensures nodes[0].name != ""
  {
    assert Answers(nodes[0], nodes[0].name);
  }

  lemma {:induction false} EmptySegmentNamesNothing(nodes: seq<Node>, top: nat, ids: seq<string>, i: nat, node: nat)
    requires WellNamed(nodes) && i < |ids| && ids[i] == ""
    ensures !Names(nodes, top, ids, node)
    decreases |ids|
  {
    if node < |nodes| && i < |ids| - 1 && nodes[node].parent.Some? {
      EmptySegmentNamesNothing(nodes, top, ids[..|ids| - 1], i, nodes[node].parent.value);
    }
  }

  function Repeat(id: string, k: nat): seq<string> {
    seq(k, _ => id)
  }

  lemma {:induction false} RootPrefix(root: string, k: nat, ids: seq<string>)
    ensures WithoutRoot(root, Repeat(root, k) + ids) == WithoutRoot(root, ids)
    decreases k
  {
    if k == 0 {
      assert Repeat(root, 0) + ids == ids;
    } else {
      assert (Repeat(root, k) + ids)[1..] == Repeat(root, k - 1) + ids;
      RootPrefix(root, k - 1, ids);
    }
  }

  /**
   * Joining any choice of names and aliases along the way from below the root to a command, after any
   * number of root names, gives a path that finds that command, unless the first identifier chosen is
   * itself the name of the root: then it does not.
   */
  lemma PathRoundTrip(r: CommandRegistry, ids: seq<string>, node: nat, k: nat)
    requires r.Valid() && |ids| >= 1 && Names(r.forest.nodes, 0, ids, node)
    requires SlashFree(r.forest.nodes[0].name) && forall i :: 0 <= i < |ids| ==> SlashFree(ids[i])
    ensures var nodes := r.forest.nodes;
            Resolve(nodes, 0, Segments(Join(Repeat(nodes[0].name, k) + ids))) == Some(node)
            <==> ids[0] != nodes[0].name
  {
    hide Linked, WellNamed, Answers, Names, Resolve;
    var nodes := r.forest.nodes;
    var root := nodes[0].name;
    var all := Repeat(root, k) + ids;
    SegmentsOfJoin(all);
    RootHasName(nodes);
    RootIsSkipped(nodes, all);
    RootPrefix(root, k, ids);
    var rest := WithoutRoot(root, ids);
    if rest != [] {
      ResolveFollowsNames(nodes, r.forest.rank, 0, rest, node);
      if ids[0] == root && Names(nodes, 0, rest, node) {
        SameDepth(nodes, r.forest.rank, 0, ids, rest, node);
      }
    }
  }

  /** A path with an empty segment, such as one with a slash at its end, finds nothing. */
  lemma EmptySegmentFindsNothing(r: CommandRegistry, path: string, i: nat)
    requires r.Valid() && i < |Segments(path)| && Segments(path)[i] == ""
    ensures Resolve(r.forest.nodes, 0, Segments(path)) == None
  {
    hide Linked, Answers, Names, SegmentLength, WellNamed;
    var nodes := r.forest.nodes;
    RootHasName(nodes);
    EmptyStays(nodes[0].name, Segments(path), i);
    var ids := WithoutRoot(nodes[0].name, Segments(path));
    var j :| 0 <= j < |ids| && ids[j] == "";
    RootIsSkipped(nodes, Segments(path));
    var found := Resolve(nodes, 0, Segments(path));
    if found.Some? {
      ResolveFollowsNames(nodes, r.forest.rank, 0, ids, found.value);
      EmptySegmentNamesNothing(nodes, 0, ids, j, found.value);
    }
  }

  lemma {:induction false} EmptyStays(root: string, segments: seq<string>, i: nat)
    requires root != "" && i < |segments| && segments[i] == ""
    ensures exists j :: 0 <= j < |WithoutRoot(root, segments)| && WithoutRoot(root, segments)[j] == ""
    decreases |segments|
  {
    if segments[0] == root {
      EmptyStays(root, segments[1..], i - 1);
      assert WithoutRoot(root, segments) == WithoutRoot(root, segments[1..]);
    } else {
      assert WithoutRoot(root, segments) == segments;
      assert WithoutRoot(root, segments)[i] == "";
    }
  }
}
