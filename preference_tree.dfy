/**
 * The part of the platform's preference hierarchy that the graveyard works on.
 * A preference is an object with a key, a visibility flag and, when it is a group,
 * an ordered list of children. Once the hierarchy is inflated its shape no longer
 * changes, so shape is held in `const` fields and only `visible` is mutable.
 */
module PreferenceTree {
  import opened Wrappers

  class Preference {
    const key: string
    const isGroup: bool
    const children: seq<Preference>
    /** This preference and every preference below it. */
    ghost const nodes: set<Preference>
    /** Strictly larger than the height of every child: the hierarchy has no cycles. */
    ghost const height: nat
    var visible: bool

    ghost predicate Valid()
      decreases height
    {
      this in nodes &&
      (!isGroup ==> children == []) &&
      forall i :: 0 <= i < |children| ==>
        children[i].height < height && children[i] in nodes &&
        children[i].nodes <= nodes && children[i].Valid()
    }

    /**
     * `nodes` holds exactly this preference and the preferences below it, and the same
     * holds all the way down; so a mutation confined to `nodes` touches only the hierarchy.
     */
    ghost predicate Exact()
      requires Valid()
      decreases height
    {
      nodes == {this} + NodesOf(children) &&
      forall i :: 0 <= i < |children| ==> children[i].Exact()
    }

    /** A plain preference, visible on creation. */
    constructor Leaf(key: string)
      ensures Valid() && Exact() && fresh(this)
      ensures this.key == key && !isGroup && children == [] && visible
      ensures nodes == {this}
    {
      this.key := key;
      isGroup := false;
      children := [];
      nodes := {this};
      height := 0;
      visible := true;
    }

    /** A group holding `kids` in order, visible on creation. */
    constructor Group(key: string, kids: seq<Preference>)
      requires forall i :: 0 <= i < |kids| ==> kids[i].Valid()
      ensures Valid() && fresh(this)
      ensures (forall i :: 0 <= i < |kids| ==> kids[i].Exact()) ==> Exact()
      ensures this.key == key && isGroup && children == kids && visible
      ensures nodes == {this} + NodesOf(kids)
    {
      this.key := key;
      isGroup := true;
      children := kids;
      nodes := {this} + NodesOf(kids);
      height := 1 + MaxHeight(kids);
      visible := true;
      new;
      forall i | 0 <= i < |kids| ensures kids[i].nodes <= nodes && kids[i].height < height {
        NodesOfContains(kids, i);
        MaxHeightBounds(kids, i);
      }
    }
  }

  ghost function NodesOf(kids: seq<Preference>): set<Preference>
  {
    if kids == [] then {} else NodesOf(kids[..|kids| - 1]) + kids[|kids| - 1].nodes
  }

  ghost function MaxHeight(kids: seq<Preference>): nat
  {
    if kids == [] then 0
    else
      var m := MaxHeight(kids[..|kids| - 1]);
      if kids[|kids| - 1].height > m then kids[|kids| - 1].height else m
  }

  lemma {:induction false} NodesOfContains(kids: seq<Preference>, i: nat)
    requires i < |kids|
    ensures kids[i].nodes <= NodesOf(kids)
    decreases |kids|
  {
    if i < |kids| - 1 {
      NodesOfContains(kids[..|kids| - 1], i);
    }
  }

  lemma {:induction false} NodesOfMember(kids: seq<Preference>, x: Preference)
    requires x in NodesOf(kids)
    ensures exists i :: 0 <= i < |kids| && x in kids[i].nodes
    decreases |kids|
  {
    var last := |kids| - 1;
    if x !in kids[last].nodes {
      NodesOfMember(kids[..last], x);
      var i :| 0 <= i < last && x in kids[..last][i].nodes;
      assert kids[..last][i] == kids[i];
    }
  }

  /** Every preference of a well-formed hierarchy is itself well formed, and its own hierarchy lies inside. */
  lemma {:induction false} NodesClosed(root: Preference, x: Preference)
    requires root.Valid() && root.Exact() && x in root.nodes
    ensures x.Valid() && x.Exact() && x.nodes <= root.nodes
    decreases root.height
  {
    if x != root {
      NodesOfMember(root.children, x);
      var i :| 0 <= i < |root.children| && x in root.children[i].nodes;
      NodesClosed(root.children[i], x);
    }
  }

  lemma {:induction false} MaxHeightBounds(kids: seq<Preference>, i: nat)
    requires i < |kids|
    ensures kids[i].height <= MaxHeight(kids)
    decreases |kids|
  {
    if i < |kids| - 1 {
      MaxHeightBounds(kids[..|kids| - 1], i);
    }
  }

  /**
   * Every (parent, child) link below `n`, in the order a depth-first walk over the
   * children meets them: the link to a child comes just before the links inside it.
   */
  function Edges(n: Preference): seq<(Preference, Preference)>
    requires n.Valid()
    decreases n.height, |n.children| + 1
  {
    EdgesFrom(n, 0)
  }

  function EdgesFrom(n: Preference, i: nat): seq<(Preference, Preference)>
    requires n.Valid() && i <= |n.children|
    decreases n.height, |n.children| - i
  {
    if i == |n.children| then []
    else
      var c := n.children[i];
      [(n, c)] + (if c.isGroup then Edges(c) else []) + EdgesFrom(n, i + 1)
  }

  /** Every link below `n` joins two preferences of `n`'s hierarchy, the second a child of the first. */
  lemma {:induction false} EdgesInTree(n: Preference)
    requires n.Valid()
    ensures forall k :: 0 <= k < |Edges(n)| ==>
      Edges(n)[k].0 in n.nodes && Edges(n)[k].0.Valid() &&
      Edges(n)[k].1 in n.nodes && Edges(n)[k].1 in Edges(n)[k].0.children
    decreases n.height, |n.children| + 1
  {
    EdgesFromInTree(n, 0);
  }

  lemma {:induction false} EdgesFromInTree(n: Preference, i: nat)
    requires n.Valid() && i <= |n.children|
    ensures forall k :: 0 <= k < |EdgesFrom(n, i)| ==>
      EdgesFrom(n, i)[k].0 in n.nodes && EdgesFrom(n, i)[k].0.Valid() &&
      EdgesFrom(n, i)[k].1 in n.nodes && EdgesFrom(n, i)[k].1 in EdgesFrom(n, i)[k].0.children
    decreases n.height, |n.children| - i
  {
    if i < |n.children| {
      var c := n.children[i];
      var inner := if c.isGroup then Edges(c) else [];
      if c.isGroup {
        EdgesInTree(c);
      }
      EdgesFromInTree(n, i + 1);
      assert EdgesFrom(n, i) == [(n, c)] + inner + EdgesFrom(n, i + 1);
    }
  }

  /** The child of the first link in `edges` whose child carries `key`. */
  function FirstWithKey(edges: seq<(Preference, Preference)>, key: string): (r: Option<Preference>)
    ensures r.Some? <==> exists k :: 0 <= k < |edges| && edges[k].1.key == key
    ensures r.Some? ==> exists k :: 0 <= k < |edges| && edges[k].1 == r.value && r.value.key == key
  {
    if edges == [] then None
    else if edges[0].1.key == key then Some(edges[0].1)
    else
      var r := FirstWithKey(edges[1..], key);
      assert forall k :: 1 <= k < |edges| ==> edges[k] == edges[1..][k - 1];
      r
  }

  /**
   * PreferenceManager.findPreference on the screen `root`, as the platform performs it:
   * the screen itself when its key matches, otherwise the first preference with that key
   * in depth-first order. The search does not look at visibility.
   */
  function FindPreference(root: Preference, key: string): (r: Option<Preference>)
    requires root.Valid()
    ensures r.Some? ==> r.value in root.nodes && r.value.key == key
  {
    if root.key == key then Some(root)
    else
      EdgesInTree(root);
      FirstWithKey(Edges(root), key)
  }

  /** findPreference through a manager whose screen may be absent: nothing is found then. */
  function Lookup(screen: Preference?, key: string): (r: Option<Preference>)
    requires screen != null ==> screen.Valid()
    ensures r.Some? ==> screen != null && r.value in screen.nodes && r.value.key == key
  {
    if screen == null then None else FindPreference(screen, key)
  }

  /** The preferences of `screen`'s hierarchy, or none when there is no screen. */
  ghost function NodesUnder(screen: Preference?): set<Preference>
  {
    if screen == null then {} else screen.nodes
  }
}
