/**
 * ConstraintsHelper: a preference that is unavailable (its intent has no system handler,
 * or it was switched off) is queued by key in the graveyard's death row; the reaper later
 * hides every queued preference it can find, and hides the enclosing group as well once
 * nothing in it is visible. Keys not found yet stay queued for the next pass.
 */
module PreferenceConstraints {
  import opened Wrappers
  import opened PreferenceTree

  // ---------------------------------------------------------------------------
  // Finding the group that holds a preference (Graveyard.getParent)
  // ---------------------------------------------------------------------------

  /**
   * Graveyard.getParent(root, p): walks root's children in order; a child that is `p`
   * makes `root` the answer, a child that is a group is searched recursively and its
   * answer, if any, is taken. None stands for Java's null.
   */
  function GetParent(root: Preference, p: Preference): (r: Option<Preference>)
    requires root.Valid()
    ensures r.Some? ==> r.value in root.nodes && r.value.Valid() &&
                        r.value.nodes <= root.nodes && p in r.value.children
    decreases root.height, |root.children| + 1
  {
    ParentFrom(root, p, 0)
  }

  /** The loop of getParent, from child index `i` on. */
  function ParentFrom(root: Preference, p: Preference, i: nat): (r: Option<Preference>)
    requires root.Valid() && i <= |root.children|
    ensures r.Some? ==> r.value in root.nodes && r.value.Valid() &&
                        r.value.nodes <= root.nodes && p in r.value.children
    decreases root.height, |root.children| - i
  {
    if i == |root.children| then None
    else if root.children[i] == p then Some(root)
    else if root.children[i].isGroup && GetParent(root.children[i], p).Some? then
      GetParent(root.children[i], p)
    else ParentFrom(root, p, i + 1)
  }

  /** Reference definition: the parent end of the first link in `edges` that leads to `p`. */
  function FirstParent(edges: seq<(Preference, Preference)>, p: Preference): (r: Option<Preference>)
    ensures r.Some? <==> exists k :: 0 <= k < |edges| && edges[k].1 == p
  {
    if edges == [] then None
    else if edges[0].1 == p then Some(edges[0].0)
    else
      assert forall k :: 1 <= k < |edges| ==> edges[k] == edges[1..][k - 1];
      FirstParent(edges[1..], p)
  }

  lemma {:induction false} FirstParentAppend(a: seq<(Preference, Preference)>, b: seq<(Preference, Preference)>, p: Preference)
    ensures FirstParent(a + b, p) == if FirstParent(a, p).Some? then FirstParent(a, p) else FirstParent(b, p)
    decreases |a|
  {
    if a != [] {
      assert (a + b)[0] == a[0];
      assert (a + b)[1..] == a[1..] + b;
      FirstParentAppend(a[1..], b, p);
    } else {
      assert a + b == b;
    }
  }

  /**
   * getParent returns the group at the parent end of the first link, in depth-first
   * order over the children, that leads to `p`; so it returns None exactly when no
   * preference under `root` has `p` as a child.
   */
  lemma {:induction false} GetParentIsFirstLink(root: Preference, p: Preference)
    requires root.Valid()
    ensures GetParent(root, p) == FirstParent(Edges(root), p)
    ensures GetParent(root, p).None? <==> forall k :: 0 <= k < |Edges(root)| ==> Edges(root)[k].1 != p
    decreases root.height, |root.children| + 1
  {
    ParentFromIsFirstLink(root, p, 0);
  }

  lemma {:induction false} ParentFromIsFirstLink(root: Preference, p: Preference, i: nat)
    requires root.Valid() && i <= |root.children|
    ensures ParentFrom(root, p, i) == FirstParent(EdgesFrom(root, i), p)
    decreases root.height, |root.children| - i
  {
    if i < |root.children| {
      var c := root.children[i];
      var inner := if c.isGroup then Edges(c) else [];
      var rest := EdgesFrom(root, i + 1);
      assert EdgesFrom(root, i) == [(root, c)] + (inner + rest);
      ParentFromIsFirstLink(root, p, i + 1);
      if c != p {
        assert FirstParent(EdgesFrom(root, i), p) == FirstParent(inner + rest, p) by {
          assert EdgesFrom(root, i)[1..] == inner + rest;
        }
        FirstParentAppend(inner, rest, p);
        if c.isGroup {
          GetParentIsFirstLink(c, p);
        }
      }
    }
  }

  /** A preference that findPreference reaches, other than the screen itself, has a parent group. */
  lemma FoundHasParent(root: Preference, key: string)
    requires root.Valid() && root.key != key && FindPreference(root, key).Some?
    ensures GetParent(root, FindPreference(root, key).value).Some?
  {
    var x := FindPreference(root, key).value;
    GetParentIsFirstLink(root, x);
  }

  /** GetParent never answers with the preference itself: a child is strictly lower than its group. */
  lemma ParentIsNotSelf(root: Preference, p: Preference)
    requires root.Valid() && GetParent(root, p).Some?
    ensures GetParent(root, p).value != p
    ensures GetParent(root, p).value !in GetParent(root, p).value.children
  {
    var g := GetParent(root, p).value;
    forall i | 0 <= i < |g.children| ensures g.children[i] != g {
      assert g.children[i].height < g.height;
    }
  }

  // ---------------------------------------------------------------------------
  // The graveyard
  // ---------------------------------------------------------------------------

  /** `n` is the preference findPreference returns for one of `keys`. */
  ghost predicate FoundFor(screen: Preference?, keys: set<string>, n: Preference)
    requires screen != null ==> screen.Valid()
  {
    exists k :: k in keys && Lookup(screen, k) == Some(n)
  }

  /** `c` is found for one of `keys`, and `g` is the group getParent gives for it. */
  ghost predicate FoundInGroup(screen: Preference?, keys: set<string>, c: Preference, g: Preference)
    requires screen != null ==> screen.Valid()
  {
    screen != null &&
    exists k :: k in keys && Lookup(screen, k) == Some(c) && GetParent(screen, c) == Some(g)
  }

  /** `g` is the group getParent gives for a preference found for one of `keys`. */
  ghost predicate GroupOfFound(screen: Preference?, keys: set<string>, g: Preference)
    requires screen != null ==> screen.Valid()
  {
    screen != null &&
    exists k :: k in keys && Lookup(screen, k).Some? && GetParent(screen, Lookup(screen, k).value) == Some(g)
  }

  /** No child of `g` is visible. */
  ghost predicate ChildrenHidden(g: Preference)
    reads g.children
  {
    forall i :: 0 <= i < |g.children| ==> !g.children[i].visible
  }

  /*
   * The reap's loop keeps its facts over visibility maps: `init`, the visibility of every
   * preference under the screen when the reap began, and `vis`, the visibility now.
   */

  /** The visibility of every preference under `screen`. */
  ghost function Visibility(screen: Preference?): (vis: map<Preference, bool>)
    reads NodesUnder(screen)
    ensures vis.Keys == NodesUnder(screen) && forall n :: n in vis ==> vis[n] == n.visible
  {
    map n | n in NodesUnder(screen) :: n.visible
  }

  /** No child of `g` is visible in `vis`. */
  ghost predicate HiddenIn(vis: map<Preference, bool>, g: Preference)
  {
    forall i :: 0 <= i < |g.children| ==> g.children[i] in vis && !vis[g.children[i]]
  }

  /** Every preference found under `screen` for one of `keys` is hidden in `vis`. */
  ghost predicate FoundHidden(screen: Preference?, vis: map<Preference, bool>, keys: set<string>)
    requires screen != null ==> screen.Valid()
  {
    forall k :: k in keys && Lookup(screen, k).Some? ==> Lookup(screen, k).value in vis && !vis[Lookup(screen, k).value]
  }

  /** From `init` to `vis`, preferences changed only to hidden, and only as reaped for `keys`. */
  ghost predicate ReapedSince(screen: Preference?, init: map<Preference, bool>, vis: map<Preference, bool>, keys: set<string>)
    requires screen != null ==> screen.Valid()
  {
    forall n :: n in init && n in vis && vis[n] != init[n] ==> !vis[n] && Reaped(screen, keys, n)
  }

  /** From `init` to `vis`, a preference that changed without being found for `keys` has no child visible. */
  ghost predicate EmptiedSince(screen: Preference?, init: map<Preference, bool>, vis: map<Preference, bool>, keys: set<string>)
    requires screen != null ==> screen.Valid()
  {
    forall n :: n in init && n in vis && vis[n] != init[n] && !FoundFor(screen, keys, n) ==> HiddenIn(vis, n)
  }

  /** Every child of `g` was hidden in `init` or is found for one of `keys` with `g` as its group. */
  ghost predicate SettledIn(screen: Preference?, init: map<Preference, bool>, keys: set<string>, g: Preference)
    requires screen != null ==> screen.Valid()
  {
    forall i :: 0 <= i < |g.children| ==>
      (g.children[i] in init && !init[g.children[i]]) || FoundInGroup(screen, keys, g.children[i], g)
  }

  /** Every group of a preference found for `keys` whose children are settled against `init` is hidden in `vis`. */
  ghost predicate SettledHidden(screen: Preference?, init: map<Preference, bool>, vis: map<Preference, bool>, keys: set<string>)
    requires screen != null ==> screen.Valid()
  {
    forall g :: g in init && g in vis && GroupOfFound(screen, keys, g) && SettledIn(screen, init, keys, g) ==> !vis[g]
  }

  /** All four facts the reap's loop keeps after handling `keys`. */
  ghost predicate ReapInvariant(screen: Preference?, init: map<Preference, bool>, vis: map<Preference, bool>, keys: set<string>)
    requires screen != null ==> screen.Valid()
  {
    FoundHidden(screen, vis, keys) && ReapedSince(screen, init, vis, keys) &&
    EmptiedSince(screen, init, vis, keys) && SettledHidden(screen, init, vis, keys)
  }

  /**
   * What one hidePreference call does, from `before` to `after`: `pref` is hidden, `group`
   * is hidden when none of its children is visible, and nothing else changes.
   */
  ghost predicate HidStep(before: map<Preference, bool>, after: map<Preference, bool>, pref: Preference, group: Preference)
  {
    after.Keys == before.Keys && pref in after && group in after && !after[pref] &&
    after[group] == (before[group] && exists i :: 0 <= i < |group.children| && group.children[i] in after && after[group.children[i]]) &&
    forall n :: n in before && n != pref && n != group ==> after[n] == before[n]
  }

  /** Hiding the preference found for `dead` keeps the reap's facts, now over `keys` and `dead`. */
  lemma HideKeepsReapInvariant(screen: Preference, init: map<Preference, bool>, before: map<Preference, bool>,
                               after: map<Preference, bool>, keys: set<string>, dead: string, pref: Preference, group: Preference)
    requires screen.Valid() && screen.Exact() && init.Keys == screen.nodes && before.Keys == screen.nodes
    requires Lookup(screen, dead) == Some(pref) && GetParent(screen, pref) == Some(group)
    requires ReapInvariant(screen, init, before, keys) && HidStep(before, after, pref, group)
    ensures ReapInvariant(screen, init, after, keys + {dead})
  {
    HideKeepsFoundHidden(screen, before, after, keys, dead, pref, group);
    HideKeepsReaped(screen, init, before, after, keys, dead, pref, group);
    HideKeepsEmptied(screen, init, before, after, keys, dead, pref, group);
    HideKeepsSettled(screen, init, before, after, keys, dead, pref, group);
  }

  lemma HideKeepsFoundHidden(screen: Preference, before: map<Preference, bool>, after: map<Preference, bool>,
                             keys: set<string>, dead: string, pref: Preference, group: Preference)
    requires screen.Valid() && before.Keys == screen.nodes
    requires Lookup(screen, dead) == Some(pref) && FoundHidden(screen, before, keys) && HidStep(before, after, pref, group)
    ensures FoundHidden(screen, after, keys + {dead})
  {
    forall k | k in keys + {dead} && Lookup(screen, k).Some?
      ensures Lookup(screen, k).value in after && !after[Lookup(screen, k).value]
    {
      if k != dead {
        assert !before[Lookup(screen, k).value];
      }
    }
  }

  lemma HideKeepsReaped(screen: Preference, init: map<Preference, bool>, before: map<Preference, bool>,
                        after: map<Preference, bool>, keys: set<string>, dead: string, pref: Preference, group: Preference)
    requires screen.Valid() && screen.Exact() && init.Keys == screen.nodes && before.Keys == screen.nodes
    requires Lookup(screen, dead) == Some(pref) && GetParent(screen, pref) == Some(group)
    requires ReapedSince(screen, init, before, keys) && HidStep(before, after, pref, group)
    ensures ReapedSince(screen, init, after, keys + {dead})
  {
    assert Reaped(screen, keys + {dead}, pref) && Reaped(screen, keys + {dead}, group);
    forall n | n in init && n in after && after[n] != init[n] ensures !after[n] && Reaped(screen, keys + {dead}, n) {
      if n != pref && n != group {
        assert Reaped(screen, keys, n);
      }
    }
  }

  lemma HideKeepsEmptied(screen: Preference, init: map<Preference, bool>, before: map<Preference, bool>,
                         after: map<Preference, bool>, keys: set<string>, dead: string, pref: Preference, group: Preference)
    requires screen.Valid() && screen.Exact() && init.Keys == screen.nodes && before.Keys == screen.nodes
    requires Lookup(screen, dead) == Some(pref) && GetParent(screen, pref) == Some(group)
    requires EmptiedSince(screen, init, before, keys) && HidStep(before, after, pref, group)
    ensures EmptiedSince(screen, init, after, keys + {dead})
  {
    var keys' := keys + {dead};
    assert FoundFor(screen, keys', pref);
    forall n | n in init && n in after && after[n] != init[n] && !FoundFor(screen, keys', n)
      ensures HiddenIn(after, n)
    {
      NodesClosed(screen, n);
      if after[n] != before[n] {
        assert n == group;
      } else {
        assert !FoundFor(screen, keys, n);
        assert HiddenIn(before, n);
        forall i | 0 <= i < |n.children| ensures n.children[i] in after && !after[n.children[i]] {
          assert n.children[i] in screen.nodes;
        }
      }
    }
  }

  lemma HideKeepsSettled(screen: Preference, init: map<Preference, bool>, before: map<Preference, bool>,
                         after: map<Preference, bool>, keys: set<string>, dead: string, pref: Preference, group: Preference)
    requires screen.Valid() && screen.Exact() && init.Keys == screen.nodes && before.Keys == screen.nodes
    requires Lookup(screen, dead) == Some(pref) && GetParent(screen, pref) == Some(group)
    requires ReapedSince(screen, init, before, keys) && FoundHidden(screen, before, keys)
    requires SettledHidden(screen, init, before, keys) && HidStep(before, after, pref, group)
    ensures SettledHidden(screen, init, after, keys + {dead})
  {
    var keys' := keys + {dead};
    forall g | g in init && g in after && GroupOfFound(screen, keys', g) && SettledIn(screen, init, keys', g)
      ensures !after[g]
    {
      if g == group {
        SettledGroupHidden(screen, init, before, after, keys, dead, pref, group);
      } else if g != pref {
        OtherGroupStaysHidden(screen, init, before, keys, dead, pref, group, g);
      }
    }
  }

  /** The group of the preference just hidden ends hidden once its children are settled. */
  lemma SettledGroupHidden(screen: Preference, init: map<Preference, bool>, before: map<Preference, bool>,
                           after: map<Preference, bool>, keys: set<string>, dead: string, pref: Preference, group: Preference)
    requires screen.Valid() && screen.Exact() && init.Keys == screen.nodes && before.Keys == screen.nodes
    requires Lookup(screen, dead) == Some(pref) && GetParent(screen, pref) == Some(group)
    requires ReapedSince(screen, init, before, keys) && FoundHidden(screen, before, keys)
    requires HidStep(before, after, pref, group) && SettledIn(screen, init, keys + {dead}, group)
    ensures !after[group]
  {
    var keys' := keys + {dead};
    NodesClosed(screen, group);
    forall i | 0 <= i < |group.children| ensures !after[group.children[i]] {
      var c := group.children[i];
      assert c in screen.nodes;
      if !FoundInGroup(screen, keys', c, group) {
        assert !init[c];
        assert !before[c];
      } else {
        var k :| k in keys' && Lookup(screen, k) == Some(c) && GetParent(screen, c) == Some(group);
        if k != dead {
          assert !before[c];
        }
      }
    }
  }

  /** A group other than the one just touched gains nothing from `dead`, so it was hidden already. */
  lemma OtherGroupStaysHidden(screen: Preference, init: map<Preference, bool>, before: map<Preference, bool>,
                              keys: set<string>, dead: string, pref: Preference, group: Preference, g: Preference)
    requires screen.Valid() && screen.Exact() && init.Keys == screen.nodes && before.Keys == screen.nodes
    requires Lookup(screen, dead) == Some(pref) && GetParent(screen, pref) == Some(group)
    requires SettledHidden(screen, init, before, keys)
    requires g in init && g != group
    requires GroupOfFound(screen, keys + {dead}, g) && SettledIn(screen, init, keys + {dead}, g)
    ensures !before[g]
  {
    OtherGroupOfFound(screen, keys, dead, pref, group, g);
    OtherSettledIn(screen, init, keys, dead, pref, group, g);
  }

  lemma OtherGroupOfFound(screen: Preference, keys: set<string>, dead: string, pref: Preference, group: Preference, g: Preference)
    requires screen.Valid()
    requires Lookup(screen, dead) == Some(pref) && GetParent(screen, pref) == Some(group)
    requires g != group && GroupOfFound(screen, keys + {dead}, g)
    ensures GroupOfFound(screen, keys, g)
  {
    var k :| k in keys + {dead} && Lookup(screen, k).Some? && GetParent(screen, Lookup(screen, k).value) == Some(g);
    assert k in keys;
  }

  lemma OtherSettledIn(screen: Preference, init: map<Preference, bool>, keys: set<string>, dead: string,
                       pref: Preference, group: Preference, g: Preference)
    requires screen.Valid()
    requires Lookup(screen, dead) == Some(pref) && GetParent(screen, pref) == Some(group)
    requires g != group && SettledIn(screen, init, keys + {dead}, g)
    ensures SettledIn(screen, init, keys, g)
  {
    forall i | 0 <= i < |g.children| && FoundInGroup(screen, keys + {dead}, g.children[i], g)
      ensures FoundInGroup(screen, keys, g.children[i], g)
    {
      var c := g.children[i];
      var k :| k in keys + {dead} && Lookup(screen, k) == Some(c) && GetParent(screen, c) == Some(g);
      assert k in keys;
    }
  }

  /** The keys of `keys` that findPreference does not find under `screen`. */
  ghost function NotFound(screen: Preference?, keys: set<string>): set<string>
    requires screen != null ==> screen.Valid()
  {
    set k | k in keys && Lookup(screen, k).None?
  }

  lemma NotFoundAdd(screen: Preference?, keys: set<string>, dead: string)
    requires screen != null ==> screen.Valid()
    ensures NotFound(screen, keys + {dead}) == NotFound(screen, keys) + (if Lookup(screen, dead).None? then {dead} else {})
  {
  }

  /** A key the screen does not hold keeps the reap's facts, now over `keys` and `dead`. */
  lemma MissKeepsReapInvariant(screen: Preference?, init: map<Preference, bool>, vis: map<Preference, bool>,
                               keys: set<string>, dead: string)
    requires screen != null ==> screen.Valid()
    requires Lookup(screen, dead).None? && ReapInvariant(screen, init, vis, keys)
    ensures ReapInvariant(screen, init, vis, keys + {dead})
  {
    var keys' := keys + {dead};
    forall n | n in init && n in vis && vis[n] != init[n] && !FoundFor(screen, keys', n) ensures HiddenIn(vis, n) {
      assert !FoundFor(screen, keys, n);
    }
    forall g | g in init && g in vis && GroupOfFound(screen, keys', g) && SettledIn(screen, init, keys', g)
      ensures !vis[g]
    {
      assert GroupOfFound(screen, keys, g);
      assert SettledIn(screen, init, keys, g);
    }
  }

  /**
   * `n` is one of the preferences a reap of `keys` may hide: a preference found for one
   * of the keys, or the group holding it.
   */
  ghost predicate Reaped(screen: Preference?, keys: set<string>, n: Preference)
    requires screen != null ==> screen.Valid()
  {
    screen != null &&
    exists k :: k in keys && FindPreference(screen, k).Some? &&
      (n == FindPreference(screen, k).value || GetParent(screen, FindPreference(screen, k).value) == Some(n))
  }

  /**
   * The process-wide graveyard (one shared object; its lazy creation and the locks
   * around death row are not modelled).
   */
  class Graveyard {
    var deathRow: set<string>

    constructor ()
      ensures deathRow == {}
    {
      deathRow := {};
    }

    /** Queues `key`; queuing a key that is already queued changes nothing. */
    method AddTombstone(key: string)
      modifies this
      ensures deathRow == old(deathRow) + {key}
      ensures key in old(deathRow) ==> deathRow == old(deathRow)
    {
      deathRow := deathRow + {key};
    }

    /**
     * hidePreference: hides `pref`, then hides its group if no child of the group is
     * visible any more. The group is dereferenced unchecked, so `pref` must have one.
     */
    method HidePreference(screen: Preference, pref: Preference)
      requires screen.Valid() && GetParent(screen, pref).Some?
      modifies screen.nodes
      ensures !pref.visible
      ensures var g := GetParent(screen, pref).value;
        g.visible == (old(g.visible) && exists i :: 0 <= i < |g.children| && g.children[i].visible)
      ensures forall n :: n in screen.nodes && n != pref && n != GetParent(screen, pref).value ==>
        n.visible == old(n.visible)
    {
      var group := GetParent(screen, pref).value;
      ParentIsNotSelf(screen, pref);
      pref.visible := false;
      var allHidden := true;
      var i := 0;
      while i < |group.children|
        invariant 0 <= i <= |group.children|
        invariant allHidden
        invariant forall j :: 0 <= j < i ==> !group.children[j].visible
      {
        if group.children[i].visible {
          allHidden := false;
          break;
        }
        i := i + 1;
      }
      if allHidden {
        group.visible := false;
      }
    }

    /**
     * summonReaper: every queued key that the screen holds a preference for has that
     * preference hidden; death row becomes exactly the queued keys not found. Only the
     * found preferences and their groups change, and only from visible to hidden.
     * Because findPreference ignores visibility, a second reap over the same screen finds
     * none of the keys left and changes nothing. Whatever order death row is walked in, a
     * preference hidden only as a group ends with no child visible, and a group of a found
     * preference ends hidden when each of its children was hidden already or is found
     * with that group as its parent.
     */
    method SummonReaper(screen: Preference?)
      requires screen != null ==> screen.Valid() && screen.Exact() && screen.key !in deathRow
      modifies this, NodesUnder(screen)
      ensures deathRow == set k | k in old(deathRow) && Lookup(screen, k).None?
      ensures forall k :: k in old(deathRow) && Lookup(screen, k).Some? ==> !Lookup(screen, k).value.visible
      ensures forall n :: n in NodesUnder(screen) && n.visible != old(n.visible) ==>
        !n.visible && Reaped(screen, old(deathRow), n)
      ensures (forall k :: k in old(deathRow) ==> Lookup(screen, k).None?) ==>
        deathRow == old(deathRow) && forall n :: n in NodesUnder(screen) ==> n.visible == old(n.visible)
      ensures forall n ::
        (n in NodesUnder(screen) && n.visible != old(n.visible) && !FoundFor(screen, old(deathRow), n)) ==>
        ChildrenHidden(n)
      ensures forall g ::
        (g in NodesUnder(screen) && GroupOfFound(screen, old(deathRow), g) &&
         SettledIn(screen, old(Visibility(screen)), old(deathRow), g)) ==>
        !g.visible
    {
      ghost var init := Visibility(screen);
      var notReadyForReap: set<string> := {};
      var todo := deathRow;
      while todo != {}
        invariant todo <= deathRow && deathRow == old(deathRow)
        invariant notReadyForReap == NotFound(screen, deathRow - todo)
        invariant init == old(Visibility(screen))
        invariant ReapInvariant(screen, init, Visibility(screen), deathRow - todo)
        decreases todo
      {
        var dead :| dead in todo;
        assert deathRow - (todo - {dead}) == (deathRow - todo) + {dead};
        NotFoundAdd(screen, deathRow - todo, dead);
        var deadPref := Lookup(screen, dead);
        if deadPref.Some? {
          FoundHasParent(screen, dead);
          ghost var group := GetParent(screen, deadPref.value).value;
          ghost var before := Visibility(screen);
          HidePreference(screen, deadPref.value);
          ghost var after := Visibility(screen);
          assert HidStep(before, after, deadPref.value, group);
          HideKeepsReapInvariant(screen, init, before, after, deathRow - todo, dead, deadPref.value, group);
        } else {
          MissKeepsReapInvariant(screen, init, Visibility(screen), deathRow - todo, dead);
          notReadyForReap := notReadyForReap + {dead};
        }
        todo := todo - {dead};
      }
      assert deathRow - todo == old(deathRow);
      ghost var vis := Visibility(screen);
      if screen != null {
        forall n | n in NodesUnder(screen) && n.visible != old(n.visible) && !FoundFor(screen, old(deathRow), n)
          ensures ChildrenHidden(n)
        {
          assert HiddenIn(vis, n);
        }
      }
      deathRow := notReadyForReap;
    }
  }

  // ---------------------------------------------------------------------------
  // Intent resolution and theme attributes
  // ---------------------------------------------------------------------------

  /** ApplicationInfo.FLAG_SYSTEM: the application is installed in the system image. */
  const FLAG_SYSTEM: bv32 := 1

  /** What the package manager reports about one activity that can handle an intent. */
  datatype ResolveInfo = ResolveInfo(applicationFlags: bv32)

  /** Some handler of the intent belongs to a system application. */
  ghost predicate HasSystemHandler(handlers: seq<ResolveInfo>)
  {
    exists i :: 0 <= i < |handlers| && handlers[i].applicationFlags & FLAG_SYSTEM != 0
  }

  /**
   * resolveIntent: `handlers` is what the package manager's query for the intent returns;
   * the intent resolves when one of them carries FLAG_SYSTEM.
   */
  method ResolveIntent(handlers: seq<ResolveInfo>) returns (resolves: bool)
    ensures resolves <==> HasSystemHandler(handlers)
  {
    for i := 0 to |handlers|
      invariant forall j :: 0 <= j < i ==> handlers[j].applicationFlags & FLAG_SYSTEM == 0
    {
      if handlers[i].applicationFlags & FLAG_SYSTEM != 0 {
        return true;
      }
    }
    return false;
  }

  /**
   * getAttr: `theme` gives the resource id each attribute resolves to in the current
   * theme; an attribute the theme does not resolve leaves the id at 0.
   */
  function GetAttr(theme: map<int, int>, attr: int, fallbackAttr: int): (r: int)
    ensures r == attr || r == fallbackAttr
    ensures attr in theme && theme[attr] != 0 ==> r == attr
    ensures (attr !in theme || theme[attr] == 0) ==> r == fallbackAttr
  {
    var resourceId := if attr in theme then theme[attr] else 0;
    if resourceId != 0 then attr else fallbackAttr
  }

  // ---------------------------------------------------------------------------
  // The per-preference helper
  // ---------------------------------------------------------------------------

  /**
   * One ConstraintsHelper, owned by the preference `pref`. `intentHandlers` arguments
   * stand for the preference's intent: None when it has none, otherwise what the package
   * manager reports as able to handle it.
   */
  class ConstraintsHelper {
    const pref: Preference
    const graveyard: Graveyard
    /** The key of a preference this one replaces, read from the XML attributes. */
    const replacesKey: Option<string>
    var available: bool

    constructor (pref: Preference, graveyard: Graveyard, replacesKey: Option<string>)
      ensures this.pref == pref && this.graveyard == graveyard && this.replacesKey == replacesKey
      ensures available
    {
      this.pref := pref;
      this.graveyard := graveyard;
      this.replacesKey := replacesKey;
      available := true;
    }

    /** isAvailable: the last value given to setAvailable or set by checkIntent. */
    function IsAvailable(): bool
      reads this
    {
      available
    }

    /** setAvailable: records the flag; switching the preference off also queues its key. */
    method SetAvailable(available: bool)
      modifies this, graveyard
      ensures this.available == available
      ensures graveyard.deathRow == if available then old(graveyard.deathRow)
                                    else old(graveyard.deathRow) + {pref.key}
    {
      this.available := available;
      if !available {
        graveyard.AddTombstone(pref.key);
      }
    }

    /** The intent is present and has no system handler. */
    ghost predicate IntentFails(intentHandlers: Option<seq<ResolveInfo>>)
    {
      intentHandlers.Some? && !HasSystemHandler(intentHandlers.value)
    }

    /** checkIntent: an intent without a system handler queues the key and switches the preference off. */
    method CheckIntent(intentHandlers: Option<seq<ResolveInfo>>)
      modifies this, graveyard
      ensures available == (old(available) && !IntentFails(intentHandlers))
      ensures graveyard.deathRow == old(graveyard.deathRow) + (if IntentFails(intentHandlers) then {pref.key} else {})
    {
      if intentHandlers.Some? {
        var resolves := ResolveIntent(intentHandlers.value);
        if !resolves {
          graveyard.AddTombstone(pref.key);
          available := false;
        }
      }
    }

    /** The keys queued when onAttached reaches the reaper. */
    ghost function QueuedOnAttach(intentHandlers: Option<seq<ResolveInfo>>): set<string>
      reads this, graveyard
    {
      var stillAvailable := available && !IntentFails(intentHandlers);
      graveyard.deathRow
        + (if IntentFails(intentHandlers) then {pref.key} else {})
        + (if stillAvailable && replacesKey.Some? then {replacesKey.value} else {})
    }

    /**
     * onAttached: checks the intent, queues the replaced key when this preference is still
     * available, then always reaps over `screen`.
     */
    method OnAttached(intentHandlers: Option<seq<ResolveInfo>>, screen: Preference?)
      requires screen != null ==> screen.Valid() && screen.Exact() && screen.key !in QueuedOnAttach(intentHandlers)
      modifies this, graveyard, NodesUnder(screen)
      ensures available == (old(available) && !IntentFails(intentHandlers))
      ensures graveyard.deathRow == set k | k in old(QueuedOnAttach(intentHandlers)) && Lookup(screen, k).None?
      ensures forall k :: k in old(QueuedOnAttach(intentHandlers)) && Lookup(screen, k).Some? ==>
        !Lookup(screen, k).value.visible
      ensures forall n :: n in NodesUnder(screen) && n.visible != old(n.visible) ==>
        !n.visible && Reaped(screen, old(QueuedOnAttach(intentHandlers)), n)
      ensures forall n ::
        (n in NodesUnder(screen) && n.visible != old(n.visible) &&
         !FoundFor(screen, old(QueuedOnAttach(intentHandlers)), n)) ==>
        ChildrenHidden(n)
      ensures forall g ::
        (g in NodesUnder(screen) && GroupOfFound(screen, old(QueuedOnAttach(intentHandlers)), g) &&
         SettledIn(screen, old(Visibility(screen)), old(QueuedOnAttach(intentHandlers)), g)) ==>
        !g.visible
    {
      ghost var queued := QueuedOnAttach(intentHandlers);
      ghost var vis := Visibility(screen);
      CheckIntent(intentHandlers);
      if IsAvailable() && replacesKey.Some? {
        graveyard.AddTombstone(replacesKey.value);
      }
      assert graveyard.deathRow == queued && Visibility(screen) == vis;
      graveyard.SummonReaper(screen);
    }
  }
}
