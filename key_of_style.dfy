/** GetKeyOfStyle: the key of an element's Style, looked up in the element's own resources,
    then in those of its ancestors, nearest first, then in the application's resources. */
module KeyOfStyle {
  import opened Wpf
  import opened FindName

  /** The step of the upward walk after the first one: a FrameworkElement's logical parent
      when it has one, otherwise the visual parent. */
  function NextAncestor(w: World, n: NodeId): (r: Option<NodeId>)
    requires WellFormed(w) && n in w.nodes
    ensures r.Some? ==> r.value in w.nodes
  {
    var node := w.nodes[n];
    if node.FrameworkElement? && node.logicalParent.Some? then node.logicalParent
    else node.visualParent
  }

  /** `rank` strictly decreases along every step the walk for `style` takes from a ranked
      node. The walk steps on only from a node that yields no name, so nodes past the first
      one that yields a name need no rank. */
  ghost predicate Ranked(w: World, rank: map<NodeId, nat>, style: Obj)
    requires WellFormed(w)
  {
    forall n | n in rank ::
      n in w.nodes && (Lookup(w, n, style).None? && NextAncestor(w, n).Some? ==>
        NextAncestor(w, n).value in rank && rank[NextAncestor(w, n).value] < rank[n])
  }

  /** The walk from the FrameworkElement `e`, if it is taken at all (the element has a Style
      that its own resources do not name), starts at a ranked node, its visual parent, and
      `rank` decreases along it. */
  ghost predicate WalkRanked(w: World, rank: map<NodeId, nat>, e: NodeId)
    requires WellFormed(w) && e in w.nodes && w.nodes[e].FrameworkElement?
  {
    var fe := w.nodes[e];
    fe.style.Some? && FindNameFromResource(fe.resources, fe.style.value).None? ==>
      Ranked(w, rank, fe.style.value) && (fe.visualParent.Some? ==> fe.visualParent.value in rank)
  }

  /** What looking at one visited node yields: a FrameworkElement's resources are searched,
      any other node is passed over. */
  function Lookup(w: World, n: NodeId, style: Obj): Option<string> {
    if n in w.nodes && w.nodes[n].FrameworkElement? then FindNameFromResource(w.nodes[n].resources, style)
    else None
  }

  /** `ns` is a complete run of the walk for `style`: every node but the last yields no name
      and steps on to the next; the last yields a name or has no next ancestor. */
  ghost predicate IsWalk(w: World, style: Obj, ns: seq<NodeId>)
    requires WellFormed(w)
  {
    (forall i | 0 <= i < |ns| :: ns[i] in w.nodes) &&
    (forall i | 0 <= i < |ns| - 1 :: Lookup(w, ns[i], style).None? && NextAncestor(w, ns[i]) == Some(ns[i + 1])) &&
    (ns != [] ==> Lookup(w, ns[|ns| - 1], style).Some? || NextAncestor(w, ns[|ns| - 1]).None?)
  }

  /** The nodes the walk for `style` visits, starting from `start`, in the order it visits
      them: it stops at the first node that yields a name, or where there is no next node. */
  ghost function Ancestors(w: World, rank: map<NodeId, nat>, style: Obj, start: Option<NodeId>): (r: seq<NodeId>)
    requires WellFormed(w) && Ranked(w, rank, style)
    requires start.Some? ==> start.value in rank
    ensures start.None? <==> r == []
    ensures r != [] ==> r[0] == start.value
    ensures IsWalk(w, style, r)
    decreases if start.Some? then rank[start.value] + 1 else 0
  {
    if start.None? then []
    else if Lookup(w, start.value, style).Some? || NextAncestor(w, start.value).None? then [start.value]
    else [start.value] + Ancestors(w, rank, style, NextAncestor(w, start.value))
  }

  /** The first non-null name the nodes yield, in order. */
  function FirstHit(w: World, ns: seq<NodeId>, style: Obj): (r: Option<string>)
    ensures r.None? <==> forall i | 0 <= i < |ns| :: Lookup(w, ns[i], style).None?
    ensures r.Some? ==>
      exists i :: 0 <= i < |ns| && Lookup(w, ns[i], style) == r &&
        forall j :: 0 <= j < i ==> Lookup(w, ns[j], style).None?
    decreases |ns|
  {
    if ns == [] then None
    else if Lookup(w, ns[0], style).Some? then Lookup(w, ns[0], style)
    else FirstHit(w, ns[1..], style)
  }

  /** The key GetKeyOfStyle returns for the FrameworkElement `e`: "" when it has no Style;
      otherwise the first non-null name found in its own resources, then along its ancestors
      (the walk starts at its visual parent), then in the application's resources; "" when
      none of them yields one. */
  ghost function KeyOf(w: World, rank: map<NodeId, nat>, e: NodeId): (key: string)
    requires WellFormed(w) && e in w.nodes && w.nodes[e].FrameworkElement? && WalkRanked(w, rank, e)
  {
    var fe := w.nodes[e];
    match fe.style
    case None => ""
    case Some(style) =>
      var own := FindNameFromResource(fe.resources, style);
      if own.Some? then own.value
      else
        var up := FirstHit(w, Ancestors(w, rank, style, fe.visualParent), style);
        if up.Some? then up.value
        else if w.application.Some? then
          match FindNameFromResource(w.application.value, style)
          case Some(name) => name
          case None => ""
        else ""
  }

  /** The walk itself: a loop over the ancestors that stops at the first non-null name. */
  method GetKeyOfStyle(w: World, element: NodeId, ghost rank: map<NodeId, nat>) returns (key: string)
    requires WellFormed(w) && element in w.nodes && w.nodes[element].FrameworkElement?
    requires WalkRanked(w, rank, element)
    ensures key == KeyOf(w, rank, element)
  {
    var fe := w.nodes[element];
    if fe.style.Some? {
      var style := fe.style.value;
      var name := FindNameFromResource(fe.resources, style);
      if name.Some? {
        return name.value;
      }
      var d := fe.visualParent;
      while d.Some?
        invariant d.Some? ==> d.value in rank
        invariant name.None?
        invariant FirstHit(w, Ancestors(w, rank, style, fe.visualParent), style) ==
                  FirstHit(w, Ancestors(w, rank, style, d), style)
        decreases if d.Some? then rank[d.value] + 1 else 0
      {
        var node := w.nodes[d.value];
        ghost var visited := Ancestors(w, rank, style, d);
        assert visited[0] == d.value;
        if node.FrameworkElement? {
          name := FindNameFromResource(node.resources, style);
        }
        if name.Some? {
          return name.value;
        }
        assert Lookup(w, d.value, style).None?;
        assert visited[1..] == Ancestors(w, rank, style, NextAncestor(w, d.value));
        if node.FrameworkElement? && node.logicalParent.Some? {
          d := node.logicalParent;
        } else {
          d := node.visualParent;
        }
      }
      if w.application.Some? {
        name := FindNameFromResource(w.application.value, style);
        if name.Some? {
          return name.value;
        }
      }
    }
    return "";
  }

  /** The element's own resources beat every ancestor and the application. */
  lemma OwnResourcesFirst(w: World, rank: map<NodeId, nat>, e: NodeId, style: Obj)
    requires WellFormed(w)
    requires e in w.nodes && w.nodes[e].FrameworkElement? && w.nodes[e].style == Some(style)
    requires WalkRanked(w, rank, e)
    requires FindNameFromResource(w.nodes[e].resources, style).Some?
    ensures KeyOf(w, rank, e) == FindNameFromResource(w.nodes[e].resources, style).value
  {
  }

  /** Nearer ancestors beat farther ones: the first visited node that yields a name, even
      the empty one, decides the key, whatever the nodes after it and the application hold. */
  lemma NearestAncestorFirst(w: World, rank: map<NodeId, nat>, e: NodeId, style: Obj, i: nat)
    requires WellFormed(w)
    requires e in w.nodes && w.nodes[e].FrameworkElement? && w.nodes[e].style == Some(style)
    requires WalkRanked(w, rank, e)
    requires FindNameFromResource(w.nodes[e].resources, style).None?
    requires i < |Ancestors(w, rank, style, w.nodes[e].visualParent)|
    requires Lookup(w, Ancestors(w, rank, style, w.nodes[e].visualParent)[i], style).Some?
    requires forall j :: 0 <= j < i ==> Lookup(w, Ancestors(w, rank, style, w.nodes[e].visualParent)[j], style).None?
    ensures KeyOf(w, rank, e) == Lookup(w, Ancestors(w, rank, style, w.nodes[e].visualParent)[i], style).value
  {
    var ns := Ancestors(w, rank, style, w.nodes[e].visualParent);
    var up := FirstHit(w, ns, style);
    var k :| 0 <= k < |ns| && Lookup(w, ns[k], style) == up &&
      forall j :: 0 <= j < k ==> Lookup(w, ns[j], style).None?;
    assert k == i;
  }

  /** Every ancestor beats the application: its resources are searched only when neither the
      element nor any visited node yields a name, and with no application the key is "". */
  lemma ApplicationLast(w: World, rank: map<NodeId, nat>, e: NodeId, style: Obj)
    requires WellFormed(w)
    requires e in w.nodes && w.nodes[e].FrameworkElement? && w.nodes[e].style == Some(style)
    requires WalkRanked(w, rank, e)
    requires FindNameFromResource(w.nodes[e].resources, style).None?
    requires forall n | n in Ancestors(w, rank, style, w.nodes[e].visualParent) :: Lookup(w, n, style).None?
    ensures w.application.None? ==> KeyOf(w, rank, e) == ""
    ensures w.application.Some? && FindNameFromResource(w.application.value, style).Some? ==>
      KeyOf(w, rank, e) == FindNameFromResource(w.application.value, style).value
    ensures w.application.Some? && FindNameFromResource(w.application.value, style).None? ==>
      KeyOf(w, rank, e) == ""
  {
  }

  /** A sealed Style never has a key: every dictionary search rejects it outright. */
  lemma SealedStyleHasNoKey(w: World, rank: map<NodeId, nat>, e: NodeId)
    requires WellFormed(w)
    requires e in w.nodes && w.nodes[e].FrameworkElement?
    requires WalkRanked(w, rank, e)
    requires w.nodes[e].style.Some? && w.nodes[e].style.value.sealed
    ensures KeyOf(w, rank, e) == ""
  {
  }

  /** An element without a Style gets the key "". */
  lemma NoStyleNoKey(w: World, rank: map<NodeId, nat>, e: NodeId)
    requires WellFormed(w)
    requires e in w.nodes && w.nodes[e].FrameworkElement? && w.nodes[e].style.None?
    ensures KeyOf(w, rank, e) == ""
  {
  }

  /** `entry` is registered in the resources of the FrameworkElement `n`. */
  predicate RegisteredAt(w: World, n: NodeId, entry: Entry) {
    n in w.nodes && w.nodes[n].FrameworkElement? && entry in Flatten(w.nodes[n].resources)
  }

  /** A non-empty key is the key of an entry holding the element's own Style, which is then
      unsealed, in the element's resources, in those of a visited FrameworkElement, or in the
      application's. */
  lemma KeyIsRegistered(w: World, rank: map<NodeId, nat>, e: NodeId, style: Obj)
    requires WellFormed(w)
    requires e in w.nodes && w.nodes[e].FrameworkElement? && w.nodes[e].style == Some(style)
    requires WalkRanked(w, rank, e)
    requires KeyOf(w, rank, e) != ""
    ensures !IsSealedItem(style)
    ensures var entry := Entry(KeyOf(w, rank, e), Ref(style.id));
      RegisteredAt(w, e, entry) ||
      (exists n | n in Ancestors(w, rank, style, w.nodes[e].visualParent) :: RegisteredAt(w, n, entry)) ||
      (w.application.Some? && entry in Flatten(w.application.value))
  {
    var fe := w.nodes[e];
    var key := KeyOf(w, rank, e);
    if FindNameFromResource(fe.resources, style).Some? {
      assert RegisteredAt(w, e, Entry(key, Ref(style.id)));
    } else {
      var ns := Ancestors(w, rank, style, fe.visualParent);
      var up := FirstHit(w, ns, style);
      if up.Some? {
        var i :| 0 <= i < |ns| && Lookup(w, ns[i], style) == up &&
          forall j :: 0 <= j < i ==> Lookup(w, ns[j], style).None?;
        assert ns[i] in ns && RegisteredAt(w, ns[i], Entry(key, Ref(style.id)));
      }
    }
  }

  /** The element's own logical parent is never followed (the walk starts at its visual
      parent), so it needs no rank: here node 0's logical parent 1 leads back to 0, yet the
      walk from 0 visits node 2 only, and GetKeyOfStyle may be called on node 0. */
  lemma FirstStepIgnoresLogicalParent()
    ensures var w := World(map[0 := FrameworkElement(Some(Obj(5, StyleKind, false)), Dict([], []), Some(1), Some(2)),
                               1 := FrameworkElement(None, Dict([], []), None, Some(0)),
                               2 := OtherNode(None)], None);
      var rank := map[2 := 0];
      WellFormed(w) && WalkRanked(w, rank, 0) &&
      Ancestors(w, rank, Obj(5, StyleKind, false), w.nodes[0].visualParent) == [2] && KeyOf(w, rank, 0) == ""
  {
  }

  /** The walk stops at the first node that yields a name, so a cycle beyond it needs no rank:
      here node 1 names the Style "K" and its logical parent 2 leads back to 1, yet the walk
      from 0 visits node 1 only and the key is "K". */
  lemma CycleBeyondFirstHitIsNotWalked()
    ensures var style := Obj(5, StyleKind, false);
      var w := World(map[0 := FrameworkElement(Some(style), Dict([], []), None, Some(1)),
                         1 := FrameworkElement(None, Dict([Entry("K", Ref(5))], []), Some(2), None),
                         2 := FrameworkElement(None, Dict([], []), Some(1), None)], None);
      var rank := map[1 := 0];
      WellFormed(w) && WalkRanked(w, rank, 0) &&
      Ancestors(w, rank, style, w.nodes[0].visualParent) == [1] && KeyOf(w, rank, 0) == "K"
  {
  }

  /** A walk that ends never visits a node twice: the walk is deterministic, so a node seen
      twice would repeat forever and no node could end it. */
  lemma {:induction false} WalkIsDistinct(w: World, style: Obj, ns: seq<NodeId>, i: nat, j: nat)
    requires WellFormed(w) && IsWalk(w, style, ns)
    requires i < j < |ns|
    ensures ns[i] != ns[j]
    decreases |ns| - j
  {
    if j < |ns| - 1 {
      WalkIsDistinct(w, style, ns, i + 1, j + 1);
      assert NextAncestor(w, ns[i]) == Some(ns[i + 1]) && NextAncestor(w, ns[j]) == Some(ns[j + 1]);
    } else {
      assert Lookup(w, ns[i], style).None? && NextAncestor(w, ns[i]) == Some(ns[i + 1]);
    }
  }

  /** Conversely to `Ancestors`, every walk that ends admits a rank: the position from the end
      of the walk. So `WalkRanked` excludes exactly the elements whose walk never ends. */
  lemma EndingWalkIsRanked(w: World, e: NodeId, ns: seq<NodeId>)
    requires WellFormed(w) && e in w.nodes && w.nodes[e].FrameworkElement?
    requires w.nodes[e].style.Some? ==> IsWalk(w, w.nodes[e].style.value, ns)
    requires w.nodes[e].visualParent.Some? ==> ns != [] && ns[0] == w.nodes[e].visualParent.value
    ensures exists rank :: WalkRanked(w, rank, e)
  {
    var fe := w.nodes[e];
    if fe.style.Some? {
      var style := fe.style.value;
      forall i, j | 0 <= i < j < |ns|
        ensures ns[i] != ns[j]
      {
        WalkIsDistinct(w, style, ns, i, j);
      }
      var rank := map i | 0 <= i < |ns| :: ns[i] := |ns| - 1 - i;
      forall i | 0 <= i < |ns|
        ensures ns[i] in rank && rank[ns[i]] == |ns| - 1 - i
      {
      }
      forall n | n in rank
        ensures n in w.nodes && (Lookup(w, n, style).None? && NextAncestor(w, n).Some? ==>
          NextAncestor(w, n).value in rank && rank[NextAncestor(w, n).value] < rank[n])
      {
        var i :| 0 <= i < |ns| && ns[i] == n;
        if i < |ns| - 1 {
          assert NextAncestor(w, n) == Some(ns[i + 1]);
        }
      }
      assert WalkRanked(w, rank, e);
    } else {
      assert WalkRanked(w, map[], e);
    }
  }
}
