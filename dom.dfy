/** The slice of the browser DOM that the content script touches: a page of
    elements in document order, each with an id, a class set, a parent and the
    inline `style.display` value; a small selector language; `closest`; and
    `querySelectorAll`. */
module Dom {

  datatype Option<+T> = None | Some(value: T)

  /** One element of the page. `display` is the inline `style.display`
      property, the only thing the content script writes. */
  datatype Node = Node(id: string, classes: set<string>, parent: Option<nat>, display: string)

  /** Elements are listed in document order, so a parent always comes before
      its children. */
  predicate ParentBefore(n: Node, i: nat) {
    n.parent.Some? ==> n.parent.value < i
  }

  predicate WellFormed(s: seq<Node>) {
    forall i :: 0 <= i < |s| ==> ParentBefore(s[i], i)
  }

  /** Two pages that differ at most in the `display` of their elements. */
  predicate SameShape(s: seq<Node>, t: seq<Node>) {
    |s| == |t| &&
    forall i :: 0 <= i < |s| ==>
      s[i].id == t[i].id && s[i].classes == t[i].classes && s[i].parent == t[i].parent
  }

  /** The selectors the content script uses: `#id`, `.class`, and the
      descendant combinator `A B`. */
  datatype Selector =
    | Id(name: string)
    | Class(name: string)
    | Descendant(ancestor: Selector, subject: Selector)

  predicate Matches(s: seq<Node>, i: nat, sel: Selector)
    requires WellFormed(s) && i < |s|
    decreases sel, i, 1
  {
    match sel
    case Id(name) => s[i].id == name
    case Class(name) => name in s[i].classes
    case Descendant(anc, sub) => Matches(s, i, sub) && AncestorMatches(s, i, anc)
  }

  /** Some proper ancestor of element `i` matches `sel`. */
  predicate AncestorMatches(s: seq<Node>, i: nat, sel: Selector)
    requires WellFormed(s) && i < |s|
    decreases sel, i, 0
  {
    match s[i].parent
    case None => false
    case Some(p) => Matches(s, p, sel) || AncestorMatches(s, p, sel)
  }

  /** `A B` in the CSS sense: `AncestorMatches` holds exactly when some
      element strictly above `i` on its parent chain matches. */
  lemma {:induction false} AncestorMatchesChain(s: seq<Node>, i: nat, sel: Selector)
    requires WellFormed(s) && i < |s|
    ensures AncestorMatches(s, i, sel) <==>
      s[i].parent.Some? && exists k: nat :: IsAncestorOrSelf(s, k, s[i].parent.value) && Matches(s, k, sel)
    decreases i
  {
    if s[i].parent.Some? {
      var p := s[i].parent.value;
      AncestorMatchesChain(s, p, sel);
      if AncestorMatches(s, i, sel) {
        var k: nat;
        if Matches(s, p, sel) {
          k := p;
        } else {
          k :| IsAncestorOrSelf(s, k, s[p].parent.value) && Matches(s, k, sel);
        }
        assert IsAncestorOrSelf(s, k, p) && Matches(s, k, sel);
        assert exists k2: nat :: IsAncestorOrSelf(s, k2, p) && Matches(s, k2, sel);
      }
      if exists k: nat :: IsAncestorOrSelf(s, k, p) && Matches(s, k, sel) {
        var k: nat :| IsAncestorOrSelf(s, k, p) && Matches(s, k, sel);
        if k != p {
          var q := s[p].parent.value;
          assert IsAncestorOrSelf(s, k, q);
          assert exists k2: nat :: IsAncestorOrSelf(s, k2, q) && Matches(s, k2, sel);
          assert AncestorMatches(s, p, sel);
        }
        assert AncestorMatches(s, i, sel);
      }
    }
  }

  predicate MatchesAny(s: seq<Node>, i: nat, sels: seq<Selector>)
    requires WellFormed(s) && i < |s|
  {
    exists k :: 0 <= k < |sels| && Matches(s, i, sels[k])
  }

  /** Element `k` is `i` itself or lies on `i`'s parent chain. */
  predicate IsAncestorOrSelf(s: seq<Node>, k: nat, i: nat)
    requires WellFormed(s) && i < |s|
    ensures IsAncestorOrSelf(s, k, i) ==> k <= i
    decreases i
  {
    k == i || (s[i].parent.Some? && IsAncestorOrSelf(s, k, s[i].parent.value))
  }

  /** `Element.closest(".cls")`: the walk up the parent chain that starts at
      the element itself and stops at the first element carrying `cls`. */
  function Closest(s: seq<Node>, i: nat, cls: string): (r: Option<nat>)
    requires WellFormed(s) && i < |s|
    ensures r.Some? ==> r.value <= i && cls in s[r.value].classes
    decreases i
  {
    if cls in s[i].classes then Some(i)
    else match s[i].parent
      case None => None
      case Some(p) => Closest(s, p, cls)
  }

  /** `closest` finds the nearest element of the chain that carries `cls`
      (the one lowest in the tree, so latest in document order), and finds
      nothing exactly when no element of the chain carries it. */
  lemma {:induction false} ClosestIsNearest(s: seq<Node>, i: nat, cls: string)
    requires WellFormed(s) && i < |s|
    ensures Closest(s, i, cls).Some? ==>
      IsAncestorOrSelf(s, Closest(s, i, cls).value, i) &&
      forall k: nat :: IsAncestorOrSelf(s, k, i) && cls in s[k].classes ==> k <= Closest(s, i, cls).value
    ensures Closest(s, i, cls).None? ==>
      forall k: nat :: IsAncestorOrSelf(s, k, i) ==> cls !in s[k].classes
    decreases i
  {
    if cls !in s[i].classes && s[i].parent.Some? {
      ClosestIsNearest(s, s[i].parent.value, cls);
    }
  }

  /** The matches of `sel` at or after position `lo`, in document order. */
  function QueryFrom(s: seq<Node>, sel: Selector, lo: nat): (r: seq<nat>)
    requires WellFormed(s) && lo <= |s|
    ensures forall x: nat :: x in r <==> lo <= x < |s| && Matches(s, x, sel)
    ensures forall a, b :: 0 <= a < b < |r| ==> lo <= r[a] < r[b]
    decreases |s| - lo
  {
    if lo == |s| then []
    else
      var rest := QueryFrom(s, sel, lo + 1);
      if Matches(s, lo, sel) then
        assert forall b :: 0 <= b < |rest| ==> lo < rest[b] by {
          forall b | 0 <= b < |rest| ensures lo < rest[b] { assert rest[b] in rest; }
        }
        [lo] + rest
      else rest
  }

  /** `document.querySelectorAll(sel)`: every match, once, in document order. */
  function QuerySelectorAll(s: seq<Node>, sel: Selector): (r: seq<nat>)
    requires WellFormed(s)
    ensures forall x: nat :: x in r <==> x < |s| && Matches(s, x, sel)
    ensures forall a, b :: 0 <= a < b < |r| ==> r[a] < r[b]
  {
    QueryFrom(s, sel, 0)
  }

  /** The page after `style.display = d` on every element of `targets`. */
  function SetDisplay(s: seq<Node>, targets: set<nat>, d: string): seq<Node> {
    seq(|s|, i requires 0 <= i < |s| => if i in targets then s[i].(display := d) else s[i])
  }

  /** The elements that match at least one of `sels`. */
  function MatchTargets(s: seq<Node>, sels: seq<Selector>): set<nat>
    requires WellFormed(s)
  {
    set i: nat | i < |s| && MatchesAny(s, i, sels)
  }

  /** `c` is the nearest `cls` ancestor-or-self of a match of one of `sels`. */
  predicate IsContainerOfMatch(s: seq<Node>, sels: seq<Selector>, cls: string, c: nat)
    requires WellFormed(s)
  {
    exists i: nat :: i < |s| && MatchesAny(s, i, sels) && Closest(s, i, cls) == Some(c)
  }

  /** The `cls` containers of the matches of `sels`; a match without one
      contributes nothing. */
  function ContainerTargets(s: seq<Node>, sels: seq<Selector>, cls: string): set<nat>
    requires WellFormed(s)
  {
    set c: nat | c < |s| && IsContainerOfMatch(s, sels, cls, c)
  }

  // ---------------------------------------------------------------------------
  // Writing `display` changes nothing else.

  lemma SetDisplayKeepsShape(s: seq<Node>, targets: set<nat>, d: string)
    ensures SameShape(s, SetDisplay(s, targets, d))
    ensures WellFormed(s) ==> WellFormed(SetDisplay(s, targets, d))
  {
    var t := SetDisplay(s, targets, d);
    if WellFormed(s) {
      forall i | 0 <= i < |t| ensures ParentBefore(t[i], i) {
        assert t[i].parent == s[i].parent;
      }
    }
  }

  lemma SameShapeSymmetric(s: seq<Node>, t: seq<Node>)
    requires SameShape(s, t)
    ensures SameShape(t, s)
    ensures WellFormed(s) ==> WellFormed(t)
  {
    if WellFormed(s) {
      forall i | 0 <= i < |t| ensures ParentBefore(t[i], i) {
        assert t[i].parent == s[i].parent;
      }
    }
  }

  /** Selector matching never looks at `display`. */
  lemma {:induction false} MatchesShape(s: seq<Node>, t: seq<Node>, sel: Selector, i: nat)
    requires WellFormed(s) && SameShape(s, t) && i < |s|
    ensures WellFormed(t)
    ensures Matches(s, i, sel) == Matches(t, i, sel)
    ensures AncestorMatches(s, i, sel) == AncestorMatches(t, i, sel)
    decreases sel, i
  {
    SameShapeSymmetric(s, t);
    match s[i].parent {
      case None =>
      case Some(p) => MatchesShape(s, t, sel, p);
    }
    match sel {
      case Id(_) =>
      case Class(_) =>
      case Descendant(anc, sub) =>
        MatchesShape(s, t, sub, i);
        MatchesShape(s, t, anc, i);
    }
  }

  lemma MatchesAnyShape(s: seq<Node>, t: seq<Node>, sels: seq<Selector>, i: nat)
    requires WellFormed(s) && SameShape(s, t) && i < |s|
    ensures WellFormed(t)
    ensures MatchesAny(s, i, sels) == MatchesAny(t, i, sels)
  {
    SameShapeSymmetric(s, t);
    forall k | 0 <= k < |sels| ensures Matches(s, i, sels[k]) == Matches(t, i, sels[k]) {
      MatchesShape(s, t, sels[k], i);
    }
  }

  /** `closest` never looks at `display`. */
  lemma {:induction false} ClosestShape(s: seq<Node>, t: seq<Node>, i: nat, cls: string)
    requires WellFormed(s) && SameShape(s, t) && i < |s|
    ensures WellFormed(t)
    ensures Closest(s, i, cls) == Closest(t, i, cls)
    decreases i
  {
    SameShapeSymmetric(s, t);
    if cls !in s[i].classes && s[i].parent.Some? {
      ClosestShape(s, t, s[i].parent.value, cls);
    }
  }

  /** The set of targets of a pass is the same on every page of the same shape,
      in particular before and after the pass has written to it. */
  lemma TargetsShape(s: seq<Node>, t: seq<Node>, sels: seq<Selector>, cls: string)
    requires WellFormed(s) && SameShape(s, t)
    ensures WellFormed(t)
    ensures MatchTargets(s, sels) == MatchTargets(t, sels)
    ensures ContainerTargets(s, sels, cls) == ContainerTargets(t, sels, cls)
  {
    SameShapeSymmetric(s, t);
    forall i: nat | i < |s|
      ensures MatchesAny(s, i, sels) == MatchesAny(t, i, sels)
      ensures Closest(s, i, cls) == Closest(t, i, cls)
    {
      MatchesAnyShape(s, t, sels, i);
      ClosestShape(s, t, i, cls);
    }
  }

  // ---------------------------------------------------------------------------
  // Facts about closest and the descendant combinator.

  /** A proper ancestor carrying `cls` guarantees that `closest(".cls")`
      finds a container, and that it is no higher than that ancestor. */
  lemma {:induction false} AncestorClassHasContainer(s: seq<Node>, i: nat, cls: string)
    requires WellFormed(s) && i < |s|
    requires AncestorMatches(s, i, Class(cls))
    ensures Closest(s, i, cls).Some?
    decreases i
  {
    var p := s[i].parent.value;
    if cls !in s[i].classes && !Matches(s, p, Class(cls)) {
      AncestorClassHasContainer(s, p, cls);
    }
  }

  /** Every match of a selector `.cls B` lies inside a `cls` container. */
  lemma DescendantMatchHasContainer(s: seq<Node>, i: nat, cls: string, sub: Selector)
    requires WellFormed(s) && i < |s|
    requires Matches(s, i, Descendant(Class(cls), sub))
    ensures Closest(s, i, cls).Some?
  {
    AncestorClassHasContainer(s, i, cls);
  }

  lemma MatchesAnySnoc(s: seq<Node>, i: nat, sels: seq<Selector>, k: nat)
    requires WellFormed(s) && i < |s| && k < |sels|
    ensures MatchesAny(s, i, sels[..k + 1]) <==> MatchesAny(s, i, sels[..k]) || Matches(s, i, sels[k])
  {
    if Matches(s, i, sels[k]) {
      assert sels[..k + 1][k] == sels[k];
    }
    if MatchesAny(s, i, sels[..k + 1]) {
      var m :| 0 <= m < k + 1 && Matches(s, i, sels[..k + 1][m]);
      if m < k {
        assert sels[..k][m] == sels[..k + 1][m];
      }
    }
    if MatchesAny(s, i, sels[..k]) {
      var m :| 0 <= m < k && Matches(s, i, sels[..k][m]);
      assert sels[..k + 1][m] == sels[..k][m];
    }
  }

  // ---------------------------------------------------------------------------
  // How successive writes combine, and how target sets grow selector by selector.

  /** A pass over no element leaves the page as it was. */
  lemma SetDisplayNothing(s: seq<Node>, d: string)
    ensures SetDisplay(s, {}, d) == s
  {
  }

  /** Two passes writing the same value amount to one pass over both sets. */
  lemma SetDisplayCompose(s: seq<Node>, a: set<nat>, b: set<nat>, d: string)
    ensures SetDisplay(SetDisplay(s, a, d), b, d) == SetDisplay(s, a + b, d)
  {
  }

  /** The last of two passes over the same elements decides their `display`. */
  lemma SetDisplayOverwrite(s: seq<Node>, targets: set<nat>, d: string, e: string)
    ensures SetDisplay(SetDisplay(s, targets, d), targets, e) == SetDisplay(s, targets, e)
  {
  }

  lemma SingleSelector(s: seq<Node>, i: nat, sel: Selector)
    requires WellFormed(s) && i < |s|
    ensures MatchesAny(s, i, [sel]) == Matches(s, i, sel)
  {
    if Matches(s, i, sel) {
      assert [sel][0] == sel;
    }
  }

  lemma MatchTargetsSnoc(s: seq<Node>, sels: seq<Selector>, k: nat)
    requires WellFormed(s) && k < |sels|
    ensures MatchTargets(s, sels[..k + 1]) == MatchTargets(s, sels[..k]) + MatchTargets(s, [sels[k]])
  {
    forall i: nat | i < |s|
      ensures MatchesAny(s, i, sels[..k + 1]) <==> MatchesAny(s, i, sels[..k]) || MatchesAny(s, i, [sels[k]])
    {
      MatchesAnySnoc(s, i, sels, k);
      SingleSelector(s, i, sels[k]);
    }
  }

  lemma ContainerTargetsSnoc(s: seq<Node>, sels: seq<Selector>, cls: string, k: nat)
    requires WellFormed(s) && k < |sels|
    ensures ContainerTargets(s, sels[..k + 1], cls)
         == ContainerTargets(s, sels[..k], cls) + ContainerTargets(s, [sels[k]], cls)
  {
    forall c: nat | c < |s|
      ensures IsContainerOfMatch(s, sels[..k + 1], cls, c)
          <==> IsContainerOfMatch(s, sels[..k], cls, c) || IsContainerOfMatch(s, [sels[k]], cls, c)
    {
      forall i: nat | i < |s|
        ensures MatchesAny(s, i, sels[..k + 1]) <==> MatchesAny(s, i, sels[..k]) || MatchesAny(s, i, [sels[k]])
      {
        MatchesAnySnoc(s, i, sels, k);
        SingleSelector(s, i, sels[k]);
      }
    }
  }

  lemma NoSelectorNoTargets(s: seq<Node>, sels: seq<Selector>, cls: string)
    requires WellFormed(s)
    ensures MatchTargets(s, sels[..0]) == {}
    ensures ContainerTargets(s, sels[..0], cls) == {}
  {
  }

  /** `{c}` when `closest(".cls")` finds `c` for element `e`, else nothing. */
  function FoundContainer(s: seq<Node>, e: nat, cls: string): set<nat>
    requires WellFormed(s)
  {
    if e < |s| && Closest(s, e, cls).Some? then {Closest(s, e, cls).value} else {}
  }

  /** The containers found for the first `n` elements of `xs`, one `closest`
      at a time. */
  ghost function ContainersOf(s: seq<Node>, xs: seq<nat>, n: nat, cls: string): set<nat>
    requires WellFormed(s) && n <= |xs|
  {
    if n == 0 then {} else ContainersOf(s, xs, n - 1, cls) + FoundContainer(s, xs[n - 1], cls)
  }

  lemma {:induction false} ContainersOfMembers(s: seq<Node>, xs: seq<nat>, n: nat, cls: string, c: nat)
    requires WellFormed(s) && n <= |xs| && forall k :: 0 <= k < |xs| ==> xs[k] < |s|
    ensures c in ContainersOf(s, xs, n, cls) <==> exists k :: 0 <= k < n && Closest(s, xs[k], cls) == Some(c)
  {
    if n > 0 {
      ContainersOfMembers(s, xs, n - 1, cls, c);
    }
  }
}
