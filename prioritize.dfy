/**
  Moving elements to the front of their parents and back. With the condition true, an
  element that has a previous sibling is moved to the first position of its parent and
  that sibling is remembered in the element's data; with the condition false, a moved
  element is put back right after the remembered sibling and the memory is erased.
*/
module Prioritize {

  /** Elements are told apart by a number. */
  type Node = nat

  /** The part of the page the operation reads and writes: the ordered children of each
      parent, the parent of each child, and the remembered sibling of each moved element
      (its data entry `__prioritize`). */
  datatype Dom = Dom(children: map<Node, seq<Node>>, parent: map<Node, Node>, stash: map<Node, Node>)

  predicate Distinct(s: seq<Node>) {
    forall i, j :: 0 <= i < j < |s| ==> s[i] != s[j]
  }

  /** Parents and children agree: every element with a parent is among that parent's
      children, every child names that parent, and no child list repeats an element. */
  ghost predicate WellFormed(d: Dom) {
    && (forall e :: e in d.parent ==> d.parent[e] in d.children && e in d.children[d.parent[e]])
    && (forall q, e :: q in d.children && e in d.children[q] ==> e in d.parent && d.parent[e] == q)
    && (forall q :: q in d.children ==> Distinct(d.children[q]))
  }

  // ---------------------------------------------------------------------------
  // Child lists.

  function IndexOf(s: seq<Node>, x: Node): (i: nat)
    requires x in s
    ensures i < |s| && s[i] == x && x !in s[..i]
  {
    if s[0] == x then 0 else assert s[1..][..IndexOf(s[1..], x)] == s[1..1 + IndexOf(s[1..], x)]; 1 + IndexOf(s[1..], x)
  }

  /** The list with `x` taken out. */
  function Without(s: seq<Node>, x: Node): (r: seq<Node>)
    ensures forall y {:trigger y in r} :: y in r <==> y in s && y != x
    ensures |r| <= |s|
  {
    if s == [] then [] else (if s[0] == x then [] else [s[0]]) + Without(s[1..], x)
  }

  /** The list with `x` placed right after `p`. */
  function InsertAfter(s: seq<Node>, p: Node, x: Node): (r: seq<Node>)
    requires p in s
    ensures forall y {:trigger y in r} :: y in r <==> y in s || y == x
  {
    var i := IndexOf(s, p);
    s[..i + 1] + [x] + s[i + 1..]
  }

  lemma {:induction false} WithoutDistinct(s: seq<Node>, x: Node)
    requires Distinct(s)
    ensures Distinct(Without(s, x))
  {
    if s != [] {
      WithoutDistinct(s[1..], x);
      assert s[0] !in Without(s[1..], x);
    }
  }

  lemma InsertAfterDistinct(s: seq<Node>, p: Node, x: Node)
    requires p in s && Distinct(s) && x !in s
    ensures Distinct(InsertAfter(s, p, x))
  {
    var i := IndexOf(s, p);
    var r := InsertAfter(s, p, x);
    forall a, b | 0 <= a < b < |r| ensures r[a] != r[b] {
      if a <= i && b == i + 1 {
        assert r[a] == s[a];
      } else if a == i + 1 {
        assert r[b] == s[b - 1];
      }
      else if b <= i {
        assert r[a] == s[a] && r[b] == s[b];
      } else if a <= i {
        assert r[a] == s[a] && r[b] == s[b - 1];
      } else {
        assert r[a] == s[a - 1] && r[b] == s[b - 1];
      }
    }
  }

  /** In a list without repeats, taking out the element at `i` leaves the elements
      before it followed by the elements after it. */
  lemma {:induction false} WithoutAt(s: seq<Node>, i: nat)
    requires Distinct(s) && i < |s|
    ensures Without(s, s[i]) == s[..i] + s[i + 1..]
  {
    if i == 0 {
      WithoutAbsent(s[1..], s[0]);
    } else {
      WithoutAt(s[1..], i - 1);
      assert s[1..][i - 1] == s[i];
      assert [s[0]] + (s[1..][..i - 1] + s[1..][i..]) == s[..i] + s[i + 1..];
    }
  }

  lemma {:induction false} WithoutAbsent(s: seq<Node>, x: Node)
    requires x !in s
    ensures Without(s, x) == s
  {
    if s != [] {
      WithoutAbsent(s[1..], x);
      assert [s[0]] + s[1..] == s;
    }
  }

  /** In a list without repeats, placing `x` after the element at `i`. */
  lemma InsertAfterAt(s: seq<Node>, i: nat, x: Node)
    requires Distinct(s) && i < |s|
    ensures InsertAfter(s, s[i], x) == s[..i + 1] + [x] + s[i + 1..]
  {
    IndexOfDistinct(s, i);
  }

  lemma {:induction false} IndexOfDistinct(s: seq<Node>, i: nat)
    requires Distinct(s) && i < |s|
    ensures IndexOf(s, s[i]) == i
  {
    if i > 0 {
      IndexOfDistinct(s[1..], i - 1);
    }
  }

  // ---------------------------------------------------------------------------
  // One element.

  /** `prependTo` on the parent, then remembering `p` in the element's data. */
  function Promote(d: Dom, e: Node, p: Node): (d': Dom)
    requires WellFormed(d) && e in d.parent
    ensures WellFormed(d')
  {
    var q := d.parent[e];
    var kids := d.children[q];
    var moved := [e] + Without(kids, e);
    WithoutDistinct(kids, e);
    assert forall y :: y in moved <==> y in kids;
    assert Distinct(moved) by {
      assert e !in Without(kids, e);
    }
    d.(children := d.children[q := moved], stash := d.stash[e := p])
  }

  /** `insertAfter(p)`: the element leaves its parent and is placed right after `p`,
      under `p`'s parent. Nothing moves when `p` has no parent, and an element placed
      after itself stays where it is. */
  function Reinsert(d: Dom, e: Node, p: Node): (d': Dom)
    requires WellFormed(d) && e in d.parent
    ensures WellFormed(d')
    ensures d'.stash == d.stash
  {
    if p !in d.parent || p == e then d
    else
      var q1 := d.parent[e];
      var ch := d.children[q1 := Without(d.children[q1], e)];
      var q2 := d.parent[p];
      assert p in ch[q2];
      var d' := d.(children := ch[q2 := InsertAfter(ch[q2], p, e)], parent := d.parent[e := q2]);
      ReinsertWellFormed(d, e, p, d');
      d'
  }

  lemma ReinsertWellFormed(d: Dom, e: Node, p: Node, d': Dom)
    requires WellFormed(d) && e in d.parent && p in d.parent && p != e
    requires var q1 := d.parent[e];
             var ch := d.children[q1 := Without(d.children[q1], e)];
             var q2 := d.parent[p];
             p in ch[q2] &&
             d' == d.(children := ch[q2 := InsertAfter(ch[q2], p, e)], parent := d.parent[e := q2])
    ensures WellFormed(d')
  {
    var q1 := d.parent[e];
    var w := Without(d.children[q1], e);
    var ch := d.children[q1 := w];
    var q2 := d.parent[p];
    var ins := InsertAfter(ch[q2], p, e);
    assert d'.children == ch[q2 := ins];
    assert d'.parent == d.parent[e := q2];
    // e was listed under q1 only
    assert e !in ch[q2] by {
      assert e in d.children[q2] ==> d.parent[e] == q2;
    }
    forall x | x in d'.parent
      ensures d'.parent[x] in d'.children && x in d'.children[d'.parent[x]]
    {
      if x != e {
        var q := d.parent[x];
        assert x in d.children[q];
        assert x in ch[q];
      }
    }
    forall q, x | q in d'.children && x in d'.children[q]
      ensures x in d'.parent && d'.parent[x] == q
    {
      if q == q2 {
        if x != e {
          assert x in ch[q2];
          assert x in d.children[q2];
        }
      } else {
        assert q in d.children && x in ch[q];
        assert x in d.children[q];
        assert x in d.parent && d.parent[x] == q;
      }
    }
    forall q | q in d'.children
      ensures Distinct(d'.children[q])
    {
      if q == q2 {
        WithoutDistinct(d.children[q1], e);
        InsertAfterDistinct(ch[q2], p, e);
      } else if q == q1 {
        WithoutDistinct(d.children[q1], e);
      }
    }
  }

  /** One step of the loop over the elements, for element `e`. */
  function Step(d: Dom, e: Node, condition: bool): (d': Dom)
    requires WellFormed(d)
    ensures WellFormed(d')
  {
    if e !in d.parent then d
    else if e !in d.stash then
      if !condition then d
      else
        var kids := d.children[d.parent[e]];
        var i := IndexOf(kids, e);
        if i == 0 then d else Promote(d, e, kids[i - 1])
    else if condition then d
    else
      var d' := Reinsert(d, e, d.stash[e]);
      d'.(stash := d'.stash - {e})
  }

  /** The whole operation: one step per element, in order. */
  function Run(d: Dom, elements: seq<Node>, condition: bool): (d': Dom)
    requires WellFormed(d)
    ensures WellFormed(d')
  {
    if elements == [] then d
    else Step(Run(d, elements[..|elements| - 1], condition), elements[|elements| - 1], condition)
  }

  // ---------------------------------------------------------------------------
  // The operation on the page.

  class Document {
    var children: map<Node, seq<Node>>
    var parent: map<Node, Node>
    var stash: map<Node, Node>

    function State(): Dom
      reads this
    {
      Dom(children, parent, stash)
    }

    /** `$.prioritize(elements, condition)`: the callback is run for each element in order. */
    method Prioritize(elements: seq<Node>, condition: bool)
      requires WellFormed(State())
      modifies this
      ensures WellFormed(State())
      ensures State() == Run(old(State()), elements, condition)
    {
      for k := 0 to |elements|
        invariant WellFormed(State())
        invariant State() == Run(old(State()), elements[..k], condition)
      {
        Visit(elements[k], condition);
        assert elements[..k + 1][..k] == elements[..k];
      }
      assert elements[..|elements|] == elements;
    }

    /** The callback for one element. */
    method Visit(e: Node, condition: bool)
      requires WellFormed(State())
      modifies this
      ensures State() == Step(old(State()), e, condition)
    {
      Untouched(State(), e, condition);
      if e !in parent {
        return;
      }
      if e !in stash {
        if !condition {
          return;
        }
        var kids := children[parent[e]];
        var i := IndexOf(kids, e);
        if i == 0 {
          return;
        }
        var p := kids[i - 1];
        StepPromotes(State(), e);
        children := children[parent[e] := [e] + Without(kids, e)];
        stash := stash[e := p];
      } else {
        if condition {
          return;
        }
        var p := stash[e];
        ghost var d' := Reinsert(State(), e, p);
        if p in parent && p != e {
          var q1 := parent[e];
          children := children[q1 := Without(children[q1], e)];
          var q2 := parent[p];
          children := children[q2 := InsertAfter(children[q2], p, e)];
          parent := parent[e := q2];
        }
        assert State() == d';
        stash := stash - {e};
      }
    }
  }

  // ---------------------------------------------------------------------------
  // Properties of one step.

  /** Cases where nothing changes: an element without a parent; an element not moved
      before, when the condition is false; an element not moved before that is already
      its parent's first child; and a moved element while the condition stays true. */
  lemma Untouched(d: Dom, e: Node, condition: bool)
    requires WellFormed(d)
    ensures e !in d.parent ==> Step(d, e, condition) == d
    ensures e !in d.stash && !condition ==> Step(d, e, condition) == d
    ensures e in d.parent && e !in d.stash && d.children[d.parent[e]][0] == e ==> Step(d, e, condition) == d
    ensures e in d.stash && condition ==> Step(d, e, condition) == d
  {
  }

  /** The result of a step that moves an element to the front. */
  lemma StepPromotes(d: Dom, e: Node)
    requires WellFormed(d) && e in d.parent && e !in d.stash
    requires IndexOf(d.children[d.parent[e]], e) > 0
    ensures var kids := d.children[d.parent[e]];
            var i := IndexOf(kids, e);
            Step(d, e, true) == d.(children := d.children[d.parent[e] := [e] + Without(kids, e)],
                                   stash := d.stash[e := kids[i - 1]])
  {
  }

  /** The result of a step that puts a moved element back after a remembered sibling that
      is still on the page. */
  lemma StepRestores(d: Dom, e: Node)
    requires WellFormed(d) && e in d.parent && e in d.stash
    requires d.stash[e] in d.parent && d.stash[e] != e
    ensures var p := d.stash[e];
            var q1, q2 := d.parent[e], d.parent[p];
            var ch := d.children[q1 := Without(d.children[q1], e)];
            p in ch[q2] &&
            Step(d, e, false) == d.(children := ch[q2 := InsertAfter(ch[q2], p, e)],
                                    parent := d.parent[e := q2], stash := d.stash - {e})
  {
    var p := d.stash[e];
    var q2 := d.parent[p];
    assert p in d.children[q2];
  }

  /** Moving an element that has a previous sibling: it becomes its parent's first
      child, the others keep their order, its parent does not change, and the sibling
      it followed is remembered. */
  lemma PromoteMoves(d: Dom, e: Node)
    requires WellFormed(d) && e in d.parent && e !in d.stash
    requires IndexOf(d.children[d.parent[e]], e) > 0
    ensures var kids := d.children[d.parent[e]];
            var i := IndexOf(kids, e);
            var d' := Step(d, e, true);
            && d'.children == d.children[d.parent[e] := [e] + (kids[..i] + kids[i + 1..])]
            && d'.parent == d.parent
            && d'.stash == d.stash[e := kids[i - 1]]
  {
    var kids := d.children[d.parent[e]];
    var i := IndexOf(kids, e);
    assert kids[i] == e;
    StepPromotes(d, e);
    WithoutAt(kids, i);
  }

  /** Putting a moved element back after a remembered sibling under the same parent: it
      leaves its position and is placed right after that sibling, the others keep their
      order, no parent changes, and the memory of it is erased. */
  lemma RestoreMoves(d: Dom, e: Node, i: nat, j: nat)
    requires WellFormed(d) && e in d.parent && e in d.stash
    requires d.stash[e] in d.parent && d.stash[e] != e && d.parent[d.stash[e]] == d.parent[e]
    requires i == IndexOf(d.children[d.parent[e]], e)
    requires var w := d.children[d.parent[e]][..i] + d.children[d.parent[e]][i + 1..];
             d.stash[e] in w && j == IndexOf(w, d.stash[e])
    ensures var w := d.children[d.parent[e]][..i] + d.children[d.parent[e]][i + 1..];
            Step(d, e, false).children == d.children[d.parent[e] := w[..j + 1] + [e] + w[j + 1..]]
    ensures Step(d, e, false).parent == d.parent
    ensures Step(d, e, false).stash == d.stash - {e}
  {
    var q, p := d.parent[e], d.stash[e];
    var kids := d.children[q];
    var w := kids[..i] + kids[i + 1..];
    assert kids[i] == e;
    WithoutAt(kids, i);
    WithoutDistinct(kids, e);
    assert Without(kids, e) == w;
    InsertAfterAt(w, j, e);
    var back := w[..j + 1] + [e] + w[j + 1..];
    assert InsertAfter(w, p, e) == back;
    StepRestores(d, e);
    var d' := Step(d, e, false);
    var ch := d.children[q := w];
    assert ch[q] == w;
    assert d'.children == ch[q := back];
    MapOverwrite(d.children, q, w, back);
    assert d'.parent == d.parent[e := q];
    MapSame(d.parent, e);
  }

  /** Putting a moved element back after a remembered sibling under another parent: it
      leaves its old parent, whose other children keep their order, and is placed right
      after that sibling under the sibling's parent, which becomes its parent. */
  lemma RestoreMovesAcross(d: Dom, e: Node, i: nat, j: nat)
    requires WellFormed(d) && e in d.parent && e in d.stash
    requires d.stash[e] in d.parent && d.parent[d.stash[e]] != d.parent[e]
    requires i == IndexOf(d.children[d.parent[e]], e)
    requires d.stash[e] in d.children[d.parent[d.stash[e]]]
    requires j == IndexOf(d.children[d.parent[d.stash[e]]], d.stash[e])
    ensures var q1, q2 := d.parent[e], d.parent[d.stash[e]];
            var kids, k2 := d.children[q1], d.children[q2];
            Step(d, e, false).children
              == d.children[q1 := kids[..i] + kids[i + 1..]][q2 := k2[..j + 1] + [e] + k2[j + 1..]]
    ensures Step(d, e, false).parent == d.parent[e := d.parent[d.stash[e]]]
    ensures Step(d, e, false).stash == d.stash - {e}
  {
    var q1, p := d.parent[e], d.stash[e];
    var q2 := d.parent[p];
    var kids := d.children[q1];
    assert kids[i] == e;
    WithoutAt(kids, i);
    var k2 := d.children[q2];
    InsertAfterAt(k2, j, e);
    StepRestores(d, e);
    var ch := d.children[q1 := Without(kids, e)];
    assert ch[q2] == k2;
  }

  lemma MapOverwrite<K, V>(m: map<K, V>, k: K, v1: V, v2: V)
    ensures m[k := v1][k := v2] == m[k := v2]
  {
  }

  /** The child list part of the round trip: taking the first element out of a list
      that starts with it, and putting it after the sibling it used to follow. */
  lemma Reassemble(s: seq<Node>, i: nat)
    requires i < |s|
    ensures s[..i] + [s[i]] + s[i + 1..] == s
  {
  }

  lemma RestoreList(kids: seq<Node>, i: nat)
    requires Distinct(kids) && 0 < i < |kids|
    ensures var e := kids[i];
            var w := Without([e] + Without(kids, e), e);
            kids[i - 1] in w && InsertAfter(w, kids[i - 1], e) == kids
  {
    var e := kids[i];
    var rest := kids[..i] + kids[i + 1..];
    WithoutAt(kids, i);
    WithoutDistinct(kids, e);
    assert Without(kids, e) == rest;
    assert e !in rest;
    WithoutAbsent(rest, e);
    var er := [e] + rest;
    assert er[0] == e && er[1..] == rest;
    assert Without(er, e) == rest;
    assert kids[i - 1] == rest[i - 1];
    InsertAfterAt(rest, i - 1, e);
    assert rest[..i] == kids[..i];
    assert rest[i..] == kids[i + 1..];
    Reassemble(kids, i);
    assert InsertAfter(Without(er, e), kids[i - 1], e) == kids;
  }

  /** Moving an element to the front and then back gives back the page it started from,
      data included. */
  lemma RoundTrip(d: Dom, e: Node)
    requires WellFormed(d) && e in d.parent && e !in d.stash
    requires IndexOf(d.children[d.parent[e]], e) > 0
    ensures Step(Step(d, e, true), e, false) == d
  {
    var q := d.parent[e];
    var kids := d.children[q];
    var i := IndexOf(kids, e);
    var p := kids[i - 1];
    var moved := [e] + Without(kids, e);
    var d1 := Step(d, e, true);
    StepPromotes(d, e);
    assert d1.children == d.children[q := moved] && d1.parent == d.parent && d1.stash == d.stash[e := p];
    assert p != e && p in d.parent && d.parent[p] == q by {
      assert kids[i - 1] != kids[i];
      assert p in d.children[q];
    }
    StepRestores(d1, e);
    RestoreList(kids, i);
    var w := Without(moved, e);
    var d2 := Step(d1, e, false);
    assert d2.children == d.children[q := moved][q := w][q := kids];
    assert d2.parent == d1.parent[e := d1.parent[p]];
    assert d2.stash == d.stash[e := p] - {e};
    MapPutBack(d.children, q, moved, w);
    MapSame(d.parent, e);
    ForgetNew(d.stash, e, p);
  }

  lemma MapPutBack<K, V>(m: map<K, V>, k: K, v1: V, v2: V)
    requires k in m
    ensures m[k := v1][k := v2][k := m[k]] == m
  {
  }

  lemma MapSame<K, V>(m: map<K, V>, k: K)
    requires k in m
    ensures m[k := m[k]] == m
  {
  }

  lemma ForgetNew<K, V>(m: map<K, V>, k: K, v: V)
    requires k !in m
    ensures m[k := v] - {k} == m
  {
  }

  /** With the condition true, a second step changes nothing more; likewise with false. */
  lemma Idempotent(d: Dom, e: Node, condition: bool)
    requires WellFormed(d)
    ensures Step(Step(d, e, condition), e, condition) == Step(d, e, condition)
  {
    var d1 := Step(d, e, condition);
    if e in d.parent && condition && e !in d.stash {
      var kids := d.children[d.parent[e]];
      var i := IndexOf(kids, e);
      if i == 0 {
        assert d1 == d;
      }
    }
  }

  // ---------------------------------------------------------------------------
  // Several elements.

  /** Elements the operation has remembered a sibling for are among those it was given,
      or were remembered before. */
  lemma {:induction false} RunStash(d: Dom, elements: seq<Node>, condition: bool)
    requires WellFormed(d)
    ensures forall x :: x in Run(d, elements, condition).stash ==> x in d.stash || x in elements
  {
    if elements != [] {
      var init := elements[..|elements| - 1];
      RunStash(d, init, condition);
      forall x | x in Run(d, elements, condition).stash
        ensures x in d.stash || x in elements
      {
        if x != elements[|elements| - 1] {
          assert x in Run(d, init, condition).stash;
          assert x in init ==> x in elements;
        }
      }
    }
  }

  /** A step with the condition true followed by one with the condition false changes
      nothing, for any element not already moved. */
  lemma UndoStep(d: Dom, e: Node)
    requires WellFormed(d) && e !in d.stash
    ensures Step(Step(d, e, true), e, false) == d
  {
    if e in d.parent && IndexOf(d.children[d.parent[e]], e) > 0 {
      RoundTrip(d, e);
    } else {
      Untouched(d, e, true);
      Untouched(d, e, false);
    }
  }

  /** Moving back in the reverse of the order the elements were moved in. */
  function Restore(d: Dom, elements: seq<Node>): (d': Dom)
    requires WellFormed(d)
    ensures WellFormed(d')
    decreases |elements|
  {
    if elements == [] then d
    else Restore(Step(d, elements[|elements| - 1], false), elements[..|elements| - 1])
  }

  /** Moving distinct elements, none moved before, to the front and then back in the
      reverse order gives back the page it started from. */
  lemma {:induction false} RestoreUndoesRun(d: Dom, elements: seq<Node>)
    requires WellFormed(d) && Distinct(elements)
    requires forall x :: x in elements ==> x !in d.stash
    ensures Restore(Run(d, elements, true), elements) == d
  {
    if elements != [] {
      var init, e := elements[..|elements| - 1], elements[|elements| - 1];
      var d1 := Run(d, init, true);
      RunStash(d, init, true);
      assert e !in init by {
        forall j | 0 <= j < |init| ensures init[j] != e {
          assert init[j] == elements[j];
        }
      }
      assert e !in d1.stash;
      UndoStep(d1, e);
      assert Distinct(init) by {
        forall a, b | 0 <= a < b < |init| ensures init[a] != init[b] {
          assert init[a] == elements[a] && init[b] == elements[b];
        }
      }
      RestoreUndoesRun(d, init);
    }
  }

  /** Two elements: the step for the first, then the step for the second. */
  lemma RunTwo(d: Dom, x: Node, y: Node, condition: bool)
    requires WellFormed(d)
    ensures Run(d, [x, y], condition) == Step(Step(d, x, condition), y, condition)
  {
    assert [x, y][..1] == [x] && [x][..0] == [];
    assert Run(d, [x], condition) == Step(d, x, condition);
  }

  /** Moving the child `e` at position `i > 0` of `r` to the front. */
  lemma PromoteChild(d: Dom, r: Node, e: Node, kids: seq<Node>, i: nat, kids': seq<Node>)
    requires WellFormed(d) && r in d.children && d.children[r] == kids
    requires Distinct(kids) && 0 < i < |kids| && kids[i] == e && e !in d.stash
    requires kids' == [e] + (kids[..i] + kids[i + 1..])
    ensures var d' := Step(d, e, true);
            r in d'.children && d'.children[r] == kids' && d'.stash == d.stash[e := kids[i - 1]]
  {
    assert e in d.parent && d.parent[e] == r;
    IndexOfDistinct(kids, i);
    WithoutAt(kids, i);
    StepPromotes(d, e);
  }

  /** Putting the child `e` at position `i` of `r` back after its remembered sibling `a`,
      another child of `r`. */
  lemma RestoreChild(d: Dom, r: Node, a: Node, e: Node, kids: seq<Node>, i: nat, kids': seq<Node>)
    requires WellFormed(d) && r in d.children && d.children[r] == kids
    requires Distinct(kids) && i < |kids| && kids[i] == e && a in kids && a != e
    requires e in d.stash && d.stash[e] == a
    requires var w := kids[..i] + kids[i + 1..];
             a in w && kids' == InsertAfter(w, a, e)
    ensures var d' := Step(d, e, false);
            r in d'.children && d'.children[r] == kids' && d'.stash == d.stash - {e}
  {
    assert e in d.parent && d.parent[e] == r;
    assert d.parent[a] == r;
    WithoutAt(kids, i);
    StepRestores(d, e);
  }

  // ---------------------------------------------------------------------------
  // A group of adjacent siblings.

  /** A page with one parent `r` and three children `a`, `b`, `c`, in that order. */
  function Siblings(r: Node, a: Node, b: Node, c: Node): (d: Dom)
    requires r != a && r != b && r != c && a != b && a != c && b != c
    ensures WellFormed(d)
  {
    Dom(map[r := [a, b, c]], map[a := r, b := r, c := r], map[])
  }

  /** Moving the adjacent siblings `b` and `c` to the front and then back, in the order
      they were given both times, leaves them swapped behind `a`. */
  lemma SiblingsNotRestored(r: Node, a: Node, b: Node, c: Node)
    requires r != a && r != b && r != c && a != b && a != c && b != c
    ensures var d := Run(Siblings(r, a, b, c), [b, c], true);
            r in d.children && d.children[r] == [c, b, a] && d.stash == map[b := a, c := a]
    ensures var d := Run(Run(Siblings(r, a, b, c), [b, c], true), [b, c], false);
            r in d.children && d.children[r] == [a, c, b] && d.stash == map[]
  {
    var d0 := Siblings(r, a, b, c);
    RunTwo(d0, b, c, true);
    var d1 := Step(d0, b, true);
    var d2 := Step(d1, c, true);
    SiblingsForward(d0, r, a, b, c);
    RunTwo(d2, b, c, false);
    SiblingsBackFirst(d2, r, a, b, c);
    SiblingsBackSecond(Step(d2, b, false), r, a, b, c);
    ForgetBoth(a, b, c);
  }

  /** `b` goes to the front, remembering `a`; then `c` does, remembering `a` as well. */
  lemma SiblingsForward(d0: Dom, r: Node, a: Node, b: Node, c: Node)
    requires r != a && r != b && r != c && a != b && a != c && b != c
    requires d0 == Siblings(r, a, b, c)
    ensures var d := Step(Step(d0, b, true), c, true);
            r in d.children && d.children[r] == [c, b, a] && d.stash == map[b := a, c := a]
  {
    ListsForward(a, b, c);
    assert map[b := a][c := a] == map[b := a, c := a];
    PromoteChild(d0, r, b, [a, b, c], 1, [b, a, c]);
    PromoteChild(Step(d0, b, true), r, c, [b, a, c], 2, [c, b, a]);
  }

  /** `b` goes back after `a`. */
  lemma SiblingsBackFirst(d: Dom, r: Node, a: Node, b: Node, c: Node)
    requires a != b && a != c && b != c
    requires WellFormed(d) && r in d.children && d.children[r] == [c, b, a]
    requires b in d.stash && d.stash[b] == a
    ensures var d' := Step(d, b, false);
            r in d'.children && d'.children[r] == [c, a, b] && d'.stash == d.stash - {b}
  {
    ListBackFirst(a, b, c);
    RestoreChild(d, r, a, b, [c, b, a], 1, [c, a, b]);
  }

  /** Then `c` goes back after `a` too, ahead of `b`. */
  lemma SiblingsBackSecond(d: Dom, r: Node, a: Node, b: Node, c: Node)
    requires a != b && a != c && b != c
    requires WellFormed(d) && r in d.children && d.children[r] == [c, a, b]
    requires c in d.stash && d.stash[c] == a
    ensures var d' := Step(d, c, false);
            r in d'.children && d'.children[r] == [a, c, b] && d'.stash == d.stash - {c}
  {
    ListBackSecond(a, b, c);
    RestoreChild(d, r, a, c, [c, a, b], 0, [a, c, b]);
  }

  /** Nothing is remembered once both are put back. */
  lemma ForgetBoth(a: Node, b: Node, c: Node)
    ensures map[b := a, c := a] - {b} - {c} == map[]
  {
  }

  /** The child lists of SiblingsForward. */
  lemma ListsForward(a: Node, b: Node, c: Node)
    requires a != b && a != c && b != c
    ensures var k0, k1 := [a, b, c], [b, a, c];
            && Distinct(k0) && [b] + (k0[..1] + k0[2..]) == k1
            && Distinct(k1) && [c] + (k1[..2] + k1[3..]) == [c, b, a]
  {
    var k0, k1 := [a, b, c], [b, a, c];
    assert k0[..1] == [a] && k0[2..] == [c];
    assert k1[..2] == [b, a] && k1[3..] == [];
  }

  /** The child lists of SiblingsBackFirst and SiblingsBackSecond. */
  lemma ListBackFirst(a: Node, b: Node, c: Node)
    requires a != b && a != c && b != c
    ensures var w2 := [c, b, a][..1] + [c, b, a][2..];
            a in w2 && InsertAfter(w2, a, b) == [c, a, b]
  {
    var w2 := [c, b, a][..1] + [c, b, a][2..];
    assert w2 == [c, a];
    InsertAfterAt(w2, 1, b);
    assert w2[..2] == w2 && w2[2..] == [];
  }

  lemma ListBackSecond(a: Node, b: Node, c: Node)
    requires a != b && a != c && b != c
    ensures var w3 := [c, a, b][..0] + [c, a, b][1..];
            a in w3 && InsertAfter(w3, a, c) == [a, c, b]
  {
    var w3 := [c, a, b][..0] + [c, a, b][1..];
    assert w3 == [a, b];
    InsertAfterAt(w3, 0, c);
    assert w3[..1] == [a] && w3[1..] == [b];
  }

  /** Moving them back in the reverse order does restore the page. */
  lemma SiblingsRestoredInReverse(r: Node, a: Node, b: Node, c: Node)
    requires r != a && r != b && r != c && a != b && a != c && b != c
    ensures Restore(Run(Siblings(r, a, b, c), [b, c], true), [b, c]) == Siblings(r, a, b, c)
  {
    RestoreUndoesRun(Siblings(r, a, b, c), [b, c]);
  }

  /** A selector is looked up again on every call, in document order. After the move to
      the front the page reads `[c, b, a]`, so the second call visits `c` before `b`, and
      that does restore the page. */
  lemma SiblingsRestoredByQuery(r: Node, a: Node, b: Node, c: Node)
    requires r != a && r != b && r != c && a != b && a != c && b != c
    ensures var d := Run(Siblings(r, a, b, c), [b, c], true);
            r in d.children && d.children[r] == [c, b, a]
    ensures Run(Run(Siblings(r, a, b, c), [b, c], true), [c, b], false) == Siblings(r, a, b, c)
  {
    var d0 := Siblings(r, a, b, c);
    SiblingsNotRestored(r, a, b, c);
    var d2 := Run(d0, [b, c], true);
    SiblingsRestoredInReverse(r, a, b, c);
    RunTwo(d2, c, b, false);
    assert [b, c][..1] == [b] && [b][..0] == [];
    assert Restore(d2, [b, c]) == Restore(Step(d2, c, false), [b]);
    assert Restore(Step(d2, c, false), [b]) == Step(Step(d2, c, false), b, false);
  }

  // ---------------------------------------------------------------------------
  // Calling the operation again.

  /** A page with one parent `r` and two children `a`, `b`, in that order. */
  function Pair(r: Node, a: Node, b: Node): (d: Dom)
    requires r != a && r != b && a != b
    ensures WellFormed(d)
  {
    Dom(map[r := [a, b]], map[a := r, b := r], map[])
  }

  /** The whole operation with the condition true is not idempotent. The first call leaves
      `a` alone, since it has no previous sibling, and moves `b` in front of it. The second
      call finds `a` unmoved behind `b`, and moves it to the front again. */
  lemma RunAgainMovesFirst(r: Node, a: Node, b: Node)
    requires r != a && r != b && a != b
    ensures var d := Run(Pair(r, a, b), [a, b], true);
            r in d.children && d.children[r] == [b, a] && a !in d.stash
    ensures var d := Run(Run(Pair(r, a, b), [a, b], true), [a, b], true);
            r in d.children && d.children[r] == [a, b] && a in d.stash && d.stash[a] == b
  {
    var d0 := Pair(r, a, b);
    RunTwo(d0, a, b, true);
    PairFirstCall(d0, r, a, b);
    var d1 := Run(d0, [a, b], true);
    RunTwo(d1, a, b, true);
    PairSecondCall(d1, r, a, b);
  }

  /** `a` stays, `b` goes to the front remembering `a`. */
  lemma PairFirstCall(d0: Dom, r: Node, a: Node, b: Node)
    requires r != a && r != b && a != b
    requires d0 == Pair(r, a, b)
    ensures var d := Step(Step(d0, a, true), b, true);
            r in d.children && d.children[r] == [b, a] && d.stash == map[b := a]
  {
    Untouched(d0, a, true);
    PairLists(a, b);
    PromoteChild(d0, r, b, [a, b], 1, [b, a]);
  }

  /** `a` goes to the front remembering `b`; `b`, already moved, stays. */
  lemma PairSecondCall(d: Dom, r: Node, a: Node, b: Node)
    requires a != b
    requires WellFormed(d) && r in d.children && d.children[r] == [b, a] && d.stash == map[b := a]
    ensures var d' := Step(Step(d, a, true), b, true);
            r in d'.children && d'.children[r] == [a, b] && a in d'.stash && d'.stash[a] == b
  {
    PairLists(a, b);
    PromoteChild(d, r, a, [b, a], 1, [a, b]);
    Untouched(Step(d, a, true), b, true);
  }

  /** The child lists of PairFirstCall and PairSecondCall. */
  lemma PairLists(a: Node, b: Node)
    requires a != b
    ensures Distinct([a, b]) && [b] + ([a, b][..1] + [a, b][2..]) == [b, a]
    ensures Distinct([b, a]) && [a] + ([b, a][..1] + [b, a][2..]) == [a, b]
  {
    assert [a, b][..1] == [a] && [a, b][2..] == [];
    assert [b, a][..1] == [b] && [b, a][2..] == [];
  }
}
