/** Family proposals of the siblings view (src/main.js:318-373): students
    whose surnames share a word are clustered with a union-find over their
    positions, and each cluster of two or more is proposed as a family. */
module Families {

  import opened Text

  /*********************************************************************
   * Surname words
   *********************************************************************/

  /** No string occurs twice. */
  predicate Unique(ws: seq<string>) {
    forall a, b :: 0 <= a < b < |ws| ==> ws[a] != ws[b]
  }

  /** The elements of `ws` in the order of their first occurrence: the
      iteration order of a JavaScript `Set` built from `ws`. */
  function Dedup(ws: seq<string>): (r: seq<string>)
    ensures Unique(r)
    ensures forall w :: w in r <==> w in ws
  {
    if ws == [] then []
    else
      var d := Dedup(ws[..|ws| - 1]);
      if ws[|ws| - 1] in d then d else d + [ws[|ws| - 1]]
  }

  /** `getLastNameWords`: the lower-cased words of the trimmed surname,
      each once, in order of first occurrence. */
  function LastNameWords(lastName: string): seq<string> {
    var ws := Words(lastName);
    Dedup(seq(|ws|, k requires 0 <= k < |ws| => ToLower(ws[k])))
  }

  /** The words are non-empty, free of white space, already lower case and
      distinct; a blank surname has none. */
  lemma LastNameWordsShape(lastName: string)
    ensures Unique(LastNameWords(lastName))
    ensures forall w :: w in LastNameWords(lastName) ==>
              w != [] && NoSpace(w) && ToLower(w) == w
    ensures LastNameWords(lastName) == [] <==> Trim(lastName) == []
  {
    var ws := Words(lastName);
    var low := seq(|ws|, k requires 0 <= k < |ws| => ToLower(ws[k]));
    WordsAreRuns(lastName);
    WordsEmpty(lastName);
    forall w | w in LastNameWords(lastName)
      ensures w != [] && NoSpace(w) && ToLower(w) == w
    {
      var k :| 0 <= k < |low| && low[k] == w;
      LowerKeepsSpace(ws[k]);
      ToLowerIdempotent(ws[k]);
    }
    if ws != [] {
      assert low[0] in LastNameWords(lastName);
    }
  }

  /** Lower-casing keeps a word non-empty and free of white space. */
  lemma LowerKeepsSpace(w: string)
    requires NoSpace(w)
    ensures NoSpace(ToLower(w))
  {
    forall i | 0 <= i < |w| ensures !IsSpace(ToLower(w)[i]) {
      assert !IsSpace(w[i]);
    }
  }

  /*********************************************************************
   * Connectivity: the relation the union-find computes
   *********************************************************************/

  /** Students `i` and `j` (positions in `ws`, the surname words of every
      student) have a surname word in common. */
  ghost predicate Linked(ws: seq<seq<string>>, i: nat, j: nat) {
    i < |ws| && j < |ws| && exists w :: w in ws[i] && w in ws[j]
  }

  /** A word two linked students share. */
  ghost function SharedWord(ws: seq<seq<string>>, i: nat, j: nat): (w: string)
    requires Linked(ws, i, j)
    ensures w in ws[i] && w in ws[j]
  {
    var w :| w in ws[i] && w in ws[j]; w
  }

  /** A chain of students, each sharing a word with the next. */
  ghost predicate IsChain(ws: seq<seq<string>>, p: seq<nat>) {
    && |p| > 0
    && (forall k :: 0 <= k < |p| ==> p[k] < |ws|)
    && (forall k :: 0 <= k < |p| - 1 ==> Linked(ws, p[k], p[k + 1]))
  }

  /** `i` and `j` are joined by a chain of shared words. */
  ghost predicate Connected(ws: seq<seq<string>>, i: nat, j: nat) {
    exists p :: IsChain(ws, p) && p[0] == i && p[|p| - 1] == j
  }

  lemma ConnectedRefl(ws: seq<seq<string>>, i: nat)
    requires i < |ws|
    ensures Connected(ws, i, i)
  {
    assert IsChain(ws, [i]);
  }

  lemma LinkedConnected(ws: seq<seq<string>>, i: nat, j: nat)
    requires Linked(ws, i, j)
    ensures Connected(ws, i, j)
  {
    assert IsChain(ws, [i, j]);
  }

  /** Chains compose. */
  lemma ConnectedTrans(ws: seq<seq<string>>, i: nat, j: nat, k: nat)
    requires Connected(ws, i, j) && Connected(ws, j, k)
    ensures Connected(ws, i, k)
  {
    var p :| IsChain(ws, p) && p[0] == i && p[|p| - 1] == j;
    var q :| IsChain(ws, q) && q[0] == j && q[|q| - 1] == k;
    var r := p + q[1..];
    forall m | 0 <= m < |r| - 1 ensures Linked(ws, r[m], r[m + 1]) {
      if m < |p| - 1 {
        assert r[m] == p[m] && r[m + 1] == p[m + 1];
      } else {
        assert r[m] == q[m - |p| + 1] && r[m + 1] == q[m - |p| + 2];
      }
    }
    assert IsChain(ws, r);
  }

  /** Chains run both ways. */
  lemma ConnectedSym(ws: seq<seq<string>>, i: nat, j: nat)
    requires Connected(ws, i, j)
    ensures Connected(ws, j, i)
  {
    var p :| IsChain(ws, p) && p[0] == i && p[|p| - 1] == j;
    var r := seq(|p|, k requires 0 <= k < |p| => p[|p| - 1 - k]);
    forall m | 0 <= m < |r| - 1 ensures Linked(ws, r[m], r[m + 1]) {
      assert Linked(ws, p[|p| - 2 - m], p[|p| - 1 - m]);
    }
    assert IsChain(ws, r);
  }

  /** A student who shares no word with any other student is connected to
      nobody else. */
  lemma LoneUnconnected(ws: seq<seq<string>>, i: nat, j: nat)
    requires i < |ws|
    requires forall k :: 0 <= k < |ws| && k != i ==> !Linked(ws, i, k)
    requires Connected(ws, i, j)
    ensures j == i
  {
    var p :| IsChain(ws, p) && p[0] == i && p[|p| - 1] == j;
    LoneChain(ws, i, p);
  }

  /** Every student on a chain from a lone student is that student. */
  lemma {:induction false} LoneChain(ws: seq<seq<string>>, i: nat, p: seq<nat>)
    requires i < |ws|
    requires forall k :: 0 <= k < |ws| && k != i ==> !Linked(ws, i, k)
    requires IsChain(ws, p) && p[0] == i
    ensures forall k :: 0 <= k < |p| ==> p[k] == i
  {
    if |p| > 1 {
      assert Linked(ws, p[0], p[1]);
      assert IsChain(ws, p[1..]);
      LoneChain(ws, i, p[1..]);
      assert forall k :: 1 <= k < |p| ==> p[k] == p[1..][k - 1];
    }
  }

  /*********************************************************************
   * Union-find with path compression
   *********************************************************************/

  /** `root` with every member of class `a` moved into class `b`. */
  function Merged(root: seq<nat>, a: nat, b: nat): (r: seq<nat>)
    ensures |r| == |root|
    ensures forall k :: 0 <= k < |root| && root[k] != a ==> r[k] == root[k]
    ensures forall k :: 0 <= k < |root| && root[k] == a ==> r[k] == b
  {
    seq(|root|, k requires 0 <= k < |root| => if root[k] == a then b else root[k])
  }

  /** `parent` is a forest whose chains end at the representatives in
      `root`: an element is its own parent exactly when it is a
      representative, a parent has the same representative as its child,
      and `height` strictly decreases along every chain. */
  ghost predicate Forest(parent: seq<nat>, root: seq<nat>, height: seq<nat>) {
    && |root| == |parent|
    && |height| == |parent|
    && forall i :: 0 <= i < |parent| ==> ForestAt(parent, root, height, i)
  }

  ghost predicate ForestAt(parent: seq<nat>, root: seq<nat>, height: seq<nat>, i: nat)
    requires |root| == |parent| == |height| && i < |parent|
  {
    && parent[i] < |parent|
    && root[i] < |parent|
    && root[parent[i]] == root[i]
    && root[root[i]] == root[i]
    && (parent[i] == i <==> root[i] == i)
    && (parent[i] != i ==> height[parent[i]] < height[i] && height[root[i]] < height[i])
  }

  /** Re-pointing an element at its representative keeps the forest. */
  lemma Compress(parent: seq<nat>, root: seq<nat>, height: seq<nat>, i: nat)
    requires Forest(parent, root, height) && i < |parent| && parent[i] != i
    ensures Forest(parent[i := root[i]], root, height)
  {
    assert ForestAt(parent, root, height, i);
    var p := parent[i := root[i]];
    forall k | 0 <= k < |p| ensures ForestAt(p, root, height, k) {
      assert ForestAt(parent, root, height, k);
    }
  }

  /** The heights once the class of `a` hangs below `b`. */
  function Raised(root: seq<nat>, height: seq<nat>, a: nat, b: nat): (h: seq<nat>)
    requires |height| == |root| && b < |root|
    ensures |h| == |height|
  {
    seq(|height|, k requires 0 <= k < |height| =>
      if root[k] == a then height[k] + height[b] + 1 else height[k])
  }

  /** Hanging one representative below another keeps the forest, with the
      two classes merged. */
  lemma Link(parent: seq<nat>, root: seq<nat>, height: seq<nat>, a: nat, b: nat)
    requires Forest(parent, root, height)
    requires a < |parent| && b < |parent| && a != b
    requires root[a] == a && root[b] == b
    ensures Forest(parent[a := b], Merged(root, a, b), Raised(root, height, a, b))
  {
    var p, r, h := parent[a := b], Merged(root, a, b), Raised(root, height, a, b);
    forall k | 0 <= k < |p| ensures ForestAt(p, r, h, k) {
      assert ForestAt(parent, root, height, k);
      assert ForestAt(parent, root, height, parent[k]);
      assert ForestAt(parent, root, height, root[k]);
    }
  }

  /** The `parent` array of `computeProposedFamilies` together with `find`
      and `union`. The ghost `root` gives the representative each element's
      parent chain ends at, and `height` bounds the length of that chain. */
  class UnionFind {
    var parent: array<nat>
    ghost var root: seq<nat>
    ghost var height: seq<nat>

    ghost predicate Valid()
      reads this, parent
    {
      Forest(parent[..], root, height)
    }

    /** `allStudents.map((_, i) => i)`: every element is its own class. */
    constructor (n: nat)
      ensures Valid() && fresh(parent)
      ensures parent.Length == n && root == seq(n, i => i)
    {
      parent := new nat[n](i => i);
      root := seq(n, i => i);
      height := seq(n, i => 0);
      new;
      assert forall k :: 0 <= k < n ==> ForestAt(parent[..], root, height, k);
    }

    /** `find`: the representative of `i`; every element on the way is
        re-pointed at it, which leaves every class as it was. */
    method Find(i: nat) returns (r: nat)
      requires Valid() && i < parent.Length
      modifies parent
      ensures Valid()
      ensures r == root[i] && r < parent.Length
      decreases height[i]
    {
      assert ForestAt(parent[..], root, height, i);
      var p := parent[i];
      if p != i {
        r := Find(p);
        assert ForestAt(parent[..], root, height, i);
        Compress(parent[..], root, height, i);
        parent[i] := r;
      } else {
        r := i;
      }
    }

    /** `union`: the class of `i` joins the class of `j`. */
    method Union(i: nat, j: nat)
      requires Valid() && i < parent.Length && j < parent.Length
      modifies this, parent
      ensures Valid() && parent == old(parent)
      ensures root == Merged(old(root), old(root)[i], old(root)[j])
    {
      var pi := Find(i);
      var pj := Find(j);
      if pi != pj {
        assert ForestAt(parent[..], root, height, i);
        assert ForestAt(parent[..], root, height, j);
        Link(parent[..], root, height, pi, pj);
        parent[pi] := pj;
        height := Raised(root, height, pi, pj);
        root := Merged(root, pi, pj);
      } else {
        assert root == Merged(root, pi, pj);
      }
    }
  }

  /*********************************************************************
   * Grouping by representative
   *********************************************************************/

  predicate Increasing(m: seq<nat>) {
    forall a, b :: 0 <= a < b < |m| ==> m[a] < m[b]
  }

  /** The distinct labels of `L`, in order of first occurrence: the key
      order of the `byRoot` map. */
  function FirstSeen(L: seq<nat>): seq<nat> {
    if L == [] then []
    else
      var d := FirstSeen(L[..|L| - 1]);
      if L[|L| - 1] in d then d else d + [L[|L| - 1]]
  }

  /** Every label occurs once among the first-seen labels. */
  lemma {:induction false} FirstSeenSpec(L: seq<nat>)
    ensures forall x :: x in FirstSeen(L) <==> x in L
    ensures forall a, b :: 0 <= a < b < |FirstSeen(L)| ==> FirstSeen(L)[a] != FirstSeen(L)[b]
  {
    if L != [] {
      FirstSeenSpec(L[..|L| - 1]);
      assert L == L[..|L| - 1] + [L[|L| - 1]];
    }
  }

  /** The positions labelled `x`, in increasing order. */
  function Members(L: seq<nat>, x: nat): seq<nat> {
    if L == [] then []
    else Members(L[..|L| - 1], x) + (if L[|L| - 1] == x then [|L| - 1] else [])
  }

  /** The members of a label are exactly its positions, in increasing
      order. */
  lemma {:induction false} MembersSpec(L: seq<nat>, x: nat)
    ensures Increasing(Members(L, x))
    ensures forall k :: 0 <= k < |Members(L, x)| ==> Members(L, x)[k] < |L| && L[Members(L, x)[k]] == x
    ensures forall i :: 0 <= i < |L| && L[i] == x ==> i in Members(L, x)
    ensures |Members(L, x)| > 0 <==> x in L
  {
    if L != [] {
      var p := L[..|L| - 1];
      MembersSpec(p, x);
      assert forall i :: 0 <= i < |p| ==> L[i] == p[i];
    }
  }

  /** One group per label, in order of first occurrence (the values of
      `byRoot`). */
  function Groups(L: seq<nat>): seq<seq<nat>> {
    var f := FirstSeen(L);
    seq(|f|, k requires 0 <= k < |f| => Members(L, f[k]))
  }

  /** Each group starts before every later one. */
  ghost predicate HeadsIncreasing(gs: seq<seq<nat>>) {
    forall a, b :: 0 <= a < b < |gs| && |gs[a]| > 0 && |gs[b]| > 0 ==> gs[a][0] < gs[b][0]
  }

  /** `.filter((list) => list.length >= 2)`. */
  function Large(gs: seq<seq<nat>>): (r: seq<seq<nat>>)
    ensures forall g :: g in r <==> g in gs && |g| >= 2
  {
    if gs == [] then []
    else Large(gs[..|gs| - 1]) + (if |gs[|gs| - 1]| >= 2 then [gs[|gs| - 1]] else [])
  }

  /** Filtering keeps the order of the groups. */
  lemma {:induction false} LargeOrdered(gs: seq<seq<nat>>)
    requires HeadsIncreasing(gs)
    ensures HeadsIncreasing(Large(gs))
  {
    if gs != [] {
      var p := gs[..|gs| - 1];
      assert HeadsIncreasing(p);
      LargeOrdered(p);
      var lp := Large(p);
      forall a | 0 <= a < |lp| && |lp[a]| > 0 && |gs[|gs| - 1]| > 0
        ensures lp[a][0] < gs[|gs| - 1][0]
      {
        assert lp[a] in p;
        var a' :| 0 <= a' < |p| && p[a'] == lp[a];
        assert gs[a'] == lp[a];
      }
    }
  }

  /** A label already present keeps its first position when one more
      label is appended. */
  lemma MembersHead(L: seq<nat>, x: nat)
    requires |L| > 0 && x in L[..|L| - 1]
    ensures |Members(L, x)| > 0 && |Members(L[..|L| - 1], x)| > 0
    ensures Members(L, x)[0] == Members(L[..|L| - 1], x)[0] < |L| - 1
  {
    MembersSpec(L[..|L| - 1], x);
  }

  /** A label appended for the first time has the new position alone. */
  lemma MembersFresh(L: seq<nat>)
    requires |L| > 0 && L[|L| - 1] !in L[..|L| - 1]
    ensures Members(L, L[|L| - 1]) == [|L| - 1]
  {
    MembersSpec(L[..|L| - 1], L[|L| - 1]);
  }

  /** The groups of a label sequence start in increasing order. */
  lemma {:induction false} GroupsOrdered(L: seq<nat>)
    ensures HeadsIncreasing(Groups(L))
  {
    if L != [] {
      var p, v := L[..|L| - 1], L[|L| - 1];
      GroupsOrdered(p);
      FirstSeenSpec(p);
      var f, fp := FirstSeen(L), FirstSeen(p);
      assert f == if v in fp then fp else fp + [v];
      forall a, b | 0 <= a < b < |f|
        ensures |Members(L, f[a])| > 0 && |Members(L, f[b])| > 0 ==>
                Members(L, f[a])[0] < Members(L, f[b])[0]
      {
        MembersHead(L, f[a]);
        assert Groups(p)[a] == Members(p, f[a]);
        if b < |fp| {
          MembersHead(L, f[b]);
          assert Groups(p)[b] == Members(p, f[b]);
        } else {
          assert v !in fp;
          MembersFresh(L);
        }
      }
    }
  }

  /** The proposals of a labelling: its groups of two or more. */
  function Proposed(L: seq<nat>): seq<seq<nat>> {
    Large(Groups(L))
  }

  /** Every proposal is the group of one label. */
  lemma ProposedMember(L: seq<nat>, g: seq<nat>)
    requires g in Proposed(L)
    ensures |g| >= 2 && exists u :: u in L && g == Members(L, u)
  {
    FirstSeenSpec(L);
    var k :| 0 <= k < |Groups(L)| && Groups(L)[k] == g;
    assert FirstSeen(L)[k] in FirstSeen(L);
  }

  /** Every group of two or more is proposed. */
  lemma ProposedHas(L: seq<nat>, u: nat)
    requires u in L && |Members(L, u)| >= 2
    ensures Members(L, u) in Proposed(L)
  {
    FirstSeenSpec(L);
    var k :| 0 <= k < |FirstSeen(L)| && FirstSeen(L)[k] == u;
    assert Groups(L)[k] == Members(L, u);
  }

  /*********************************************************************
   * The proposals and what they promise
   *********************************************************************/

  /** The surname words of every student. */
  function SurnameWords(lastNames: seq<string>): (ws: seq<seq<string>>)
    ensures |ws| == |lastNames|
  {
    seq(|lastNames|, i requires 0 <= i < |lastNames| => LastNameWords(lastNames[i]))
  }

  /** Families of two or more students, in input order. */
  ghost predicate FamiliesShaped(n: nat, fs: seq<seq<nat>>) {
    && (forall x :: 0 <= x < |fs| ==> |fs[x]| >= 2 && Increasing(fs[x]))
    && (forall x, k :: 0 <= x < |fs| && 0 <= k < |fs[x]| ==> fs[x][k] < n)
  }

  /** Families ordered by their first member. */
  ghost predicate FamiliesOrdered(fs: seq<seq<nat>>) {
    forall x, y :: 0 <= x < y < |fs| && |fs[x]| > 0 && |fs[y]| > 0 ==> fs[x][0] < fs[y][0]
  }

  /** No student in two families. */
  ghost predicate FamiliesDisjoint(fs: seq<seq<nat>>) {
    forall x, y, v :: 0 <= x < y < |fs| && v in fs[x] ==> v !in fs[y]
  }

  /** The members of a family are joined by shared words. */
  ghost predicate FamiliesConnected(ws: seq<seq<string>>, fs: seq<seq<nat>>) {
    forall x, a, b :: 0 <= x < |fs| && a in fs[x] && b in fs[x] ==> Connected(ws, a, b)
  }

  /** Two students joined by shared words are in a common family. */
  ghost predicate FamiliesComplete(ws: seq<seq<string>>, fs: seq<seq<nat>>) {
    forall a, b :: 0 <= a < |ws| && 0 <= b < |ws| && a != b && Connected(ws, a, b) ==>
      exists x :: 0 <= x < |fs| && a in fs[x] && b in fs[x]
  }

  /** `fs` is the proposal for students with surname words `ws`. */
  ghost predicate IsProposal(ws: seq<seq<string>>, fs: seq<seq<nat>>) {
    && FamiliesShaped(|ws|, fs)
    && FamiliesOrdered(fs)
    && FamiliesDisjoint(fs)
    && FamiliesConnected(ws, fs)
    && FamiliesComplete(ws, fs)
  }

  /** `L` labels the students by their connected component. */
  ghost predicate Components(ws: seq<seq<string>>, L: seq<nat>) {
    && |L| == |ws|
    && forall a, b :: 0 <= a < |ws| && 0 <= b < |ws| ==> (L[a] == L[b] <==> Connected(ws, a, b))
  }

  lemma ProposedShaped(L: seq<nat>)
    ensures FamiliesShaped(|L|, Proposed(L))
  {
    var fs := Proposed(L);
    forall x | 0 <= x < |fs|
      ensures |fs[x]| >= 2 && Increasing(fs[x])
      ensures forall k :: 0 <= k < |fs[x]| ==> fs[x][k] < |L|
    {
      ProposedMember(L, fs[x]);
      var u :| u in L && fs[x] == Members(L, u);
      MembersSpec(L, u);
    }
  }

  lemma ProposedOrdered(L: seq<nat>)
    ensures FamiliesOrdered(Proposed(L))
  {
    GroupsOrdered(L);
    LargeOrdered(Groups(L));
  }

  /** Groups of different labels have no position in common. */
  lemma MembersDisjoint(L: seq<nat>, u: nat, u': nat)
    requires u != u'
    ensures forall v :: v in Members(L, u) ==> v !in Members(L, u')
  {
    MembersSpec(L, u);
    MembersSpec(L, u');
  }

  lemma ProposedDisjoint(L: seq<nat>)
    ensures FamiliesDisjoint(Proposed(L))
  {
    var fs := Proposed(L);
    ProposedOrdered(L);
    forall x, y, v | 0 <= x < y < |fs| && v in fs[x] ensures v !in fs[y] {
      ProposedMember(L, fs[x]);
      ProposedMember(L, fs[y]);
      var u :| u in L && fs[x] == Members(L, u);
      var u' :| u' in L && fs[y] == Members(L, u');
      assert fs[x][0] < fs[y][0];
      MembersDisjoint(L, u, u');
    }
  }

  lemma ProposedConnected(ws: seq<seq<string>>, L: seq<nat>)
    requires Components(ws, L)
    ensures FamiliesConnected(ws, Proposed(L))
  {
    var fs := Proposed(L);
    forall x, a, b | 0 <= x < |fs| && a in fs[x] && b in fs[x] ensures Connected(ws, a, b) {
      ProposedMember(L, fs[x]);
      var u :| u in L && fs[x] == Members(L, u);
      MembersSpec(L, u);
    }
  }

  lemma ProposedComplete(ws: seq<seq<string>>, L: seq<nat>)
    requires Components(ws, L)
    ensures FamiliesComplete(ws, Proposed(L))
  {
    var fs := Proposed(L);
    forall a, b | 0 <= a < |ws| && 0 <= b < |ws| && a != b && Connected(ws, a, b)
      ensures exists x :: 0 <= x < |fs| && a in fs[x] && b in fs[x]
    {
      SameLabelProposed(L, a, b);
      var x :| 0 <= x < |fs| && fs[x] == Members(L, L[a]);
    }
  }

  /** Two students labelled alike share a proposed family. */
  lemma SameLabelProposed(L: seq<nat>, a: nat, b: nat)
    requires a < |L| && b < |L| && a != b && L[a] == L[b]
    ensures Members(L, L[a]) in Proposed(L) && a in Members(L, L[a]) && b in Members(L, L[a])
  {
    var m := Members(L, L[a]);
    MembersSpec(L, L[a]);
    assert |m| >= 2 by {
      assert a in m && b in m;
      var ia :| 0 <= ia < |m| && m[ia] == a;
      var ib :| 0 <= ib < |m| && m[ib] == b;
      assert ia != ib;
    }
    assert L[a] in L;
    ProposedHas(L, L[a]);
  }

  /** Grouping a component labelling yields the proposal. */
  lemma ProposedIsProposal(ws: seq<seq<string>>, L: seq<nat>)
    requires Components(ws, L)
    ensures IsProposal(ws, Proposed(L))
  {
    ProposedShaped(L);
    ProposedOrdered(L);
    ProposedDisjoint(L);
    ProposedConnected(ws, L);
    ProposedComplete(ws, L);
  }

  /*********************************************************************
   * computeProposedFamilies
   *********************************************************************/

  /** Students labelled alike are joined by shared words. */
  ghost predicate Joined(ws: seq<seq<string>>, root: seq<nat>) {
    && |root| == |ws|
    && forall a, b :: 0 <= a < |ws| && 0 <= b < |ws| && root[a] == root[b] ==> Connected(ws, a, b)
  }

  /** Merging the classes of two linked students keeps them joined. */
  lemma MergeJoined(ws: seq<seq<string>>, root: seq<nat>, i: nat, j: nat)
    requires Joined(ws, root) && Linked(ws, i, j)
    ensures Joined(ws, Merged(root, root[i], root[j]))
  {
    var r := Merged(root, root[i], root[j]);
    LinkedConnected(ws, i, j);
    forall a, b | 0 <= a < |ws| && 0 <= b < |ws| && r[a] == r[b]
      ensures Connected(ws, a, b)
    {
      if root[a] != root[b] {
        if root[a] == root[i] {
          ConnectedTrans(ws, a, i, j);
          ConnectedTrans(ws, a, j, b);
        } else {
          assert root[b] == root[i];
          assert Linked(ws, j, i);
          LinkedConnected(ws, j, i);
          ConnectedTrans(ws, a, j, i);
          ConnectedTrans(ws, a, i, b);
        }
      }
    }
  }

  /** Students along a chain share one label when linked students do. */
  lemma {:induction false} ChainSameLabel(ws: seq<seq<string>>, L: seq<nat>, p: seq<nat>)
    requires |L| == |ws|
    requires forall a: nat, b: nat :: Linked(ws, a, b) ==> L[a] == L[b]
    requires IsChain(ws, p)
    ensures L[p[0]] == L[p[|p| - 1]]
  {
    if |p| > 1 {
      assert Linked(ws, p[0], p[1]);
      assert IsChain(ws, p[1..]);
      ChainSameLabel(ws, L, p[1..]);
    }
  }

  /** `index` maps every surname word to the positions of the students
      having it, each once and in increasing order, and `keys` lists its
      words. */
  ghost predicate IsWordIndex(ws: seq<seq<string>>, keys: seq<string>, index: map<string, seq<nat>>) {
    && (forall w :: w in index <==> w in keys)
    && (forall w :: w in index ==> |index[w]| > 0 && Increasing(index[w]))
    && (forall w, m :: w in index && 0 <= m < |index[w]| ==>
          index[w][m] < |ws| && w in ws[index[w][m]])
    && (forall j, w :: 0 <= j < |ws| && w in ws[j] ==> w in index && j in index[w])
  }

  /** `index` and `keys` record the words of the first `n` students. */
  ghost predicate IndexedUpTo(ws: seq<seq<string>>, n: nat, keys: seq<string>, index: map<string, seq<nat>>) {
    && n <= |ws|
    && (forall w :: w in index <==> w in keys)
    && (forall w :: w in index ==> |index[w]| > 0 && Increasing(index[w]))
    && (forall w, m :: w in index && 0 <= m < |index[w]| ==>
          index[w][m] < n && w in ws[index[w][m]])
    && (forall j, w :: 0 <= j < n && w in ws[j] ==> w in index && j in index[w])
  }

  /** `index` and `keys` record the words of the first `i` students and
      the first `k` words of student `i`. */
  ghost predicate IndexedWithin(ws: seq<seq<string>>, i: nat, k: nat, keys: seq<string>, index: map<string, seq<nat>>)
    requires i < |ws| && k <= |ws[i]|
  {
    && (forall w :: w in index <==> w in keys)
    && (forall w :: w in index ==> |index[w]| > 0 && Increasing(index[w]))
    && (forall w, m :: w in index && 0 <= m < |index[w]| ==>
          index[w][m] <= i && w in ws[index[w][m]])
    && (forall w, m :: w in index && w !in ws[i][..k] && 0 <= m < |index[w]| ==>
          index[w][m] < i)
    && (forall j, w :: 0 <= j < i && w in ws[j] ==> w in index && j in index[w])
    && (forall w :: w in ws[i][..k] ==> w in index && i in index[w])
  }

  /** Pushing `i` onto the list of its next word, creating the list when
      the word is new, records one more word. */
  lemma PushWord(ws: seq<seq<string>>, i: nat, k: nat, keys: seq<string>, index: map<string, seq<nat>>,
                 keys': seq<string>, index': map<string, seq<nat>>)
    requires i < |ws| && k < |ws[i]| && Unique(ws[i])
    requires IndexedWithin(ws, i, k, keys, index)
    requires keys' == if ws[i][k] in index then keys else keys + [ws[i][k]]
    requires index' == index[ws[i][k] := (if ws[i][k] in index then index[ws[i][k]] else []) + [i]]
    ensures IndexedWithin(ws, i, k + 1, keys', index')
  {
    var w := ws[i][k];
    assert w !in ws[i][..k];
    assert ws[i][..k + 1] == ws[i][..k] + [w];
    var list := if w in index then index[w] else [];
    assert forall m :: 0 <= m < |list| ==> list[m] < i;
    IncreasingSnoc(list, i);
  }

  /** Appending a position above all the others keeps a list increasing. */
  lemma IncreasingSnoc(m: seq<nat>, x: nat)
    requires Increasing(m) && forall k :: 0 <= k < |m| ==> m[k] < x
    ensures Increasing(m + [x])
  {
  }

  /** The inner loop of the `wordToIndices` pass: student `i` is pushed
      once onto the list of each of its words. */
  method IndexStudent(ws: seq<seq<string>>, i: nat, keys0: seq<string>, index0: map<string, seq<nat>>)
    returns (keys: seq<string>, index: map<string, seq<nat>>)
    requires i < |ws| && Unique(ws[i])
    requires IndexedUpTo(ws, i, keys0, index0)
    ensures IndexedUpTo(ws, i + 1, keys, index)
  {
    keys, index := keys0, index0;
    var words := ws[i];
    var k := 0;
    while k < |words|
      invariant 0 <= k <= |words|
      invariant IndexedWithin(ws, i, k, keys, index)
    {
      var w := words[k];
      ghost var keysBefore, indexBefore := keys, index;
      if w !in index {
        keys := keys + [w];
        index := index[w := []];
      }
      index := index[w := index[w] + [i]];
      PushWord(ws, i, k, keysBefore, indexBefore, keys, index);
      k := k + 1;
    }
    assert words[..|words|] == words;
  }

  /** The `wordToIndices` loop of `computeProposedFamilies`, given the
      surname words `ws` of every student. */
  method IndexWords(ws: seq<seq<string>>) returns (keys: seq<string>, index: map<string, seq<nat>>)
    requires forall i :: 0 <= i < |ws| ==> Unique(ws[i])
    ensures IsWordIndex(ws, keys, index)
  {
    keys, index := [], map[];
    var i := 0;
    while i < |ws|
      invariant 0 <= i <= |ws|
      invariant IndexedUpTo(ws, i, keys, index)
    {
      keys, index := IndexStudent(ws, i, keys, index);
      i := i + 1;
    }
  }

  /** A labelling under which the students of every word share a label,
      and only students joined by shared words do, is the component
      labelling. */
  lemma IndexedComponents(ws: seq<seq<string>>, keys: seq<string>, index: map<string, seq<nat>>, L: seq<nat>)
    requires IsWordIndex(ws, keys, index) && Joined(ws, L)
    requires forall s, m :: 0 <= s < |keys| && 0 <= m < |index[keys[s]]| ==>
               L[index[keys[s]][m]] == L[index[keys[s]][0]]
    ensures Components(ws, L)
  {
    forall a: nat, b: nat | Linked(ws, a, b) ensures L[a] == L[b] {
      var w := SharedWord(ws, a, b);
      assert w in index;
      assert w in keys;
      var s :| 0 <= s < |keys| && keys[s] == w;
      var ma :| 0 <= ma < |index[w]| && index[w][ma] == a;
      var mb :| 0 <= mb < |index[w]| && index[w][mb] == b;
    }
    forall a, b | 0 <= a < |ws| && 0 <= b < |ws| && Connected(ws, a, b) ensures L[a] == L[b] {
      var p :| IsChain(ws, p) && p[0] == a && p[|p| - 1] == b;
      ChainSameLabel(ws, L, p);
    }
  }

  /** `r1` keeps together every two elements `r0` has together. */
  ghost predicate Coarser(r0: seq<nat>, r1: seq<nat>) {
    && |r1| == |r0|
    && forall a, b :: 0 <= a < |r0| && 0 <= b < |r0| && r0[a] == r0[b] ==> r1[a] == r1[b]
  }

  /** The inner loop of the `union` pass: the students of one word, all
      having the word `w`, are merged into one class. */
  method UnionRun(uf: UnionFind, ghost ws: seq<seq<string>>, indices: seq<nat>, ghost w: string)
    requires uf.Valid() && uf.parent.Length == |ws| && Joined(ws, uf.root)
    requires |indices| > 0
    requires forall m :: 0 <= m < |indices| ==> indices[m] < |ws| && w in ws[indices[m]]
    modifies uf, uf.parent
    ensures uf.Valid() && uf.parent == old(uf.parent) && Joined(ws, uf.root)
    ensures Coarser(old(uf.root), uf.root)
    ensures forall m :: 0 <= m < |indices| ==> uf.root[indices[m]] == uf.root[indices[0]]
  {
    var k := 1;
    while k < |indices|
      invariant 1 <= k <= |indices|
      invariant uf.Valid() && uf.parent == old(uf.parent) && Joined(ws, uf.root)
      invariant Coarser(old(uf.root), uf.root)
      invariant forall m :: 0 <= m < k ==> uf.root[indices[m]] == uf.root[indices[0]]
    {
      assert w in ws[indices[0]] && w in ws[indices[k]];
      MergeJoined(ws, uf.root, indices[0], indices[k]);
      uf.Union(indices[0], indices[k]);
      k := k + 1;
    }
  }

  /** The `union` loop of `computeProposedFamilies`: afterwards the classes
      of the union-find are the connected components. */
  method UnionWords(n: nat, ghost ws: seq<seq<string>>, keys: seq<string>, index: map<string, seq<nat>>)
      returns (uf: UnionFind)
    requires |ws| == n && IsWordIndex(ws, keys, index)
    ensures fresh(uf) && fresh(uf.parent)
    ensures uf.Valid() && uf.parent.Length == |ws|
    ensures Components(ws, uf.root)
  {
    uf := new UnionFind(n);
    forall a | 0 <= a < |ws| ensures Connected(ws, a, a) {
      ConnectedRefl(ws, a);
    }
    var t := 0;
    while t < |keys|
      invariant 0 <= t <= |keys|
      invariant fresh(uf) && fresh(uf.parent)
      invariant uf.Valid() && uf.parent.Length == |ws|
      invariant Joined(ws, uf.root)
      invariant forall s, m :: 0 <= s < t && 0 <= m < |index[keys[s]]| ==>
                  uf.root[index[keys[s]][m]] == uf.root[index[keys[s]][0]]
    {
      ghost var before := uf.root;
      UnionRun(uf, ws, index[keys[t]], keys[t]);
      forall s, m | 0 <= s < t && 0 <= m < |index[keys[s]]|
        ensures uf.root[index[keys[s]][m]] == uf.root[index[keys[s]][0]]
      {
        var run := index[keys[s]];
        assert before[run[m]] == before[run[0]];
      }
      t := t + 1;
    }
    IndexedComponents(ws, keys, index, uf.root);
  }

  /** The `byRoot` pass of `computeProposedFamilies` and its final
      filter: the classes of the union-find, in order of their first
      element, keeping those of two or more. */
  method GroupByRoot(uf: UnionFind) returns (families: seq<seq<nat>>)
    requires uf.Valid()
    modifies uf.parent
    ensures uf.Valid()
    ensures families == Proposed(uf.root)
  {
    ghost var L := uf.root;
    var order: seq<nat> := [];
    var byRoot: map<nat, seq<nat>> := map[];
    var i := 0;
    while i < uf.parent.Length
      invariant 0 <= i <= uf.parent.Length == |L|
      invariant uf.Valid() && uf.root == L
      invariant order == FirstSeen(L[..i])
      invariant forall r :: r in byRoot <==> r in order
      invariant forall r :: r in byRoot ==> byRoot[r] == Members(L[..i], r)
    {
      var r := uf.Find(i);
      assert L[..i + 1][..i] == L[..i];
      if r !in byRoot {
        FirstSeenSpec(L[..i]);
        MembersSpec(L[..i], r);
        order := order + [r];
        byRoot := byRoot[r := []];
      }
      byRoot := byRoot[r := byRoot[r] + [i]];
      i := i + 1;
    }
    assert L[..i] == L;
    var groups := seq(|order|, k requires 0 <= k < |order| => byRoot[order[k]]);
    assert groups == Groups(L) by {
      forall k | 0 <= k < |order| ensures groups[k] == Members(L, order[k]) {
        assert order[k] in byRoot;
      }
    }
    families := Large(groups);
  }

  /** `computeProposedFamilies`, returning every family as the positions
      of its members in `lastNames`. */
  method ComputeProposedFamilies(lastNames: seq<string>) returns (families: seq<seq<nat>>)
    ensures IsProposal(SurnameWords(lastNames), families)
  {
    var ws := SurnameWords(lastNames);
    forall i | 0 <= i < |ws| ensures Unique(ws[i]) {
      LastNameWordsShape(lastNames[i]);
    }
    var keys, index := IndexWords(ws);
    var uf := UnionWords(|lastNames|, ws, keys, index);
    families := GroupByRoot(uf);
    ProposedIsProposal(ws, uf.root);
  }

  /*********************************************************************
   * Consequences of the proposal
   *********************************************************************/

  /** A student who shares no surname word with anyone else is in no
      family. */
  lemma LoneInNoFamily(ws: seq<seq<string>>, fs: seq<seq<nat>>, i: nat)
    requires IsProposal(ws, fs) && i < |ws|
    requires forall k :: 0 <= k < |ws| && k != i ==> !Linked(ws, i, k)
    ensures forall x :: 0 <= x < |fs| ==> i !in fs[x]
  {
    forall x | 0 <= x < |fs| ensures i !in fs[x] {
      if i in fs[x] {
        var other := if fs[x][0] == i then fs[x][1] else fs[x][0];
        assert other != i && other in fs[x];
        LoneUnconnected(ws, i, other);
      }
    }
  }

  /** Two students whose surnames share a word are in one family. */
  lemma SharedWordSameFamily(ws: seq<seq<string>>, fs: seq<seq<nat>>, i: nat, j: nat, w: string)
    requires IsProposal(ws, fs) && i < |ws| && j < |ws| && i != j
    requires w in ws[i] && w in ws[j]
    ensures exists x :: 0 <= x < |fs| && i in fs[x] && j in fs[x]
  {
    LinkedConnected(ws, i, j);
  }

  /** The relation is transitive: students along a chain of shared words
      are all in the family of the first. */
  lemma ChainSameFamily(ws: seq<seq<string>>, fs: seq<seq<nat>>, p: seq<nat>)
    requires IsProposal(ws, fs) && IsChain(ws, p) && p[0] != p[|p| - 1]
    ensures exists x :: 0 <= x < |fs| && p[0] in fs[x] && p[|p| - 1] in fs[x]
  {
    assert Connected(ws, p[0], p[|p| - 1]);
  }

  /** Once a student is in a family, so is everyone joined to them. */
  lemma FamilyClosed(ws: seq<seq<string>>, fs: seq<seq<nat>>, x: nat, a: nat, b: nat)
    requires IsProposal(ws, fs) && x < |fs| && a in fs[x] && b < |ws|
    requires Connected(ws, a, b)
    ensures b in fs[x]
  {
    if a != b {
      var y :| 0 <= y < |fs| && a in fs[y] && b in fs[y];
      if y != x {
        assert false;
      }
    }
  }

  /** The k-th element of an increasing sequence of naturals is at
      least k. */
  lemma {:induction false} IncreasingFloor(f: seq<nat>)
    requires Increasing(f)
    ensures forall k :: 0 <= k < |f| ==> k <= f[k]
  {
    if |f| > 0 {
      var p := f[..|f| - 1];
      IncreasingFloor(p);
      assert forall k :: 0 <= k < |p| ==> p[k] == f[k];
      if |f| > 1 {
        assert |f| - 2 <= p[|f| - 2] == f[|f| - 2] < f[|f| - 1];
      }
    }
  }

  /** An increasing sequence of positions below 3 holding 0, 1 and 2 is
      exactly [0, 1, 2]. */
  lemma AllOfThree(f: seq<nat>)
    requires Increasing(f) && forall k :: 0 <= k < |f| ==> f[k] < 3
    requires 0 in f && 1 in f && 2 in f
    ensures f == [0, 1, 2]
  {
    IncreasingFloor(f);
    if |f| > 0 {
      assert |f| - 1 <= f[|f| - 1] < 3;
    }
  }

  /** A family holding every student is the only one. */
  lemma OnlyFamily(n: nat, fs: seq<seq<nat>>, x: nat)
    requires FamiliesShaped(n, fs) && FamiliesDisjoint(fs) && x < |fs|
    requires forall v :: 0 <= v < n ==> v in fs[x]
    ensures fs == [fs[x]]
  {
    forall y | 0 <= y < |fs| ensures fs[y] == fs[x] && y == x {
      assert fs[y][0] in fs[x];
    }
    assert fs[0] == fs[x] && fs[|fs| - 1] == fs[x];
  }

  /** Three students, the first linked to the second and the second to
      the third, form a single family. */
  lemma ChainOfThree(ws: seq<seq<string>>, fs: seq<seq<nat>>)
    requires IsProposal(ws, fs) && |ws| == 3
    requires Linked(ws, 0, 1) && Linked(ws, 1, 2)
    ensures fs == [[0, 1, 2]]
  {
    LinkedConnected(ws, 0, 1);
    LinkedConnected(ws, 1, 2);
    ConnectedTrans(ws, 0, 1, 2);
    var x :| 0 <= x < |fs| && 0 in fs[x] && 2 in fs[x];
    FamilyClosed(ws, fs, x, 0, 1);
    AllOfThree(fs[x]);
    OnlyFamily(3, fs, x);
  }

  /** Each word of a surname, lower-cased, is one of its surname words. */
  lemma WordOfSurname(lastName: string, k: nat)
    requires k < |Words(lastName)|
    ensures ToLower(Words(lastName)[k]) in LastNameWords(lastName)
  {
    var ws := Words(lastName);
    var low := seq(|ws|, j requires 0 <= j < |ws| => ToLower(ws[j]));
    assert low[k] == ToLower(ws[k]);
  }

  /** The surname words are exactly the lower-cased words of the trimmed
      surname. */
  lemma LastNameWordsExactly(lastName: string, w: string)
    ensures w in LastNameWords(lastName) <==>
            exists k :: 0 <= k < |Words(lastName)| && w == ToLower(Words(lastName)[k])
  {
    var ws := Words(lastName);
    var low := seq(|ws|, j requires 0 <= j < |ws| => ToLower(ws[j]));
    assert LastNameWords(lastName) == Dedup(low);
    if w in LastNameWords(lastName) {
      var k :| 0 <= k < |low| && low[k] == w;
      assert w == ToLower(ws[k]);
    }
    if exists k :: 0 <= k < |ws| && w == ToLower(ws[k]) {
      var k :| 0 <= k < |ws| && w == ToLower(ws[k]);
      WordOfSurname(lastName, k);
    }
  }

  /** A surname of one word has that word, lower-cased. */
  lemma OneWordSurname(a: string)
    requires a != [] && NoSpace(a)
    ensures ToLower(a) in LastNameWords(a)
  {
    WordsOfWord(a);
    WordOfSurname(a, 0);
  }

  /** A surname of two words has both, lower-cased. */
  lemma TwoWordSurname(a: string, b: string)
    requires a != [] && NoSpace(a) && b != [] && NoSpace(b)
    ensures ToLower(a) in LastNameWords(a + " " + b)
    ensures ToLower(b) in LastNameWords(a + " " + b)
  {
    WordsCons(a, b);
    WordsOfWord(b);
    WordOfSurname(a + " " + b, 0);
    WordOfSurname(a + " " + b, 1);
  }

  /** A surname of three words has all three, lower-cased. */
  lemma ThreeWordSurname(a: string, b: string, c: string)
    requires a != [] && NoSpace(a) && b != [] && NoSpace(b) && c != [] && NoSpace(c)
    ensures ToLower(a) in LastNameWords(a + " " + b + " " + c)
    ensures ToLower(b) in LastNameWords(a + " " + b + " " + c)
    ensures ToLower(c) in LastNameWords(a + " " + b + " " + c)
  {
    var s := a + " " + b + " " + c;
    assert s == a + " " + (b + " " + c);
    WordsCons(a, b + " " + c);
    WordsCons(b, c);
    WordsOfWord(c);
    assert Words(s) == [a, b, c];
    WordOfSurname(s, 0);
    WordOfSurname(s, 1);
    WordOfSurname(s, 2);
  }

  /** Surnames `a`, `a b` and `b c` form one family, although the first
      and the last share no word. */
  lemma ChainedSurnames(a: string, b: string, c: string, fs: seq<seq<nat>>)
    requires a != [] && NoSpace(a) && b != [] && NoSpace(b) && c != [] && NoSpace(c)
    requires IsProposal(SurnameWords([a, a + " " + b, b + " " + c]), fs)
    ensures fs == [[0, 1, 2]]
  {
    var ws := SurnameWords([a, a + " " + b, b + " " + c]);
    OneWordSurname(a);
    TwoWordSurname(a, b);
    TwoWordSurname(b, c);
    assert ToLower(a) in ws[0] && ToLower(a) in ws[1];
    assert ToLower(b) in ws[1] && ToLower(b) in ws[2];
    ChainOfThree(ws, fs);
  }

  /** Martin / Martin Dubois / Dubois Lefebvre form one family. */
  lemma ThreeSurnames(fs: seq<seq<nat>>)
    requires IsProposal(SurnameWords(["Martin", "Martin Dubois", "Dubois Lefebvre"]), fs)
    ensures fs == [[0, 1, 2]]
  {
    assert "Martin Dubois" == "Martin" + " " + "Dubois";
    assert "Dubois Lefebvre" == "Dubois" + " " + "Lefebvre";
    ChainedSurnames("Martin", "Dubois", "Lefebvre", fs);
  }

  /** An increasing list of positions below `n` that holds each of them
      is `0, 1, ..., n - 1`. */
  lemma {:induction false} AllBelow(f: seq<nat>, n: nat)
    requires Increasing(f) && forall k :: 0 <= k < |f| ==> f[k] < n
    requires forall v :: 0 <= v < n ==> v in f
    ensures f == seq(n, i => i)
  {
    if f == [] {
      assert n == 0 || 0 in f;
    } else {
      var last := |f| - 1;
      assert f[last] < n;
      assert n - 1 in f;
      var j :| 0 <= j < |f| && f[j] == n - 1;
      assert f[j] <= f[last];
      var p := f[..last];
      forall v | 0 <= v < n - 1 ensures v in p {
        assert v in f;
        var i :| 0 <= i < |f| && f[i] == v;
        assert i != last && p[i] == v;
      }
      AllBelow(p, n - 1);
      assert f == p + [n - 1];
    }
  }

  /** Students who all share one surname word form a single family. */
  lemma OneSharedWord(ws: seq<seq<string>>, fs: seq<seq<nat>>, w: string)
    requires IsProposal(ws, fs) && |ws| >= 2
    requires forall i :: 0 <= i < |ws| ==> w in ws[i]
    ensures fs == [seq(|ws|, i => i)]
  {
    assert w in ws[0] && w in ws[1];
    LinkedConnected(ws, 0, 1);
    var x :| 0 <= x < |fs| && 0 in fs[x] && 1 in fs[x];
    forall v | 0 <= v < |ws| ensures v in fs[x] {
      if v != 0 {
        assert w in ws[0] && w in ws[v];
        LinkedConnected(ws, 0, v);
        FamilyClosed(ws, fs, x, 0, v);
      }
    }
    AllBelow(fs[x], |ws|);
    OnlyFamily(|ws|, fs, x);
  }

  /** Surnames `a`, `a b`, `b a c` and `c a b` form one family. */
  lemma CommonWordSurnames(a: string, b: string, c: string, fs: seq<seq<nat>>)
    requires a != [] && NoSpace(a) && b != [] && NoSpace(b) && c != [] && NoSpace(c)
    requires IsProposal(SurnameWords([a, a + " " + b, b + " " + a + " " + c, c + " " + a + " " + b]), fs)
    ensures fs == [[0, 1, 2, 3]]
  {
    var ws := SurnameWords([a, a + " " + b, b + " " + a + " " + c, c + " " + a + " " + b]);
    forall i | 0 <= i < |ws| ensures ToLower(a) in ws[i] {
      if i == 0 {
        OneWordSurname(a);
      } else if i == 1 {
        TwoWordSurname(a, b);
      } else if i == 2 {
        ThreeWordSurname(b, a, c);
      } else {
        ThreeWordSurname(c, a, b);
      }
    }
    OneSharedWord(ws, fs, ToLower(a));
    FirstFour();
  }

  lemma FirstFour()
    ensures seq(4, i => i) == [0, 1, 2, 3]
  {
    var r := seq(4, i => i);
    assert r[0] == 0 && r[1] == 1 && r[2] == 2 && r[3] == 3;
  }

  /** Martin / Martin Dubois / Dubois Martin Lefebvre / Lefebvre Martin
      Dubois form one family. */
  lemma FourSurnames(fs: seq<seq<nat>>)
    requires IsProposal(SurnameWords(["Martin", "Martin Dubois", "Dubois Martin Lefebvre", "Lefebvre Martin Dubois"]), fs)
    ensures fs == [[0, 1, 2, 3]]
  {
    assert "Martin Dubois" == "Martin" + " " + "Dubois";
    assert "Dubois Martin Lefebvre" == "Dubois" + " " + "Martin" + " " + "Lefebvre";
    assert "Lefebvre Martin Dubois" == "Lefebvre" + " " + "Martin" + " " + "Dubois";
    CommonWordSurnames("Martin", "Dubois", "Lefebvre", fs);
  }

  /*********************************************************************
   * getFamilyLabel
   *********************************************************************/

  /** `new Set([...acc].filter((w) => s.has(w)))`. */
  function Keep(acc: seq<string>, s: seq<string>): (r: seq<string>)
    ensures forall w :: w in r <==> w in acc && w in s
  {
    if acc == [] then []
    else Keep(acc[..|acc| - 1], s) + (if acc[|acc| - 1] in s then [acc[|acc| - 1]] else [])
  }

  /** The `reduce` of `getFamilyLabel`: the words of the first set that
      every other set has too, in the order of the first set. */
  function Common(sets: seq<seq<string>>): seq<string>
    requires |sets| > 0
  {
    if |sets| == 1 then sets[0]
    else Keep(Common(sets[..|sets| - 1]), sets[|sets| - 1])
  }

  /** A word is common exactly when every set has it. */
  lemma {:induction false} CommonSpec(sets: seq<seq<string>>, w: string)
    requires |sets| > 0
    ensures w in Common(sets) <==> forall k :: 0 <= k < |sets| ==> w in sets[k]
  {
    if |sets| > 1 {
      var p := sets[..|sets| - 1];
      CommonSpec(p, w);
      assert forall k :: 0 <= k < |p| ==> p[k] == sets[k];
    }
  }

  /** The order of the default `sort` on strings: character by character,
      a proper prefix first. */
  predicate LexLe(a: string, b: string)
    decreases |a|
  {
    a == [] || (b != [] && (a[0] < b[0] || (a[0] == b[0] && LexLe(a[1..], b[1..]))))
  }

  lemma {:induction false} LexTotal(a: string, b: string)
    ensures LexLe(a, b) || LexLe(b, a)
    decreases |a|
  {
    if a != [] && b != [] && a[0] == b[0] {
      LexTotal(a[1..], b[1..]);
    }
  }

  lemma {:induction false} LexTrans(a: string, b: string, c: string)
    requires LexLe(a, b) && LexLe(b, c)
    ensures LexLe(a, c)
    decreases |a|
  {
    if a != [] && a[0] == b[0] && b[0] == c[0] {
      LexTrans(a[1..], b[1..], c[1..]);
    }
  }

  lemma {:induction false} LexAntisym(a: string, b: string)
    requires LexLe(a, b) && LexLe(b, a)
    ensures a == b
    decreases |a|
  {
    if a != [] {
      LexAntisym(a[1..], b[1..]);
      assert a == [a[0]] + a[1..] && b == [b[0]] + b[1..];
    }
  }

  /** `[...ws].sort()[0]`: the first word in sort order. */
  function Least(ws: seq<string>): string
    requires ws != []
  {
    if |ws| == 1 then ws[0]
    else
      var m := Least(ws[1..]);
      if LexLe(ws[0], m) then ws[0] else m
  }

  /** The first word in sort order is one of the words and sorts before
      or equal to each of them. */
  lemma {:induction false} LeastSpec(ws: seq<string>)
    requires ws != []
    ensures Least(ws) in ws
    ensures forall w :: w in ws ==> LexLe(Least(ws), w)
  {
    if |ws| == 1 {
      LexRefl(ws[0]);
    } else {
      var m := Least(ws[1..]);
      LeastSpec(ws[1..]);
      LexTotal(ws[0], m);
      LexRefl(ws[0]);
      forall w | w in ws ensures LexLe(Least(ws), w) {
        if w != ws[0] {
          assert w in ws[1..];
          LexTrans(Least(ws), m, w);
        } else if Least(ws) == m {
          assert LexLe(m, ws[0]);
        }
      }
    }
  }

  lemma {:induction false} LexRefl(a: string)
    ensures LexLe(a, a)
    decreases |a|
  {
    if a != [] {
      LexRefl(a[1..]);
    }
  }

  /** Every set has `w`. */
  ghost predicate InAll(sets: seq<seq<string>>, w: string) {
    forall k :: 0 <= k < |sets| ==> w in sets[k]
  }

  /** The choice `getFamilyLabel` makes from the members' word sets and
      the first member's surname. */
  function ChooseLabel(sets: seq<seq<string>>, firstSurname: string): string
    requires |sets| > 0
  {
    var common := Common(sets);
    if common != [] then Least(common)
    else
      var first := FirstWord(firstSurname);
      if first != [] then first else "Famille"
  }

  /** With a shared word, the label is the shared word that sorts first
      (and no other shared word does); with none, it is the first word of
      the first surname as written, or "Famille" when that is blank. */
  lemma ChooseLabelSpec(sets: seq<seq<string>>, firstSurname: string)
    requires |sets| > 0
    ensures (exists w :: InAll(sets, w)) ==>
              && InAll(sets, ChooseLabel(sets, firstSurname))
              && forall w :: InAll(sets, w) ==> LexLe(ChooseLabel(sets, firstSurname), w)
    ensures forall w :: InAll(sets, w) && (forall v :: InAll(sets, v) ==> LexLe(w, v)) ==>
              w == ChooseLabel(sets, firstSurname)
    ensures (forall w :: !InAll(sets, w)) ==>
              ChooseLabel(sets, firstSurname) ==
                if Trim(firstSurname) == [] then "Famille" else Words(firstSurname)[0]
  {
    var common := Common(sets);
    forall w ensures w in common <==> InAll(sets, w) {
      CommonSpec(sets, w);
    }
    if common != [] {
      var least := Least(common);
      LeastSpec(common);
      forall w | InAll(sets, w) && (forall v :: InAll(sets, v) ==> LexLe(w, v))
        ensures w == least
      {
        assert LexLe(w, least);
        LexAntisym(w, least);
      }
    }
  }

  /** `getFamilyLabel` for a group whose members have the surnames
      `lastNames`; the source fails on an empty group. */
  function FamilyLabel(lastNames: seq<string>): string
    requires |lastNames| > 0
  {
    ChooseLabel(SurnameWords(lastNames), lastNames[0])
  }
}
