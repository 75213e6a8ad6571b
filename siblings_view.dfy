/** The sibling-group bookkeeping of the class list and the siblings view
    (src/main.js): pruning the saved groups when a student or a class is
    deleted, testing a family proposal against a saved group, and toggling
    a student in the selection. */
module SiblingsView {

  import opened Wrappers
  import opened DataModel
  import opened Sequences

  /*********************************************************************
   * Filters
   *********************************************************************/

  /** `g.filter(keep)`. */
  function FilterIds(g: seq<Id>, keep: Id -> bool): seq<Id> {
    if g == [] then []
    else (if keep(g[0]) then [g[0]] else []) + FilterIds(g[1..], keep)
  }

  /** The filter keeps exactly the ids it accepts, in their order. */
  lemma {:induction false} FilterIdsSpec(g: seq<Id>, keep: Id -> bool)
    ensures forall x :: x in FilterIds(g, keep) <==> x in g && keep(x)
    ensures SubseqOf(FilterIds(g, keep), g)
    ensures |FilterIds(g, keep)| <= |g|
  {
    if g != [] {
      FilterIdsSpec(g[1..], keep);
      var r := FilterIds(g[1..], keep);
      if !keep(g[0]) && r != [] {
        assert r[0] in r;
      }
      assert g == [g[0]] + g[1..];
      SubseqCons(g[0], g[1..], r, keep(g[0]));
    }
  }

  /** A filter that accepts every id changes nothing. */
  lemma {:induction false} FilterIdsAll(g: seq<Id>, keep: Id -> bool)
    requires forall x :: x in g ==> keep(x)
    ensures FilterIds(g, keep) == g
  {
    if g != [] {
      FilterIdsAll(g[1..], keep);
    }
  }

  /** `.filter((g) => g.length >= 2)`. */
  function KeepGroups(gs: seq<seq<Id>>): seq<seq<Id>> {
    if gs == [] then []
    else (if |gs[0]| >= 2 then [gs[0]] else []) + KeepGroups(gs[1..])
  }

  /** The groups of two or more ids are kept, in order, and only they. */
  lemma {:induction false} KeepGroupsSpec(gs: seq<seq<Id>>)
    ensures forall g :: g in KeepGroups(gs) <==> g in gs && |g| >= 2
    ensures SubseqOf(KeepGroups(gs), gs)
  {
    if gs != [] {
      KeepGroupsSpec(gs[1..]);
      var r := KeepGroups(gs[1..]);
      if |gs[0]| < 2 && r != [] {
        assert r[0] in r;
      }
      assert gs == [gs[0]] + gs[1..];
      SubseqCons(gs[0], gs[1..], r, |gs[0]| >= 2);
    }
  }

  /** Groups that are all large enough are kept as they are. */
  lemma {:induction false} KeepGroupsAll(gs: seq<seq<Id>>)
    requires forall g :: g in gs ==> |g| >= 2
    ensures KeepGroups(gs) == gs
  {
    if gs != [] {
      KeepGroupsAll(gs[1..]);
    }
  }

  /** Every group filtered, then the small ones dropped. */
  function Prune(groups: seq<seq<Id>>, keep: Id -> bool): seq<seq<Id>> {
    KeepGroups(seq(|groups|, k requires 0 <= k < |groups| => FilterIds(groups[k], keep)))
  }

  /** A pruned group has two or more ids, all accepted, and is a saved
      group with the other ids left out; a saved group with two or more
      accepted ids survives. */
  lemma PruneSpec(groups: seq<seq<Id>>, keep: Id -> bool)
    ensures forall g :: g in Prune(groups, keep) ==>
              |g| >= 2 && (forall x :: x in g ==> keep(x)) &&
              exists g0 :: g0 in groups && g == FilterIds(g0, keep) && SubseqOf(g, g0)
    ensures forall g0 :: g0 in groups && |FilterIds(g0, keep)| >= 2 ==>
              FilterIds(g0, keep) in Prune(groups, keep)
  {
    var filtered := seq(|groups|, k requires 0 <= k < |groups| => FilterIds(groups[k], keep));
    KeepGroupsSpec(filtered);
    forall g | g in Prune(groups, keep)
      ensures |g| >= 2 && (forall x :: x in g ==> keep(x))
      ensures exists g0 :: g0 in groups && g == FilterIds(g0, keep) && SubseqOf(g, g0)
    {
      var k :| 0 <= k < |filtered| && filtered[k] == g;
      FilterIdsSpec(groups[k], keep);
    }
    forall g0 | g0 in groups && |FilterIds(g0, keep)| >= 2
      ensures FilterIds(g0, keep) in Prune(groups, keep)
    {
      var k :| 0 <= k < |groups| && groups[k] == g0;
      assert filtered[k] == FilterIds(g0, keep);
    }
  }

  /** Pruning a second time with the same filter changes nothing. */
  lemma PruneIdempotent(groups: seq<seq<Id>>, keep: Id -> bool)
    ensures Prune(Prune(groups, keep), keep) == Prune(groups, keep)
  {
    var once := Prune(groups, keep);
    PruneSpec(groups, keep);
    var again := seq(|once|, k requires 0 <= k < |once| => FilterIds(once[k], keep));
    forall k | 0 <= k < |once| ensures again[k] == once[k] {
      assert once[k] in once;
      FilterIdsAll(once[k], keep);
    }
    assert again == once;
    KeepGroupsAll(once);
  }

  /*********************************************************************
   * Deleting a student or a class
   *********************************************************************/

  /** The saved groups after the student `id` is removed from its class
      (src/main.js:311). */
  function PruneStudent(groups: seq<seq<Id>>, id: Id): seq<seq<Id>> {
    Prune(groups, sid => sid != id)
  }

  /** No group still names the removed student, every group keeps two or
      more ids in their order, and every saved group left with two or
      more ids survives. */
  lemma PruneStudentSpec(groups: seq<seq<Id>>, id: Id)
    ensures forall g :: g in PruneStudent(groups, id) ==>
              id !in g && |g| >= 2 && exists g0 :: g0 in groups && SubseqOf(g, g0)
    ensures forall g0 :: g0 in groups && |FilterIds(g0, sid => sid != id)| >= 2 ==>
              FilterIds(g0, sid => sid != id) in PruneStudent(groups, id)
  {
    PruneSpec(groups, sid => sid != id);
  }

  /** A group member survives the deletion of class `classId` unless the
      first class holding that id is the deleted one; ids of no class are
      kept. */
  predicate OutsideClass(classes: seq<Class>, classId: Id, sid: Id) {
    var found := FindStudent(classes, sid);
    found.None? || found.value.0.id != classId
  }

  /** The saved groups after the class `classId` is deleted, looked up in
      the classes as they were before (src/main.js:195-198). */
  function PruneClass(classes: seq<Class>, groups: seq<seq<Id>>, classId: Id): seq<seq<Id>> {
    Prune(groups, sid => OutsideClass(classes, classId, sid))
  }

  /** `s.classes.filter((c) => c.id !== id)`. */
  function RemainingClasses(classes: seq<Class>, classId: Id): (r: seq<Class>)
    ensures forall c :: c in r <==> c in classes && c.id != classId
  {
    if classes == [] then []
    else (if classes[0].id != classId then [classes[0]] else []) + RemainingClasses(classes[1..], classId)
  }

  /** After a class is deleted, every id left in a group either named no
      student before or still names a student of a remaining class. */
  lemma PruneClassSpec(classes: seq<Class>, groups: seq<seq<Id>>, classId: Id)
    ensures forall g :: g in PruneClass(classes, groups, classId) ==>
              |g| >= 2 && exists g0 :: g0 in groups && SubseqOf(g, g0)
    ensures forall g, sid :: g in PruneClass(classes, groups, classId) && sid in g ==>
              OutsideClass(classes, classId, sid)
    ensures forall g, sid :: g in PruneClass(classes, groups, classId) && sid in g ==>
              FindStudent(classes, sid).None? || FindStudent(RemainingClasses(classes, classId), sid).Some?
  {
    var keep := sid => OutsideClass(classes, classId, sid);
    PruneSpec(groups, keep);
    forall g, sid | g in PruneClass(classes, groups, classId) && sid in g && FindStudent(classes, sid).Some?
      ensures FindStudent(RemainingClasses(classes, classId), sid).Some?
    {
      assert keep(sid);
      var c := FindStudent(classes, sid).value.0;
      assert c in RemainingClasses(classes, classId);
      var rest := RemainingClasses(classes, classId);
      var i :| 0 <= i < |rest| && rest[i] == c;
      assert HasStudent(rest[i], sid);
    }
  }

  /*********************************************************************
   * Proposals and the selection
   *********************************************************************/

  /** `proposalIdsMatchGroup`: the same length, and every proposal id in
      the group. */
  function ProposalIdsMatchGroup(proposalIds: seq<Id>, group: seq<Id>): bool {
    |proposalIds| == |group| && forall i :: 0 <= i < |proposalIds| ==> proposalIds[i] in group
  }

  predicate Distinct(s: seq<Id>) {
    forall i, j :: 0 <= i < j < |s| ==> s[i] != s[j]
  }

  /** A sequence without repeats has as many elements as its set. */
  lemma {:induction false} DistinctCard(s: seq<Id>)
    requires Distinct(s)
    ensures |set x | x in s| == |s|
  {
    if s != [] {
      var t := s[1..];
      DistinctCard(t);
      assert (set x | x in s) == {s[0]} + (set x | x in t);
      assert s[0] !in t;
    }
  }

  /** For ids without repeats, a proposal matches a group exactly when
      both hold the same ids. */
  lemma MatchIsSameIds(proposalIds: seq<Id>, group: seq<Id>)
    requires Distinct(proposalIds) && Distinct(group)
    ensures ProposalIdsMatchGroup(proposalIds, group) <==>
            (set x | x in proposalIds) == (set x | x in group)
  {
    var p, g := set x | x in proposalIds, set x | x in group;
    DistinctCard(proposalIds);
    DistinctCard(group);
    if ProposalIdsMatchGroup(proposalIds, group) {
      assert p <= g;
      assert |g - p| == |g| - |p| == 0;
      assert g - p == {};
    }
    if p == g {
      forall i | 0 <= i < |proposalIds| ensures proposalIds[i] in group {
        assert proposalIds[i] in p;
      }
    }
  }

  /** The selection after clicking the student `id` (src/main.js:476-479):
      a selected student is removed, another one appended. */
  function ToggleSelection(prev: seq<Id>, id: Id): seq<Id> {
    if id in prev then FilterIds(prev, x => x != id) else prev + [id]
  }

  /** Clicking flips whether `id` is selected and leaves every other
      student as it was; the selection stays free of repeats. */
  lemma ToggleSelectionSpec(prev: seq<Id>, id: Id)
    ensures id in ToggleSelection(prev, id) <==> id !in prev
    ensures forall x :: x != id ==> (x in ToggleSelection(prev, id) <==> x in prev)
    ensures Distinct(prev) ==> Distinct(ToggleSelection(prev, id))
  {
    FilterIdsSpec(prev, x => x != id);
    if Distinct(prev) && id in prev {
      DistinctFilter(prev, x => x != id);
    }
  }

  /** Filtering keeps a sequence free of repeats. */
  lemma {:induction false} DistinctFilter(s: seq<Id>, keep: Id -> bool)
    requires Distinct(s)
    ensures Distinct(FilterIds(s, keep))
  {
    if s != [] {
      DistinctFilter(s[1..], keep);
      FilterIdsSpec(s[1..], keep);
    }
  }

  /** Clicking a student twice restores a selection that did not hold
      them. */
  lemma ToggleTwice(prev: seq<Id>, id: Id)
    requires id !in prev
    ensures ToggleSelection(ToggleSelection(prev, id), id) == prev
  {
    var once := prev + [id];
    assert id in once;
    FilterAppend(prev, id);
  }

  /** Clicking a selected student twice keeps the same students selected,
      with `id` moved to the end. */
  lemma ToggleTwiceSelected(prev: seq<Id>, id: Id)
    requires id in prev
    ensures var twice := ToggleSelection(ToggleSelection(prev, id), id);
      && (forall x :: x in twice <==> x in prev)
      && twice[..|twice| - 1] == FilterIds(prev, x => x != id)
      && twice[|twice| - 1] == id
  {
    var once := ToggleSelection(prev, id);
    FilterIdsSpec(prev, x => x != id);
    assert id !in once;
    var twice := once + [id];
    assert twice[..|twice| - 1] == once;
  }

  /** Filtering out an id appended to a sequence without it gives the
      sequence back. */
  lemma {:induction false} FilterAppend(s: seq<Id>, id: Id)
    requires id !in s
    ensures FilterIds(s + [id], x => x != id) == s
  {
    if s != [] {
      FilterAppend(s[1..], id);
      assert (s + [id])[1..] == s[1..] + [id];
    } else {
      assert FilterIds([id], x => x != id) == [] + FilterIds([], x => x != id);
    }
  }
}
