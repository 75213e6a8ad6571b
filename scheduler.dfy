/** The wave assignment engine (src/scheduler.js): a greedy pass over the
    students, in class order and then student order, that gives each
    student a wave its already-placed siblings do not hold, preferring the
    wave least filled in the student's class. */
module Scheduler {

  import opened Wrappers
  import opened DataModel

  /*********************************************************************
   * The sibling graph
   *********************************************************************/

  /** `a` and `b` both occur in one committed group. */
  predicate CoMember(groups: seq<seq<Id>>, a: Id, b: Id) {
    exists g :: g in groups && a in g && b in g
  }

  /** `a` occurs in some committed group. */
  predicate Occurs(groups: seq<seq<Id>>, a: Id) {
    exists g :: g in groups && a in g
  }

  function GroupIds(groups: seq<seq<Id>>): (ids: set<Id>)
    ensures forall a :: a in ids <==> Occurs(groups, a)
  {
    set g, x | g in groups && x in g :: x
  }

  /** `nb` is the neighbour relation of `groups`: its keys are the ids that
      occur in a group, and `b` is a neighbour of `a` exactly when they are
      different and share a group. */
  ghost predicate IsGraphOf(groups: seq<seq<Id>>, nb: map<Id, set<Id>>) {
    && (forall a :: a in nb <==> Occurs(groups, a))
    && (forall a, b :: a in nb ==> (b in nb[a] <==> a != b && CoMember(groups, a, b)))
  }

  /** The relation `buildSiblingGraph` computes, stated directly. */
  function SiblingGraph(groups: seq<seq<Id>>): (nb: map<Id, set<Id>>)
    ensures IsGraphOf(groups, nb)
  {
    var ids := GroupIds(groups);
    map a | a in ids :: set b | b in ids && b != a && CoMember(groups, a, b)
  }

  /** The relation is determined by the groups. */
  lemma GraphUnique(groups: seq<seq<Id>>, nb: map<Id, set<Id>>)
    requires IsGraphOf(groups, nb)
    ensures nb == SiblingGraph(groups)
  {
    var sg := SiblingGraph(groups);
    assert nb.Keys == sg.Keys;
    forall a | a in nb ensures nb[a] == sg[a] {
      assert forall b :: b in nb[a] <==> b in sg[a];
    }
  }

  /** The sibling relation is symmetric and no student is its own sibling. */
  lemma GraphSymmetricIrreflexive(groups: seq<seq<Id>>, a: Id, b: Id)
    requires a in SiblingGraph(groups)
    ensures a !in SiblingGraph(groups)[a]
    ensures b in SiblingGraph(groups)[a] ==> b in SiblingGraph(groups) && a in SiblingGraph(groups)[b]
  {
  }

  lemma CoMemberSnoc(groups: seq<seq<Id>>, g: seq<Id>, a: Id, b: Id)
    ensures CoMember(groups + [g], a, b) <==> CoMember(groups, a, b) || (a in g && b in g)
    ensures Occurs(groups + [g], a) <==> Occurs(groups, a) || a in g
  {
    if CoMember(groups + [g], a, b) {
      var h :| h in groups + [g] && a in h && b in h;
      if h != g {
        assert h in groups;
      }
    }
    if Occurs(groups + [g], a) {
      var h :| h in groups + [g] && a in h;
      if h != g {
        assert h in groups;
      }
    }
    if CoMember(groups, a, b) {
      var h :| h in groups && a in h && b in h;
      assert h in groups + [g];
    }
    if Occurs(groups, a) {
      var h :| h in groups && a in h;
      assert h in groups + [g];
    }
    if a in g && b in g {
      assert g in groups + [g];
    }
  }

  /** The inner loop of `buildSiblingGraph` for member `id` of group `g`:
      make sure `id` has an entry, then add every other member to it. */
  method LinkMember(nb: map<Id, set<Id>>, g: seq<Id>, id: Id) returns (nb': map<Id, set<Id>>)
    ensures nb'.Keys == nb.Keys + {id}
    ensures forall a :: a in nb && a != id ==> nb'[a] == nb[a]
    ensures forall b :: b in nb'[id] <==> (id in nb && b in nb[id]) || (b in g && b != id)
  {
    nb' := nb;
    if id !in nb' {
      nb' := nb'[id := {}];
    }
    for q := 0 to |g|
      invariant nb'.Keys == nb.Keys + {id}
      invariant forall a :: a in nb && a != id ==> nb'[a] == nb[a]
      invariant forall b :: b in nb'[id] <==> (id in nb && b in nb[id]) || (b in g[..q] && b != id)
    {
      var other := g[q];
      assert g[..q + 1] == g[..q] + [other];
      if other != id {
        nb' := nb'[id := nb'[id] + {other}];
      }
    }
    assert g[..|g|] == g;
  }

  /** `b` is a sibling of `a` once the first `p` members of `g` are linked on top of `done`. */
  predicate LinkedAfter(done: seq<seq<Id>>, g: seq<Id>, p: nat, a: Id, b: Id)
    requires p <= |g|
  {
    a != b && (CoMember(done, a, b) || (a in g[..p] && b in g))
  }
  /** The graph after linking the first `p` members of group `g` on top of
      the groups `done`. */
  ghost predicate PartialGraph(done: seq<seq<Id>>, g: seq<Id>, p: nat, nb: map<Id, set<Id>>)
    requires p <= |g|
  {
    && (forall a :: a in nb <==> Occurs(done, a) || a in g[..p])
    && (forall a, b :: a in nb ==> (b in nb[a] <==> LinkedAfter(done, g, p, a, b)))
  }
  /** Linking member `p` of `g` extends the partial graph by that member. */
  lemma LinkStep(done: seq<seq<Id>>, g: seq<Id>, p: nat, before: map<Id, set<Id>>, after: map<Id, set<Id>>)
    requires p < |g| && PartialGraph(done, g, p, before)
    requires after.Keys == before.Keys + {g[p]}
    requires forall a :: a in before && a != g[p] ==> after[a] == before[a]
    requires forall b :: b in after[g[p]] <==> (g[p] in before && b in before[g[p]]) || (b in g && b != g[p])
    ensures PartialGraph(done, g, p + 1, after)
  {
    var id := g[p];
    assert g[..p + 1] == g[..p] + [id];
    forall a, b | a in after
      ensures b in after[a] <==> LinkedAfter(done, g, p + 1, a, b)
    {
      if a == id {
        assert id in g[..p + 1];
        if id in before {
          assert b in before[id] <==> LinkedAfter(done, g, p, id, b);
        } else {
          assert !CoMember(done, id, b);
        }
      } else {
        assert a in g[..p + 1] <==> a in g[..p];
        assert b in before[a] <==> LinkedAfter(done, g, p, a, b);
      }
    }
  }

  /** One group of `buildSiblingGraph`: link each of its members in turn. */
  method AddGroup(nb: map<Id, set<Id>>, done: seq<seq<Id>>, g: seq<Id>) returns (nb': map<Id, set<Id>>)
    requires IsGraphOf(done, nb)
    ensures IsGraphOf(done + [g], nb')
  {
    nb' := nb;
    assert g[..0] == [];
    for p := 0 to |g|
      invariant PartialGraph(done, g, p, nb')
    {
      var before := nb';
      nb' := LinkMember(nb', g, g[p]);
      LinkStep(done, g, p, before, nb');
    }
    assert g[..|g|] == g;
    forall a, b ensures CoMember(done + [g], a, b) <==> CoMember(done, a, b) || (a in g && b in g)
                ensures Occurs(done + [g], a) <==> Occurs(done, a) || a in g
    {
      CoMemberSnoc(done, g, a, b);
    }
  }

  /** `buildSiblingGraph`. */
  method BuildSiblingGraph(groups: seq<seq<Id>>) returns (nb: map<Id, set<Id>>)
    ensures nb == SiblingGraph(groups)
  {
    nb := map[];
    for gi := 0 to |groups|
      invariant IsGraphOf(groups[..gi], nb)
    {
      assert groups[..gi + 1] == groups[..gi] + [groups[gi]];
      nb := AddGroup(nb, groups[..gi], groups[gi]);
    }
    assert groups[..|groups|] == groups;
    GraphUnique(groups, nb);
  }

  /*********************************************************************
   * The greedy pass, as a specification
   *********************************************************************/

  /** One student of the flattened list: its id and its class's id. */
  datatype Entry = Entry(id: Id, classId: Id)

  function Entries(c: Class): (es: seq<Entry>)
    ensures |es| == |c.students|
    ensures forall k :: 0 <= k < |es| ==> es[k] == Entry(c.students[k].id, c.id)
  {
    seq(|c.students|, k requires 0 <= k < |c.students| => Entry(c.students[k].id, c.id))
  }

  /** `allStudents`: classes in order, each class's students in order. */
  function Roster(classes: seq<Class>): seq<Entry> {
    if |classes| == 0 then []
    else Roster(classes[..|classes| - 1]) + Entries(classes[|classes| - 1])
  }

  /** An entry is in the roster exactly when it is a student of one of the classes. */
  lemma {:induction false} RosterMembers(classes: seq<Class>, e: Entry)
    ensures e in Roster(classes) <==>
            exists i, k :: 0 <= i < |classes| && 0 <= k < |classes[i].students|
                           && e == Entry(classes[i].students[k].id, classes[i].id)
  {
    if |classes| > 0 {
      var init := classes[..|classes| - 1];
      var last := classes[|classes| - 1];
      RosterMembers(init, e);
      if e in Entries(last) {
        var k :| 0 <= k < |last.students| && Entries(last)[k] == e;
        assert e == Entry(classes[|classes| - 1].students[k].id, classes[|classes| - 1].id);
      }
      if exists i, k :: 0 <= i < |classes| && 0 <= k < |classes[i].students|
                        && e == Entry(classes[i].students[k].id, classes[i].id) {
        var i, k :| 0 <= i < |classes| && 0 <= k < |classes[i].students|
                    && e == Entry(classes[i].students[k].id, classes[i].id);
        if i < |classes| - 1 {
          assert classes[i] == init[i];
        } else {
          assert Entries(last)[k] == e;
        }
      }
    }
  }

  /** The `(classId, wave)` occupancy counters; a missing key counts 0. */
  type Counts = map<(Id, Wave), nat>

  function Count(counts: Counts, cid: Id, w: Wave): nat {
    if (cid, w) in counts then counts[(cid, w)] else 0
  }

  /** The waves held by the neighbours of `id` that are already assigned. */
  function UsedBySiblings(nb: map<Id, set<Id>>, id: Id, assignment: map<Id, Wave>): set<Wave> {
    if id in nb then set sid | sid in nb[id] && sid in assignment :: assignment[sid] else {}
  }

  /** The waves of `ws` not in `used`, in the order of `ws`. */
  function Free(ws: seq<Wave>, used: set<Wave>): (r: seq<Wave>)
    ensures forall w :: w in r <==> w in ws && w !in used
  {
    if ws == [] then []
    else (if ws[0] in used then [] else [ws[0]]) + Free(ws[1..], used)
  }

  lemma EveryWaveListed()
    ensures forall w: Wave :: w in Waves
  {
    forall w: Wave ensures w in Waves {
      assert Waves[WaveIndex(w)] == w;
    }
  }

  /** `WAVES.filter((w) => !used.has(w))`: the free waves. */
  function Allowed(used: set<Wave>): (r: seq<Wave>)
    ensures forall w :: w in r <==> w !in used
  {
    EveryWaveListed();
    Free(Waves, used)
  }

  /** Filtering out every wave of `ws` leaves nothing. */
  lemma {:induction false} FreeAllUsed(ws: seq<Wave>, used: set<Wave>)
    requires forall i :: 0 <= i < |ws| ==> ws[i] in used
    ensures Free(ws, used) == []
  {
    if ws != [] {
      FreeAllUsed(ws[1..], used);
    }
  }

  /** Filtering with nothing used keeps every wave. */
  lemma {:induction false} FreeNone(ws: seq<Wave>)
    ensures Free(ws, {}) == ws
  {
    if ws != [] {
      FreeNone(ws[1..]);
    }
  }

  /** Filtering keeps a strictly increasing order of wave indices. */
  lemma {:induction false} FreeOrdered(ws: seq<Wave>, used: set<Wave>)
    requires forall i, j :: 0 <= i < j < |ws| ==> WaveIndex(ws[i]) < WaveIndex(ws[j])
    ensures forall i, j :: 0 <= i < j < |Free(ws, used)| ==> WaveIndex(Free(ws, used)[i]) < WaveIndex(Free(ws, used)[j])
  {
    if ws != [] {
      FreeOrdered(ws[1..], used);
      var rest := Free(ws[1..], used);
      forall j | 0 <= j < |rest| ensures WaveIndex(ws[0]) < WaveIndex(rest[j]) {
        assert rest[j] in rest;
        var k :| 0 <= k < |ws[1..]| && ws[1..][k] == rest[j];
        assert ws[k + 1] == rest[j];
      }
    }
  }

  /** The free waves keep the order A, B, C, D. */
  lemma AllowedOrdered(used: set<Wave>)
    ensures forall i, j :: 0 <= i < j < |Allowed(used)| ==> WaveIndex(Allowed(used)[i]) < WaveIndex(Allowed(used)[j])
  {
    FreeOrdered(Waves, used);
  }

  /** The `best`/`bestCount` scan over the first `n` waves of `allowed`,
      for class `cid`: a later wave replaces the current best only when its
      counter is strictly smaller. */
  function LeastFilledOf(allowed: seq<Wave>, n: nat, cid: Id, counts: Counts): Wave
    requires 1 <= n <= |allowed|
  {
    if n == 1 then allowed[0]
    else
      var best := LeastFilledOf(allowed, n - 1, cid, counts);
      if Count(counts, cid, allowed[n - 1]) < Count(counts, cid, best) then allowed[n - 1] else best
  }

  function LeastFilled(allowed: seq<Wave>, cid: Id, counts: Counts): Wave
    requires |allowed| > 0
  {
    LeastFilledOf(allowed, |allowed|, cid, counts)
  }

  /** The scan finds a smallest counter. */
  lemma {:induction false} LeastFilledMinimal(allowed: seq<Wave>, n: nat, cid: Id, counts: Counts)
    requires 1 <= n <= |allowed|
    ensures forall k :: 0 <= k < n ==> Count(counts, cid, LeastFilledOf(allowed, n, cid, counts)) <= Count(counts, cid, allowed[k])
  {
    if n > 1 {
      LeastFilledMinimal(allowed, n - 1, cid, counts);
    }
  }

  /** The scan keeps the first of equally filled waves: it returns the wave
      at some index `j`, and every wave before `j` has a strictly larger
      counter. */
  lemma {:induction false} LeastFilledFirst(allowed: seq<Wave>, n: nat, cid: Id, counts: Counts)
    requires 1 <= n <= |allowed|
    ensures exists j :: 0 <= j < n && allowed[j] == LeastFilledOf(allowed, n, cid, counts)
                        && forall i :: 0 <= i < j ==> Count(counts, cid, allowed[i]) > Count(counts, cid, allowed[j])
  {
    if n > 1 {
      var best := LeastFilledOf(allowed, n - 1, cid, counts);
      if Count(counts, cid, allowed[n - 1]) < Count(counts, cid, best) {
        LeastFilledMinimal(allowed, n - 1, cid, counts);
        assert allowed[n - 1] == LeastFilledOf(allowed, n, cid, counts);
        assert forall i :: 0 <= i < n - 1 ==> Count(counts, cid, allowed[i]) > Count(counts, cid, allowed[n - 1]);
      } else {
        LeastFilledFirst(allowed, n - 1, cid, counts);
        var j :| 0 <= j < n - 1 && allowed[j] == best
                 && forall i :: 0 <= i < j ==> Count(counts, cid, allowed[i]) > Count(counts, cid, allowed[j]);
        assert best == LeastFilledOf(allowed, n, cid, counts);
      }
    } else {
      assert allowed[0] == LeastFilledOf(allowed, 1, cid, counts);
    }
  }

  /** The scan returns one of the waves it scans. */
  lemma LeastFilledIn(allowed: seq<Wave>, cid: Id, counts: Counts)
    requires |allowed| > 0
    ensures LeastFilled(allowed, cid, counts) in allowed
  {
    LeastFilledFirst(allowed, |allowed|, cid, counts);
  }

  /** The state of the pass: the assignment so far and the counters. */
  datatype Progress = Progress(assignment: map<Id, Wave>, counts: Counts)

  /** The waves used by siblings are exactly those of the already-assigned neighbours. */
  lemma UsedBySiblingsMeaning(nb: map<Id, set<Id>>, id: Id, assignment: map<Id, Wave>, w: Wave)
    ensures w in UsedBySiblings(nb, id, assignment) <==>
            id in nb && exists sid :: sid in nb[id] && sid in assignment && assignment[sid] == w
  {
  }

  /** The wave the scan picks for `e`, or `None` when its already-placed
      siblings hold all four. */
  function Choice(pr: Progress, e: Entry, nb: map<Id, set<Id>>): Option<Wave> {
    var allowed := Allowed(UsedBySiblings(nb, e.id, pr.assignment));
    if |allowed| == 0 then None else Some(LeastFilled(allowed, e.classId, pr.counts))
  }

  /** One iteration of the main loop, for student `e`: the fallback A
      leaves the counters alone, a chosen wave raises its counter. */
  function Step(pr: Progress, e: Entry, nb: map<Id, set<Id>>): Progress {
    match Choice(pr, e, nb)
    case None => Progress(pr.assignment[e.id := A], pr.counts)
    case Some(best) =>
      Progress(pr.assignment[e.id := best],
               pr.counts[(e.classId, best) := Count(pr.counts, e.classId, best) + 1])
  }

  /** The pass after its first `k` students. */
  function Run(roster: seq<Entry>, nb: map<Id, set<Id>>, k: nat): Progress
    requires k <= |roster|
  {
    if k == 0 then Progress(map[], map[]) else Step(Run(roster, nb, k - 1), roster[k - 1], nb)
  }

  /** What `assignWavesToStudents` returns. */
  function Schedule(classes: seq<Class>, groups: seq<seq<Id>>): map<Id, Wave> {
    var roster := Roster(classes);
    Run(roster, SiblingGraph(groups), |roster|).assignment
  }

  /*********************************************************************
   * The program
   *********************************************************************/

  /** The two loops that build `allStudents`. */
  method Flatten(classes: seq<Class>) returns (all: seq<Entry>)
    ensures all == Roster(classes)
  {
    all := [];
    for ci := 0 to |classes|
      invariant all == Roster(classes[..ci])
    {
      var c := classes[ci];
      for k := 0 to |c.students|
        invariant all == Roster(classes[..ci]) + Entries(c)[..k]
      {
        all := all + [Entry(c.students[k].id, c.id)];
        assert Entries(c)[..k + 1] == Entries(c)[..k] + [Entry(c.students[k].id, c.id)];
      }
      assert classes[..ci + 1][..ci] == classes[..ci];
      assert Entries(c)[..|c.students|] == Entries(c);
    }
    assert classes[..|classes|] == classes;
  }

  /** The loop collecting `used`: the waves of the already-assigned siblings. */
  method SiblingWaves(nb: map<Id, set<Id>>, id: Id, assignment: map<Id, Wave>) returns (used: set<Wave>)
    ensures used == UsedBySiblings(nb, id, assignment)
  {
    used := {};
    var nbs: set<Id> := if id in nb then nb[id] else {};
    var rest := nbs;
    while rest != {}
      invariant rest <= nbs
      invariant used == set sid | sid in nbs - rest && sid in assignment :: assignment[sid]
      decreases rest
    {
      var sid :| sid in rest;
      if sid in assignment {
        used := used + {assignment[sid]};
      }
      rest := rest - {sid};
    }
    assert nbs - rest == nbs;
  }

  /** The `best`/`bestCount` loop. */
  method PickLeastFilled(allowed: seq<Wave>, cid: Id, counts: Counts) returns (best: Wave)
    requires |allowed| > 0
    ensures best == LeastFilled(allowed, cid, counts)
  {
    best := allowed[0];
    var bestCount := Count(counts, cid, best);
    for j := 1 to |allowed|
      invariant best == LeastFilledOf(allowed, j, cid, counts)
      invariant bestCount == Count(counts, cid, best)
    {
      var w := allowed[j];
      var count := Count(counts, cid, w);
      if count < bestCount {
        best := w;
        bestCount := count;
      }
    }
  }

  /** The body of the main loop for student `s`. */
  method PlaceStudent(assignment: map<Id, Wave>, counts: Counts, s: Entry, siblings: map<Id, set<Id>>)
    returns (assignment': map<Id, Wave>, counts': Counts)
    ensures Progress(assignment', counts') == Step(Progress(assignment, counts), s, siblings)
  {
    var used := SiblingWaves(siblings, s.id, assignment);
    var allowed := Allowed(used);
    if |allowed| == 0 {
      assignment', counts' := assignment[s.id := A], counts;
    } else {
      var best := PickLeastFilled(allowed, s.classId, counts);
      var bestCount := Count(counts, s.classId, best);
      assignment' := assignment[s.id := best];
      counts' := counts[(s.classId, best) := bestCount + 1];
    }
  }

  /** `assignWavesToStudents`. */
  method AssignWavesToStudents(classes: seq<Class>, groups: seq<seq<Id>>) returns (assignment: map<Id, Wave>)
    ensures assignment == Schedule(classes, groups)
  {
    assignment := map[];
    var siblings := BuildSiblingGraph(groups);
    var counts: Counts := map[];
    var all := Flatten(classes);

    for k := 0 to |all|
      invariant Progress(assignment, counts) == Run(all, siblings, k)
    {
      assignment, counts := PlaceStudent(assignment, counts, all[k], siblings);
    }

    RunAssignsEveryone(all, siblings, |all|);
    for k := 0 to |all|
      invariant assignment == Run(all, siblings, |all|).assignment
    {
      var s := all[k];
      if s.id !in assignment {
        assignment := assignment[s.id := A];
      }
    }
  }

  /*********************************************************************
   * Properties of the pass
   *********************************************************************/

  /** A step sets the wave of its own student and of no other. */
  lemma StepTouchesOne(pr: Progress, e: Entry, nb: map<Id, set<Id>>)
    ensures e.id in Step(pr, e, nb).assignment
    ensures Step(pr, e, nb).assignment == pr.assignment[e.id := Step(pr, e, nb).assignment[e.id]]
  {
  }

  /** After `k` students exactly their ids are assigned. */
  lemma {:induction false} RunAssignsEveryone(roster: seq<Entry>, nb: map<Id, set<Id>>, k: nat)
    requires k <= |roster|
    ensures forall id :: id in Run(roster, nb, k).assignment <==> exists i :: 0 <= i < k && roster[i].id == id
  {
    if k > 0 {
      RunAssignsEveryone(roster, nb, k - 1);
      StepTouchesOne(Run(roster, nb, k - 1), roster[k - 1], nb);
    }
  }

  /** Totality: every student of every class receives a wave, and only
      students of the classes do. Being a map, the result gives each id
      exactly one wave, and a wave is one of A, B, C, D by its type. */
  lemma ScheduleTotal(classes: seq<Class>, groups: seq<seq<Id>>)
    ensures forall i, k :: 0 <= i < |classes| && 0 <= k < |classes[i].students| ==>
              classes[i].students[k].id in Schedule(classes, groups)
    ensures forall id :: id in Schedule(classes, groups) ==>
              exists i, k :: 0 <= i < |classes| && 0 <= k < |classes[i].students| && classes[i].students[k].id == id
  {
    var roster := Roster(classes);
    var nb := SiblingGraph(groups);
    RunAssignsEveryone(roster, nb, |roster|);
    forall i, k | 0 <= i < |classes| && 0 <= k < |classes[i].students|
      ensures classes[i].students[k].id in Schedule(classes, groups)
    {
      var e := Entry(classes[i].students[k].id, classes[i].id);
      RosterMembers(classes, e);
      var j :| 0 <= j < |roster| && roster[j] == e;
    }
    forall id | id in Schedule(classes, groups)
      ensures exists i, k :: 0 <= i < |classes| && 0 <= k < |classes[i].students| && classes[i].students[k].id == id
    {
      var j :| 0 <= j < |roster| && roster[j].id == id;
      RosterMembers(classes, roster[j]);
    }
  }

  /** The wave chosen for a student whose already-placed siblings leave
      some wave free is held by none of those siblings. */
  lemma ChoiceAvoidsSiblings(pr: Progress, e: Entry, nb: map<Id, set<Id>>, sid: Id, free: Wave)
    requires free !in UsedBySiblings(nb, e.id, pr.assignment)
    requires e.id in nb && sid in nb[e.id] && sid in pr.assignment
    ensures Step(pr, e, nb).assignment[e.id] != pr.assignment[sid]
  {
    var used := UsedBySiblings(nb, e.id, pr.assignment);
    var allowed := Allowed(used);
    assert free in allowed;
    LeastFilledIn(allowed, e.classId, pr.counts);
    assert pr.assignment[sid] in used;
  }

  /** When already-placed siblings hold all four waves the student gets A
      and no counter moves. */
  lemma FallbackToA(pr: Progress, e: Entry, nb: map<Id, set<Id>>)
    requires forall w: Wave :: w in UsedBySiblings(nb, e.id, pr.assignment)
    ensures Step(pr, e, nb).assignment[e.id] == A
    ensures Step(pr, e, nb).counts == pr.counts
  {
    FreeAllUsed(Waves, UsedBySiblings(nb, e.id, pr.assignment));
  }

  /** Balancing: among the free waves the one chosen has the smallest
      counter for the student's class, and every free wave before it in
      A, B, C, D order has a strictly larger counter (ties go to the
      earlier wave). */
  lemma ChoiceIsLeastFilled(pr: Progress, e: Entry, nb: map<Id, set<Id>>, free: Wave)
    requires free !in UsedBySiblings(nb, e.id, pr.assignment)
    ensures var chosen := Step(pr, e, nb).assignment[e.id];
            var used := UsedBySiblings(nb, e.id, pr.assignment);
            && chosen !in used
            && (forall w :: w !in used ==> Count(pr.counts, e.classId, chosen) <= Count(pr.counts, e.classId, w))
            && (forall w :: w !in used && WaveIndex(w) < WaveIndex(chosen) ==>
                  Count(pr.counts, e.classId, chosen) < Count(pr.counts, e.classId, w))
  {
    var used := UsedBySiblings(nb, e.id, pr.assignment);
    assert free in Allowed(used);
    LeastFilledAmongFree(used, e.classId, pr.counts);
  }

  /** The scan over the free waves returns a free wave of smallest counter,
      the earliest such in A, B, C, D order. */
  lemma LeastFilledAmongFree(used: set<Wave>, cid: Id, counts: Counts)
    requires Allowed(used) != []
    ensures var chosen := LeastFilled(Allowed(used), cid, counts);
            && chosen !in used
            && (forall w :: w !in used ==> Count(counts, cid, chosen) <= Count(counts, cid, w))
            && (forall w :: w !in used && WaveIndex(w) < WaveIndex(chosen) ==>
                  Count(counts, cid, chosen) < Count(counts, cid, w))
  {
    AllowedOrdered(used);
    LeastFilledEarliest(Allowed(used), cid, counts);
  }

  /** On a list in A, B, C, D order the scan returns a listed wave of
      smallest counter, and no earlier listed wave has that counter. */
  lemma LeastFilledEarliest(allowed: seq<Wave>, cid: Id, counts: Counts)
    requires |allowed| > 0
    requires forall i, j :: 0 <= i < j < |allowed| ==> WaveIndex(allowed[i]) < WaveIndex(allowed[j])
    ensures var chosen := LeastFilled(allowed, cid, counts);
            && chosen in allowed
            && (forall w :: w in allowed ==> Count(counts, cid, chosen) <= Count(counts, cid, w))
            && (forall w :: w in allowed && WaveIndex(w) < WaveIndex(chosen) ==>
                  Count(counts, cid, chosen) < Count(counts, cid, w))
  {
    var chosen := LeastFilled(allowed, cid, counts);
    LeastFilledMinimal(allowed, |allowed|, cid, counts);
    LeastFilledFirst(allowed, |allowed|, cid, counts);
    var j :| 0 <= j < |allowed| && allowed[j] == chosen
             && forall i :: 0 <= i < j ==> Count(counts, cid, allowed[i]) > Count(counts, cid, allowed[j]);
    forall w | w in allowed ensures Count(counts, cid, chosen) <= Count(counts, cid, w) {
      var i :| 0 <= i < |allowed| && allowed[i] == w;
    }
    forall w | w in allowed && WaveIndex(w) < WaveIndex(chosen)
      ensures Count(counts, cid, chosen) < Count(counts, cid, w)
    {
      var i :| 0 <= i < |allowed| && allowed[i] == w;
      assert i < j;
    }
  }

  /** A placement that is not the fallback raises exactly the counter of
      the student's class and chosen wave, by one. */
  lemma ChoiceCounted(pr: Progress, e: Entry, nb: map<Id, set<Id>>, free: Wave)
    requires free !in UsedBySiblings(nb, e.id, pr.assignment)
    ensures var next := Step(pr, e, nb);
            var chosen := next.assignment[e.id];
            && Count(next.counts, e.classId, chosen) == Count(pr.counts, e.classId, chosen) + 1
            && forall cid, w :: (cid, w) != (e.classId, chosen) ==> Count(next.counts, cid, w) == Count(pr.counts, cid, w)
  {
    assert free in Allowed(UsedBySiblings(nb, e.id, pr.assignment));
  }

  /*********************************************************************
   * Round robin without siblings
   *********************************************************************/

  /** Number of the first `k` students that belong to class `cid`. */
  function ClassCount(roster: seq<Entry>, k: nat, cid: Id): nat
    requires k <= |roster|
  {
    if k == 0 then 0 else ClassCount(roster, k - 1, cid) + (if roster[k - 1].classId == cid then 1 else 0)
  }

  /** Counter of the wave at index `i` once `n` students of a class have
      been dealt round robin. */
  function RoundRobin(n: nat, i: nat): nat {
    if n == 0 then 0 else RoundRobin(n - 1, i) + (if (n - 1) % 4 == i then 1 else 0)
  }

  /** Closed form of the deal: every wave gets `n div 4`, and the first
      `n mod 4` waves one more. */
  lemma {:induction false} RoundRobinClosed(n: nat, i: nat)
    requires i < 4
    ensures RoundRobin(n, i) == n / 4 + (if i < n % 4 then 1 else 0)
  {
    if n > 0 {
      RoundRobinClosed(n - 1, i);
      var m := n - 1;
      var q, r := m / 4, m % 4;
      assert m == 4 * q + r;
      if r == 3 {
        assert n == 4 * (q + 1);
        assert n / 4 == q + 1 && n % 4 == 0;
      } else {
        assert n == 4 * q + (r + 1);
        assert n / 4 == q && n % 4 == r + 1;
      }
    }
  }

  /** None of the roster's students has a sibling. */
  predicate NoSiblings(roster: seq<Entry>, nb: map<Id, set<Id>>) {
    forall k :: 0 <= k < |roster| && roster[k].id in nb ==> nb[roster[k].id] == {}
  }

  /** On round-robin counters the scan over all four waves picks the wave
      at index `n mod 4`. */
  lemma LeastFilledRoundRobin(counts: Counts, cid: Id, n: nat)
    requires forall w :: Count(counts, cid, w) == RoundRobin(n, WaveIndex(w))
    ensures LeastFilled(Waves, cid, counts) == Waves[n % 4]
  {
    forall i | 0 <= i < 4 ensures Count(counts, cid, Waves[i]) == n / 4 + (if i < n % 4 then 1 else 0) {
      RoundRobinClosed(n, i);
      assert WaveIndex(Waves[i]) == i;
    }
    RoundRobinScan(counts, cid, n / 4, n % 4, 4);
  }

  /** The scan over the first `m` waves when the first `r` of the four
      counters are `q + 1` and the others `q`. */
  lemma {:induction false} RoundRobinScan(counts: Counts, cid: Id, q: nat, r: nat, m: nat)
    requires r < 4 && 1 <= m <= 4
    requires forall i :: 0 <= i < 4 ==> Count(counts, cid, Waves[i]) == q + (if i < r then 1 else 0)
    ensures LeastFilledOf(Waves, m, cid, counts) == if r < m then Waves[r] else A
  {
    if m > 1 {
      RoundRobinScan(counts, cid, q, r, m - 1);
      var next := Count(counts, cid, Waves[m - 1]);
      assert next == q + (if m - 1 < r then 1 else 0);
      if r < m - 1 {
        assert Count(counts, cid, Waves[r]) == q;
      } else {
        assert Count(counts, cid, Waves[0]) == q + (if 0 < r then 1 else 0);
      }
    }
  }

  /** Without siblings nothing is used and every wave is free. */
  lemma NoSiblingsAllFree(roster: seq<Entry>, nb: map<Id, set<Id>>, k: nat, assignment: map<Id, Wave>)
    requires k < |roster| && NoSiblings(roster, nb)
    ensures Allowed(UsedBySiblings(nb, roster[k].id, assignment)) == Waves
  {
    assert UsedBySiblings(nb, roster[k].id, assignment) == {};
    FreeNone(Waves);
  }

  /** When a wave is chosen, exactly its counter for the student's class moves up by one. */
  lemma StepCounts(pr: Progress, e: Entry, nb: map<Id, set<Id>>, best: Wave)
    requires Choice(pr, e, nb) == Some(best)
    ensures forall cid, w :: Count(Step(pr, e, nb).counts, cid, w)
                             == Count(pr.counts, cid, w) + (if cid == e.classId && w == best then 1 else 0)
  {
  }

  /** Dealing the next student of a class to the wave at index "students
      so far mod 4" keeps every class's counters in round-robin form. */
  lemma DealNext(roster: seq<Entry>, k: nat, before: Counts, after: Counts)
    requires 0 < k <= |roster|
    requires forall cid, w :: Count(before, cid, w) == RoundRobin(ClassCount(roster, k - 1, cid), WaveIndex(w))
    requires var e := roster[k - 1];
             forall cid, w :: Count(after, cid, w) == Count(before, cid, w)
                              + (if cid == e.classId && w == Waves[ClassCount(roster, k - 1, e.classId) % 4] then 1 else 0)
    ensures forall cid, w :: Count(after, cid, w) == RoundRobin(ClassCount(roster, k, cid), WaveIndex(w))
  {
    var e := roster[k - 1];
    var n := ClassCount(roster, k - 1, e.classId);
    forall cid, w ensures Count(after, cid, w) == RoundRobin(ClassCount(roster, k, cid), WaveIndex(w)) {
      if cid == e.classId {
        assert w == Waves[n % 4] <==> WaveIndex(w) == n % 4;
      }
    }
  }

  /** On round-robin counters and without siblings, the next student gets
      the wave at index "students of its class so far mod 4". */
  lemma DealChoice(pr: Progress, e: Entry, nb: map<Id, set<Id>>, n: nat)
    requires e.id in nb ==> nb[e.id] == {}
    requires forall w :: Count(pr.counts, e.classId, w) == RoundRobin(n, WaveIndex(w))
    ensures Choice(pr, e, nb) == Some(Waves[n % 4])
  {
    assert UsedBySiblings(nb, e.id, pr.assignment) == {};
    FreeNone(Waves);
    LeastFilledRoundRobin(pr.counts, e.classId, n);
  }

  /** Without siblings, once `k` students have been placed every class's
      counters are those of a round-robin deal over A, B, C, D. */
  lemma {:induction false} RoundRobinCounts(roster: seq<Entry>, nb: map<Id, set<Id>>, k: nat)
    requires k <= |roster| && NoSiblings(roster, nb)
    ensures forall cid, w :: Count(Run(roster, nb, k).counts, cid, w) == RoundRobin(ClassCount(roster, k, cid), WaveIndex(w))
  {
    if k > 0 {
      RoundRobinCounts(roster, nb, k - 1);
      var pr := Run(roster, nb, k - 1);
      var e := roster[k - 1];
      DealChoice(pr, e, nb, ClassCount(roster, k - 1, e.classId));
      StepCounts(pr, e, nb, Waves[ClassCount(roster, k - 1, e.classId) % 4]);
      DealNext(roster, k, pr.counts, Run(roster, nb, k).counts);
    }
  }

  /** Without siblings, a student is dealt the wave whose index is the
      number of earlier students of its class, modulo 4. */
  lemma RoundRobinChoice(roster: seq<Entry>, nb: map<Id, set<Id>>, k: nat)
    requires k < |roster| && NoSiblings(roster, nb)
    ensures Run(roster, nb, k + 1).assignment[roster[k].id] == Waves[ClassCount(roster, k, roster[k].classId) % 4]
  {
    RoundRobinCounts(roster, nb, k);
    var pr := Run(roster, nb, k);
    NoSiblingsAllFree(roster, nb, k, pr.assignment);
    LeastFilledRoundRobin(pr.counts, roster[k].classId, ClassCount(roster, k, roster[k].classId));
  }

  /*********************************************************************
   * The final assignment and siblings
   *********************************************************************/

  predicate DistinctIds(roster: seq<Entry>) {
    forall i, j :: 0 <= i < j < |roster| ==> roster[i].id != roster[j].id
  }

  /** A student's wave is never overwritten by later students with other
      ids: from its own step on, it keeps the wave chosen then. */
  lemma {:induction false} KeptFrom(roster: seq<Entry>, nb: map<Id, set<Id>>, i: nat, m: nat)
    requires i < m <= |roster|
    requires forall j :: i < j < m ==> roster[j].id != roster[i].id
    ensures roster[i].id in Run(roster, nb, m).assignment
    ensures Run(roster, nb, m).assignment[roster[i].id] == Run(roster, nb, i + 1).assignment[roster[i].id]
  {
    var id := roster[i].id;
    var before, after := Run(roster, nb, m - 1), Run(roster, nb, m);
    assert after == Step(before, roster[m - 1], nb);
    if m > i + 1 {
      KeptFrom(roster, nb, i, m - 1);
      StepKeeps(before, roster[m - 1], nb, id);
      assert after.assignment[id] == before.assignment[id];
    } else {
      StepTouchesOne(before, roster[i], nb);
    }
  }

  /** A step leaves the wave of every other assigned student as it was. */
  lemma StepKeeps(pr: Progress, e: Entry, nb: map<Id, set<Id>>, id: Id)
    requires id != e.id && id in pr.assignment
    ensures id in Step(pr, e, nb).assignment
    ensures Step(pr, e, nb).assignment[id] == pr.assignment[id]
  {
    StepTouchesOne(pr, e, nb);
  }

  /** With distinct ids a student's wave is never overwritten. */
  lemma ChoiceKept(roster: seq<Entry>, nb: map<Id, set<Id>>, i: nat, m: nat)
    requires DistinctIds(roster) && i < m <= |roster|
    ensures roster[i].id in Run(roster, nb, m).assignment
    ensures Run(roster, nb, m).assignment[roster[i].id] == Run(roster, nb, i + 1).assignment[roster[i].id]
  {
    KeptFrom(roster, nb, i, m);
  }

  /** Without siblings, the k-th student of the roster keeps the round-robin wave. */
  lemma RoundRobinFinal(roster: seq<Entry>, nb: map<Id, set<Id>>, k: nat)
    requires k < |roster| && NoSiblings(roster, nb) && DistinctIds(roster)
    ensures roster[k].id in Run(roster, nb, |roster|).assignment
    ensures Run(roster, nb, |roster|).assignment[roster[k].id] == Waves[ClassCount(roster, k, roster[k].classId) % 4]
  {
    RoundRobinChoice(roster, nb, k);
    ChoiceKept(roster, nb, k, |roster|);
  }

  lemma {:induction false} ClassCountSingle(roster: seq<Entry>, cid: Id, k: nat)
    requires k <= |roster| && forall i :: 0 <= i < |roster| ==> roster[i].classId == cid
    ensures ClassCount(roster, k, cid) == k
  {
    if k > 0 {
      ClassCountSingle(roster, cid, k - 1);
    }
  }

  /** The roster of a single class, with no committed groups. */
  lemma SingleClassRoster(c: Class)
    ensures Roster([c]) == Entries(c)
    ensures NoSiblings(Roster([c]), SiblingGraph([]))
  {
    assert [c][..0] == [];
    var nb := SiblingGraph([]);
    assert forall a :: !Occurs([], a);
  }

  /** With no committed groups a single class with distinct ids is dealt
      round robin: its k-th student (from 0) gets wave k mod 4. */
  lemma OneClassRoundRobin(c: Class, k: nat)
    requires k < |c.students|
    requires forall i, j :: 0 <= i < j < |c.students| ==> c.students[i].id != c.students[j].id
    ensures c.students[k].id in Schedule([c], [])
    ensures Schedule([c], [])[c.students[k].id] == Waves[k % 4]
  {
    SingleClassRoster(c);
    var roster := Roster([c]);
    ClassCountSingle(roster, c.id, k);
    RoundRobinFinal(roster, SiblingGraph([]), k);
  }

  /** A class of 8 students and no committed groups: each wave's counter
      for that class ends at exactly 2. */
  lemma EightStudentsTwoPerWave(c: Class, w: Wave)
    requires |c.students| == 8
    ensures Count(Run(Roster([c]), SiblingGraph([]), 8).counts, c.id, w) == 2
  {
    SingleClassRoster(c);
    var roster := Roster([c]);
    RoundRobinCounts(roster, SiblingGraph([]), 8);
    ClassCountSingle(roster, c.id, 8);
    RoundRobinClosed(8, WaveIndex(w));
  }

  lemma {:induction false} SubsetCard<T>(a: set<T>, b: set<T>)
    requires a <= b
    ensures |a| <= |b|
    decreases |a|
  {
    if a != {} {
      var x :| x in a;
      SubsetCard(a - {x}, b - {x});
    }
  }

  /** The waves of a set of assigned ids number at most the ids. */
  lemma {:induction false} ImageCard(ids: set<Id>, assignment: map<Id, Wave>)
    ensures |set sid | sid in ids && sid in assignment :: assignment[sid]| <= |ids|
    decreases |ids|
  {
    if ids != {} {
      var x :| x in ids;
      var rest := ids - {x};
      ImageCard(rest, assignment);
      var img := set sid | sid in ids && sid in assignment :: assignment[sid];
      var img' := set sid | sid in rest && sid in assignment :: assignment[sid];
      if x in assignment {
        SubsetCard(img, img' + {assignment[x]});
      } else {
        SubsetCard(img, img');
      }
    }
  }

  /** With at most three neighbours some wave is always left free. */
  lemma SlackLeavesAWave(nb: map<Id, set<Id>>, id: Id, assignment: map<Id, Wave>) returns (free: Wave)
    requires id in nb ==> |nb[id]| <= 3
    ensures free !in UsedBySiblings(nb, id, assignment)
  {
    var used := UsedBySiblings(nb, id, assignment);
    if id in nb {
      ImageCard(nb[id], assignment);
    }
    if A !in used {
      free := A;
    } else if B !in used {
      free := B;
    } else if C !in used {
      free := C;
    } else {
      if D in used {
        SubsetCard({A, B, C, D}, used);
      }
      free := D;
    }
  }

  /** Sibling safety under slack: when the later of two neighbours has at
      most three neighbours, the two end up in different waves. */
  lemma NeighboursApart(roster: seq<Entry>, nb: map<Id, set<Id>>, i: nat, j: nat)
    requires DistinctIds(roster) && i < j < |roster|
    requires roster[j].id in nb && roster[i].id in nb[roster[j].id] && |nb[roster[j].id]| <= 3
    ensures roster[i].id in Run(roster, nb, |roster|).assignment && roster[j].id in Run(roster, nb, |roster|).assignment
    ensures Run(roster, nb, |roster|).assignment[roster[i].id] != Run(roster, nb, |roster|).assignment[roster[j].id]
  {
    var pr := Run(roster, nb, j);
    ChoiceKept(roster, nb, i, j);
    var free := SlackLeavesAWave(nb, roster[j].id, pr.assignment);
    ChoiceAvoidsSiblings(pr, roster[j], nb, roster[i].id, free);
    ChoiceKept(roster, nb, i, |roster|);
    ChoiceKept(roster, nb, j, |roster|);
  }

  lemma {:induction false} SetOfSeqCard(s: seq<Id>)
    ensures |set y | y in s| <= |s|
  {
    if s != [] {
      SetOfSeqCard(s[1..]);
      SubsetCard(set y | y in s, (set y | y in s[1..]) + {s[0]});
    }
  }

  /** Removing one member from a group of at most four distinct ids leaves
      at most three. */
  lemma DistinctCard(g: seq<Id>, x: Id)
    requires |g| <= 4 && x in g && forall p, q :: 0 <= p < q < |g| ==> g[p] != g[q]
    ensures |set y | y in g && y != x| <= 3
  {
    var k :| 0 <= k < |g| && g[k] == x;
    var others := g[..k] + g[k + 1..];
    assert (set y | y in g && y != x) == (set y | y in others);
    SetOfSeqCard(others);
  }

  /** A committed group of at most four distinct students, none of whom is
      in a group reaching outside it, gets pairwise different waves. */
  lemma GroupApartUnderSlack(classes: seq<Class>, groups: seq<seq<Id>>, g: seq<Id>, a: nat, b: nat)
    requires DistinctIds(Roster(classes))
    requires g in groups && |g| <= 4 && forall p, q :: 0 <= p < q < |g| ==> g[p] != g[q]
    requires forall h, x, y :: h in groups && x in g && x in h && y in h ==> y in g
    requires a < |Roster(classes)| && b < |Roster(classes)| && a != b
    requires Roster(classes)[a].id in g && Roster(classes)[b].id in g
    ensures Roster(classes)[a].id in Schedule(classes, groups) && Roster(classes)[b].id in Schedule(classes, groups)
    ensures Schedule(classes, groups)[Roster(classes)[a].id] != Schedule(classes, groups)[Roster(classes)[b].id]
  {
    var roster := Roster(classes);
    var nb := SiblingGraph(groups);
    var i, j := if a < b then a else b, if a < b then b else a;
    var x := roster[j].id;
    assert Occurs(groups, x);
    assert x in nb;
    assert nb[x] <= set y | y in g && y != x;
    DistinctCard(g, x);
    SubsetCard(nb[x], set y | y in g && y != x);
    assert roster[i].id != x;
    assert CoMember(groups, x, roster[i].id);
    NeighboursApart(roster, nb, i, j);
  }

  /*********************************************************************
   * Writing the waves back
   *********************************************************************/

  /** `applyWaveAssignment`: every student's wave is set from the
      assignment, or to A when its id is absent; nothing else changes. */
  function ApplyWaveAssignment(classes: seq<Class>, assignment: map<Id, Wave>): (r: seq<Class>)
    ensures |r| == |classes|
    ensures forall i :: 0 <= i < |classes| ==>
              && r[i].id == classes[i].id && r[i].niveau == classes[i].niveau
              && r[i].teacherName == classes[i].teacherName
              && |r[i].students| == |classes[i].students|
    ensures forall i, k :: 0 <= i < |classes| && 0 <= k < |classes[i].students| ==>
              var s := classes[i].students[k];
              r[i].students[k] == Student(s.id, s.firstName, s.lastName,
                                          Some(if s.id in assignment then assignment[s.id] else A))
  {
    seq(|classes|, i requires 0 <= i < |classes| =>
      var c := classes[i];
      c.(students := seq(|c.students|, k requires 0 <= k < |c.students| =>
        c.students[k].(wave := Some(if c.students[k].id in assignment then assignment[c.students[k].id] else A)))))
  }

  /** Writing the same assignment twice is writing it once. */
  lemma ApplyIdempotent(classes: seq<Class>, assignment: map<Id, Wave>)
    ensures ApplyWaveAssignment(ApplyWaveAssignment(classes, assignment), assignment)
            == ApplyWaveAssignment(classes, assignment)
  {
    var once := ApplyWaveAssignment(classes, assignment);
    var twice := ApplyWaveAssignment(once, assignment);
    forall i | 0 <= i < |classes| ensures twice[i] == once[i] {
      assert twice[i].students == once[i].students;
    }
  }

  /** The planning the "generate" button stores. */
  function Planned(classes: seq<Class>, groups: seq<seq<Id>>): seq<Class> {
    ApplyWaveAssignment(classes, Schedule(classes, groups))
  }

  /** Applied to the engine's own result, the default A is never used:
      every student carries exactly the wave the engine chose. */
  lemma PlannedWaves(classes: seq<Class>, groups: seq<seq<Id>>, i: nat, k: nat)
    requires i < |classes| && k < |classes[i].students|
    ensures classes[i].students[k].id in Schedule(classes, groups)
    ensures Planned(classes, groups)[i].students[k].wave == Some(Schedule(classes, groups)[classes[i].students[k].id])
  {
    ScheduleTotal(classes, groups);
  }
}
