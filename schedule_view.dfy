/** The schedule view's completeness test and its time display
    (src/main.js): whether every class has a student in each of the four
    waves, whether two siblings share a wave, and how a stored time is
    shown. */
module ScheduleView {

  import opened Wrappers
  import opened Text
  import opened DataModel
  import Store

  /*********************************************************************
   * Every class in every wave
   *********************************************************************/

  /** Some student of `c` is in wave `w`. */
  predicate HasWave(c: Class, w: Wave) {
    exists k :: 0 <= k < |c.students| && c.students[k].wave == Some(w)
  }

  /** `classHasAllWaves`: each of A, B, C and D has a student of the class. */
  predicate ClassHasAllWaves(c: Class) {
    forall w: Wave :: HasWave(c, w)
  }

  /** `allClassesComplete`. */
  predicate AllClassesComplete(classes: seq<Class>) {
    forall i :: 0 <= i < |classes| ==> ClassHasAllWaves(classes[i])
  }

  /** A class that is complete has at least four students, one per wave. */
  lemma CompleteHasFour(c: Class)
    requires ClassHasAllWaves(c)
    ensures |c.students| >= 4
  {
    assert HasWave(c, A) && HasWave(c, B) && HasWave(c, C) && HasWave(c, D);
    var a :| 0 <= a < |c.students| && c.students[a].wave == Some(A);
    var b :| 0 <= b < |c.students| && c.students[b].wave == Some(B);
    var cc :| 0 <= cc < |c.students| && c.students[cc].wave == Some(C);
    var d :| 0 <= d < |c.students| && c.students[d].wave == Some(D);
    var used := {a, b, cc, d};
    assert |used| == 4;
    IndicesBelow(used, |c.students|);
  }

  /** A set of naturals below `n` has at most `n` elements. */
  lemma {:induction false} IndicesBelow(s: set<nat>, n: nat)
    requires forall k :: k in s ==> k < n
    ensures |s| <= n
    decreases n
  {
    if n > 0 {
      IndicesBelow(s - {n - 1}, n - 1);
    } else {
      assert s == {};
    }
  }

  /*********************************************************************
   * Siblings in the same wave
   *********************************************************************/

  /** The wave `c.students.find((st) => st.id === sid)?.wave` contributes:
      none when no student has the id or the student has no wave. */
  function Hit(sid: Id, c: Class): seq<Wave> {
    match FindIn(c.students, sid)
    case Some(s) => if s.wave.Some? then [s.wave.value] else []
    case None => []
  }

  /** The waves met for one group member, class by class. */
  function HitsIn(sid: Id, classes: seq<Class>): seq<Wave> {
    if classes == [] then [] else Hit(sid, classes[0]) + HitsIn(sid, classes[1..])
  }

  /** The waves met for a whole group, in the order the scan meets them. */
  function Hits(group: seq<Id>, classes: seq<Class>): seq<Wave> {
    if group == [] then [] else HitsIn(group[0], classes) + Hits(group[1..], classes)
  }

  /** Some wave occurs twice. */
  predicate HasRepeat(ws: seq<Wave>) {
    exists i, j :: 0 <= i < j < |ws| && ws[i] == ws[j]
  }

  /** `siblingConflict`: some saved group meets a wave twice. */
  predicate SiblingConflict(groups: seq<seq<Id>>, classes: seq<Class>) {
    exists g :: 0 <= g < |groups| && HasRepeat(Hits(groups[g], classes))
  }

  /** `scheduleIncomplete`. */
  predicate ScheduleIncomplete(groups: seq<seq<Id>>, classes: seq<Class>) {
    !AllClassesComplete(classes) || SiblingConflict(groups, classes)
  }

  lemma {:induction false} HitsInAppend(sid: Id, a: seq<Class>, b: seq<Class>)
    ensures HitsIn(sid, a + b) == HitsIn(sid, a) + HitsIn(sid, b)
  {
    if a != [] {
      assert (a + b)[1..] == a[1..] + b;
      HitsInAppend(sid, a[1..], b);
    } else {
      assert a + b == b;
    }
  }

  lemma {:induction false} HitsAppend(a: seq<Id>, b: seq<Id>, classes: seq<Class>)
    ensures Hits(a + b, classes) == Hits(a, classes) + Hits(b, classes)
  {
    if a != [] {
      assert (a + b)[1..] == a[1..] + b;
      HitsAppend(a[1..], b, classes);
    } else {
      assert a + b == b;
    }
  }

  /** The waves of a group, cut around member `i`. */
  lemma HitsAround(group: seq<Id>, classes: seq<Class>, i: nat)
    requires i < |group|
    ensures Hits(group, classes) ==
            Hits(group[..i], classes) + (HitsIn(group[i], classes) + Hits(group[i + 1..], classes))
  {
    var post := [group[i]] + group[i + 1..];
    assert group == group[..i] + post;
    HitsAppend(group[..i], post, classes);
    assert post[0] == group[i] && post[1..] == group[i + 1..];
  }

  /** One more class scanned for member `i`. */
  lemma HitsInStep(sid: Id, classes: seq<Class>, j: nat)
    requires j < |classes|
    ensures HitsIn(sid, classes[..j + 1]) == HitsIn(sid, classes[..j]) + Hit(sid, classes[j])
  {
    assert classes[..j + 1] == classes[..j] + [classes[j]];
    HitsInAppend(sid, classes[..j], [classes[j]]);
  }

  /** One more member scanned. */
  lemma HitsStep(group: seq<Id>, classes: seq<Class>, i: nat)
    requires i < |group|
    ensures Hits(group[..i + 1], classes) == Hits(group[..i], classes) + HitsIn(group[i], classes)
  {
    assert group[..i + 1] == group[..i] + [group[i]];
    HitsAppend(group[..i], [group[i]], classes);
  }

  lemma RepeatExtends(a: seq<Wave>, b: seq<Wave>)
    requires HasRepeat(a)
    ensures HasRepeat(a + b)
  {
    var i, j :| 0 <= i < j < |a| && a[i] == a[j];
    assert (a + b)[i] == a[i] && (a + b)[j] == a[j];
  }

  /** A wave already in the first part, met once more, repeats. */
  lemma RepeatInside(p: seq<Wave>, before: seq<Wave>, w: Wave, after: seq<Wave>, rest: seq<Wave>)
    requires w in p + before
    ensures HasRepeat(p + (((before + [w]) + after) + rest))
  {
    var all := p + (((before + [w]) + after) + rest);
    var k :| 0 <= k < |p + before| && (p + before)[k] == w;
    assert all[k] == w;
    assert all[|p| + |before|] == w;
  }

  lemma HitsInSplit(sid: Id, classes: seq<Class>, m: nat)
    requires m <= |classes|
    ensures HitsIn(sid, classes) == HitsIn(sid, classes[..m]) + HitsIn(sid, classes[m..])
  {
    assert classes == classes[..m] + classes[m..];
    HitsInAppend(sid, classes[..m], classes[m..]);
  }

  /** A wave met a second time, where the scan stands, makes the whole
      group's waves repeat. */
  lemma RepeatFound(group: seq<Id>, classes: seq<Class>, i: nat, j: nat, w: Wave)
    requires i < |group| && j < |classes|
    requires w in Hits(group[..i], classes) + HitsIn(group[i], classes[..j])
    requires Hit(group[i], classes[j]) == [w]
    ensures HasRepeat(Hits(group, classes))
  {
    HitsInStep(group[i], classes, j);
    HitsInSplit(group[i], classes, j + 1);
    HitsAround(group, classes, i);
    RepeatInside(Hits(group[..i], classes), HitsIn(group[i], classes[..j]), w,
                 HitsIn(group[i], classes[j + 1..]), Hits(group[i + 1..], classes));
  }

  /** A wave not met before adds no repeat. */
  lemma NoRepeatSnoc(seen: seq<Wave>, w: Wave)
    requires !HasRepeat(seen) && w !in seen
    ensures !HasRepeat(seen + [w])
  {
    forall p, q | 0 <= p < q < |seen + [w]| ensures (seen + [w])[p] != (seen + [w])[q] {
      if q == |seen| {
        assert seen[p] in seen;
      } else {
        assert seen[p] != seen[q];
      }
    }
  }

  /** The inner scan for member `i`: over the classes, adding each wave met
      to `waves`, and stopping as soon as a wave comes back. */
  method ScanMember(group: seq<Id>, classes: seq<Class>, i: nat, waves0: set<Wave>, ghost seen0: seq<Wave>)
    returns (conflict: bool, waves: set<Wave>, ghost seen: seq<Wave>)
    requires i < |group|
    requires seen0 == Hits(group[..i], classes)
    requires forall w :: w in waves0 <==> w in seen0
    requires !HasRepeat(seen0)
    ensures conflict ==> HasRepeat(Hits(group, classes))
    ensures !conflict ==> seen == Hits(group[..i + 1], classes) && !HasRepeat(seen)
                          && (forall w :: w in waves <==> w in seen)
  {
    var id := group[i];
    waves, seen := waves0, seen0;
    for j := 0 to |classes|
      invariant seen == seen0 + HitsIn(id, classes[..j])
      invariant forall w :: w in waves <==> w in seen
      invariant !HasRepeat(seen)
    {
      HitsInStep(id, classes, j);
      var s := FindIn(classes[j].students, id);
      if s.Some? && s.value.wave.Some? {
        var w := s.value.wave.value;
        if w in waves {
          RepeatFound(group, classes, i, j, w);
          return true, waves, seen;
        }
        waves := waves + {w};
        NoRepeatSnoc(seen, w);
      }
      seen := seen + Hit(id, classes[j]);
    }
    assert classes[..|classes|] == classes;
    HitsStep(group, classes, i);
    return false, waves, seen;
  }

  /** One group's test: the scan over members and classes that returns as
      soon as a wave comes back. */
  method GroupConflict(group: seq<Id>, classes: seq<Class>) returns (conflict: bool)
    ensures conflict == HasRepeat(Hits(group, classes))
  {
    var waves: set<Wave> := {};
    ghost var seen: seq<Wave> := [];
    for i := 0 to |group|
      invariant seen == Hits(group[..i], classes)
      invariant forall w :: w in waves <==> w in seen
      invariant !HasRepeat(seen)
    {
      conflict, waves, seen := ScanMember(group, classes, i, waves, seen);
      if conflict {
        return;
      }
    }
    assert group[..|group|] == group;
    return false;
  }

  /** `siblingConflict`: the groups tested in turn. */
  method FindSiblingConflict(groups: seq<seq<Id>>, classes: seq<Class>) returns (conflict: bool)
    ensures conflict == SiblingConflict(groups, classes)
  {
    for g := 0 to |groups|
      invariant forall h :: 0 <= h < g ==> !HasRepeat(Hits(groups[h], classes))
    {
      conflict := GroupConflict(groups[g], classes);
      if conflict {
        return;
      }
    }
    return false;
  }

  /*********************************************************************
   * What a conflict means
   *********************************************************************/

  /** No student id appears in two different classes. */
  ghost predicate IdsApart(classes: seq<Class>) {
    forall i, j, id :: 0 <= i < j < |classes| && HasStudent(classes[i], id) ==> !HasStudent(classes[j], id)
  }

  /** The wave of the student with id `sid`, if any. */
  function WaveOf(classes: seq<Class>, sid: Id): Option<Wave> {
    match FindStudent(classes, sid)
    case None => None
    case Some(found) => found.1.wave
  }

  function AsList(w: Option<Wave>): seq<Wave> {
    if w.Some? then [w.value] else []
  }

  lemma {:induction false} HitsInAbsent(sid: Id, classes: seq<Class>)
    requires forall i :: 0 <= i < |classes| ==> !HasStudent(classes[i], sid)
    ensures HitsIn(sid, classes) == []
  {
    if classes != [] {
      assert !HasStudent(classes[0], sid);
      HitsInAbsent(sid, classes[1..]);
    }
  }

  /** With ids apart, a member meets at most one wave: their own. */
  lemma {:induction false} HitsInApart(sid: Id, classes: seq<Class>)
    requires IdsApart(classes)
    ensures HitsIn(sid, classes) == AsList(WaveOf(classes, sid))
  {
    if classes != [] {
      var rest := classes[1..];
      assert IdsApart(rest) by {
        forall i, j, id | 0 <= i < j < |rest| && HasStudent(rest[i], id) ensures !HasStudent(rest[j], id) {
          assert rest[i] == classes[i + 1] && rest[j] == classes[j + 1];
        }
      }
      var s := FindIn(classes[0].students, sid);
      if s.Some? {
        var k :| 0 <= k < |classes[0].students| && classes[0].students[k] == s.value;
        assert HasStudent(classes[0], sid);
        forall i | 0 <= i < |rest| ensures !HasStudent(rest[i], sid) {
          assert rest[i] == classes[i + 1];
        }
        HitsInAbsent(sid, rest);
      } else {
        HitsInApart(sid, rest);
      }
    }
  }

  /** Two positions of the group whose students share a wave. */
  predicate SharedWave(group: seq<Id>, classes: seq<Class>) {
    exists p, q :: 0 <= p < q < |group| && WaveOf(classes, group[p]).Some?
                   && WaveOf(classes, group[p]) == WaveOf(classes, group[q])
  }

  /** A wave is met for a group exactly when one of its members has it. */
  lemma {:induction false} HitsMember(group: seq<Id>, classes: seq<Class>, w: Wave)
    requires IdsApart(classes)
    ensures w in Hits(group, classes) <==>
            exists q :: 0 <= q < |group| && WaveOf(classes, group[q]) == Some(w)
  {
    if group != [] {
      var rest := group[1..];
      var own := WaveOf(classes, group[0]);
      HitsInApart(group[0], classes);
      HitsMember(rest, classes, w);
      assert Hits(group, classes) == AsList(own) + Hits(rest, classes);
      assert w in Hits(group, classes) <==> own == Some(w) || w in Hits(rest, classes);
      if exists q :: 0 <= q < |group| && WaveOf(classes, group[q]) == Some(w) {
        var q :| 0 <= q < |group| && WaveOf(classes, group[q]) == Some(w);
        if q > 0 {
          assert rest[q - 1] == group[q];
        }
      }
      if w in Hits(rest, classes) {
        var q :| 0 <= q < |rest| && WaveOf(classes, rest[q]) == Some(w);
        assert group[q + 1] == rest[q];
      }
    }
  }

  /** Putting at most one wave in front repeats a wave exactly when the
      rest repeats one or already holds that wave. */
  lemma RepeatCons(a: seq<Wave>, b: seq<Wave>)
    requires |a| <= 1
    ensures HasRepeat(a + b) <==> HasRepeat(b) || (|a| == 1 && a[0] in b)
  {
    var ab := a + b;
    if HasRepeat(ab) {
      var i, j :| 0 <= i < j < |ab| && ab[i] == ab[j];
      if i >= |a| {
        assert b[i - |a|] == ab[i] && b[j - |a|] == ab[j];
      } else {
        assert ab[j] == b[j - |a|];
      }
    }
    if HasRepeat(b) {
      var i, j :| 0 <= i < j < |b| && b[i] == b[j];
      assert ab[i + |a|] == b[i] && ab[j + |a|] == b[j];
    }
    if |a| == 1 && a[0] in b {
      var j :| 0 <= j < |b| && b[j] == a[0];
      assert ab[0] == a[0] && ab[j + 1] == b[j];
    }
  }

  /** With ids apart, a group is in conflict exactly when two of its
      positions hold students of the same wave. */
  lemma {:induction false} ConflictIsSharedWave(group: seq<Id>, classes: seq<Class>)
    requires IdsApart(classes)
    ensures HasRepeat(Hits(group, classes)) <==> SharedWave(group, classes)
  {
    if group != [] {
      var t := group[1..];
      var first := WaveOf(classes, group[0]);
      HitsInApart(group[0], classes);
      ConflictIsSharedWave(t, classes);
      RepeatCons(AsList(first), Hits(t, classes));
      if first.Some? {
        HitsMember(t, classes, first.value);
      }
      if SharedWave(t, classes) {
        var p, q :| 0 <= p < q < |t| && WaveOf(classes, t[p]).Some? && WaveOf(classes, t[p]) == WaveOf(classes, t[q]);
        assert group[p + 1] == t[p] && group[q + 1] == t[q];
      }
      if first.Some? && first.value in Hits(t, classes) {
        var q :| 0 <= q < |t| && WaveOf(classes, t[q]) == first;
        assert group[q + 1] == t[q];
      }
      if SharedWave(group, classes) {
        var p, q :| 0 <= p < q < |group| && WaveOf(classes, group[p]).Some?
                    && WaveOf(classes, group[p]) == WaveOf(classes, group[q]);
        if p == 0 {
          assert t[q - 1] == group[q];
        } else {
          assert t[p - 1] == group[p] && t[q - 1] == group[q];
        }
      }
    }
  }

  /** When no id is in two classes, the schedule is flagged incomplete
      exactly when some class has no student in some wave, or two distinct
      members of a saved group hold the same wave. */
  lemma ScheduleIncompleteMeaning(groups: seq<seq<Id>>, classes: seq<Class>)
    requires IdsApart(classes)
    ensures ScheduleIncomplete(groups, classes) <==>
              (exists i, w: Wave :: 0 <= i < |classes| && !HasWave(classes[i], w))
              || (exists g :: 0 <= g < |groups| && SharedWave(groups[g], classes))
  {
    forall g | 0 <= g < |groups|
      ensures HasRepeat(Hits(groups[g], classes)) <==> SharedWave(groups[g], classes)
    {
      ConflictIsSharedWave(groups[g], classes);
    }
  }

  /*********************************************************************
   * Showing a time
   *********************************************************************/

  /** `formatTimeDisplay`: `None` stands for a missing or non-string value.
      The first ':' becomes 'h'; a time without ':' keeps an 'h' it has or
      gains "h00". */
  function FormatTimeDisplay(timeStr: Option<string>): string {
    if timeStr.None? || timeStr.value == "" then ""
    else
      var t := Trim(timeStr.value);
      match IndexOf(t, ":", 0)
      case Some(i) => t[..i] + "h" + t[i + 1..]
      case None => if 'h' in t then t else t + "h00"
  }

  /** `r` is `t` with the character at `i`, its first ':', turned into 'h'. */
  predicate FirstColonToH(t: string, r: string, i: nat) {
    i < |t| == |r| && t[i] == ':' && r[i] == 'h'
    && (forall j :: 0 <= j < i ==> t[j] != ':')
    && (forall j :: 0 <= j < |t| && j != i ==> r[j] == t[j])
  }

  /** A trimmed time holding a ':' is shown with its first ':' turned into
      'h' and nothing else changed. */
  lemma FormatTimeColon(timeStr: string)
    requires timeStr != "" && ':' in Trim(timeStr)
    ensures exists i :: FirstColonToH(Trim(timeStr), FormatTimeDisplay(Some(timeStr)), i)
  {
    var t, r := Trim(timeStr), FormatTimeDisplay(Some(timeStr));
    match IndexOf(t, ":", 0)
    case Some(i) =>
      assert t[i..i + 1] == ":";
      forall j | 0 <= j < i ensures t[j] != ':' {
        assert !OccursAt(t, ":", j);
        assert t[j..j + 1] == [t[j]];
      }
      assert FirstColonToH(t, r, i);
    case None =>
      var j :| 0 <= j < |t| && t[j] == ':';
      assert t[j..j + 1] == [t[j]];
      assert OccursAt(t, ":", j);
  }

  /** A trimmed time without ':' is shown as it is when it holds an 'h',
      with "h00" added when it does not. */
  lemma FormatTimeNoColon(timeStr: string)
    requires timeStr != "" && ':' !in Trim(timeStr)
    ensures var t := Trim(timeStr);
            FormatTimeDisplay(Some(timeStr)) == if 'h' in t then t else t + "h00"
  {
    var t := Trim(timeStr);
    IndexOfAbsentChar(t, ':');
    assert IndexOf(t, ":", 0) == None;
  }

  /** Whatever non-empty text is shown holds an 'h'. */
  lemma FormatTimeHasH(timeStr: string)
    requires timeStr != ""
    ensures 'h' in FormatTimeDisplay(Some(timeStr))
  {
    var t := Trim(timeStr);
    if ':' in t {
      FormatTimeColon(timeStr);
      var i :| FirstColonToH(t, FormatTimeDisplay(Some(timeStr)), i);
    } else {
      FormatTimeNoColon(timeStr);
      assert (t + "h00")[|t|] == 'h';
    }
  }

  /** Nothing is shown exactly for a missing or empty time. */
  lemma FormatTimeEmpty(timeStr: Option<string>)
    ensures FormatTimeDisplay(timeStr) == "" <==> timeStr.None? || timeStr.value == ""
  {
    if timeStr.Some? && timeStr.value != "" {
      FormatTimeHasH(timeStr.value);
    }
  }

  /** A time in the `HH:MM` form that loading produces is shown as
      `HHhMM`. */
  lemma FormatCanonical(c: string)
    requires Store.Canonical(c)
    ensures FormatTimeDisplay(Some(c)) == c[..2] + "h" + c[3..]
  {
    TrimNoEnds(c);
    OccursAtChar(c, ':', 2);
    forall j: nat | j < 2 ensures !OccursAt(c, ":", j) {
      OccursAtChar(c, ':', j);
    }
    IndexOfFirst(c, ":", 2);
  }
}
