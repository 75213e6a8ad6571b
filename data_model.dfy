/** The records of the planning: waves, students and classes, their
    constructors (which trim names and keep only valid waves) and the
    look-ups by id (src/data-model.js). Ids are opaque strings; the
    generation of fresh ids from the clock and a random source is a
    parameter. */
module DataModel {

  import opened Wrappers
  import opened Text

  type Id = string

  /** The four waves, in their fixed order A, B, C, D. */
  datatype Wave = A | B | C | D

  const Waves: seq<Wave> := [A, B, C, D]

  /** Position of a wave in `Waves`. */
  function WaveIndex(w: Wave): (i: nat)
    ensures i < 4 && Waves[i] == w
  {
    match w
    case A => 0
    case B => 1
    case C => 2
    case D => 3
  }

  /** The one-letter label a wave is stored and displayed as. */
  function Label(w: Wave): string {
    match w
    case A => "A"
    case B => "B"
    case C => "C"
    case D => "D"
  }

  datatype Student = Student(id: Id, firstName: string, lastName: string, wave: Option<Wave>)

  datatype Class = Class(id: Id, niveau: string, teacherName: string, students: seq<Student>)

  /** `wave && WAVES.includes(wave) ? wave : null`: a stored wave is kept
      only when it is exactly one of the four labels. `None` stands for a
      missing or non-string value. */
  function NormalizeWave(raw: Option<string>): (r: Option<Wave>)
    ensures r.Some? ==> raw == Some(Label(r.value))
  {
    if raw == Some("A") then Some(A)
    else if raw == Some("B") then Some(B)
    else if raw == Some("C") then Some(C)
    else if raw == Some("D") then Some(D)
    else None
  }

  /** Every label is accepted and gives back its own wave, so a raw value
      is kept exactly when it is one of the four labels. */
  lemma NormalizeWaveLabel(w: Wave)
    ensures NormalizeWave(Some(Label(w))) == Some(w)
  {
  }

  lemma NormalizeWaveRejects(raw: Option<string>)
    requires forall w: Wave :: raw != Some(Label(w))
    ensures NormalizeWave(raw) == None
  {
    if raw.Some? {
      assert raw != Some(Label(A)) && raw != Some(Label(B));
      assert raw != Some(Label(C)) && raw != Some(Label(D));
    }
  }

  /** `createStudent`: names trimmed, wave normalised; `freshId` is the id
      the program draws from the clock and a random source. */
  function CreateStudent(freshId: Id, firstName: string, lastName: string, wave: Option<string>): (s: Student)
    ensures s.id == freshId
    ensures s.firstName == Trim(firstName) && s.lastName == Trim(lastName)
    ensures IsTrimmed(s.firstName) && IsTrimmed(s.lastName)
    ensures forall w: Wave :: s.wave == Some(w) <==> wave == Some(Label(w))
  {
    Student(freshId, Trim(firstName), Trim(lastName), NormalizeWave(wave))
  }

  /** A student as handed to `createClass`: every field may be missing. */
  datatype StudentDraft = StudentDraft(id: Option<Id>, firstName: Option<string>, lastName: Option<string>, wave: Option<string>)

  /** One student of `createClass`: `s.id || fresh`, `(s.firstName ?? '').trim()`, ... */
  function FromDraft(d: StudentDraft, freshId: Id): (s: Student)
    ensures d.id.Some? && d.id.value != "" ==> s.id == d.id.value
    ensures d.id.None? || d.id.value == "" ==> s.id == freshId
    ensures s.firstName == Trim(if d.firstName.Some? then d.firstName.value else "")
    ensures s.lastName == Trim(if d.lastName.Some? then d.lastName.value else "")
    ensures s.wave == NormalizeWave(d.wave)
  {
    Student(if d.id.Some? && d.id.value != "" then d.id.value else freshId,
            Trim(if d.firstName.Some? then d.firstName.value else ""),
            Trim(if d.lastName.Some? then d.lastName.value else ""),
            NormalizeWave(d.wave))
  }

  /** `createClass`: the class's names are trimmed and every student goes
      through `FromDraft`, in order; `freshIds` supplies one generated id per
      position (used only where the draft has none). */
  function CreateClass(freshId: Id, niveau: string, teacherName: string,
                       drafts: seq<StudentDraft>, freshIds: seq<Id>): (c: Class)
    requires |freshIds| == |drafts|
    ensures c.id == freshId && c.niveau == Trim(niveau) && c.teacherName == Trim(teacherName)
    ensures |c.students| == |drafts|
    ensures forall i :: 0 <= i < |drafts| ==> c.students[i] == FromDraft(drafts[i], freshIds[i])
  {
    Class(freshId, Trim(niveau), Trim(teacherName),
          seq(|drafts|, i requires 0 <= i < |drafts| => FromDraft(drafts[i], freshIds[i])))
  }

  /** A student seen again as a draft, as when a stored class is rebuilt. */
  function AsDraft(s: Student): StudentDraft {
    StudentDraft(Some(s.id), Some(s.firstName), Some(s.lastName),
                 if s.wave.Some? then Some(Label(s.wave.value)) else None)
  }

  function Drafts(c: Class): (ds: seq<StudentDraft>)
    ensures |ds| == |c.students|
  {
    seq(|c.students|, i requires 0 <= i < |c.students| => AsDraft(c.students[i]))
  }

  /** A class as `createClass` leaves it: trimmed names and non-empty ids. */
  predicate Normalized(c: Class) {
    && IsTrimmed(c.niveau) && IsTrimmed(c.teacherName)
    && forall i :: 0 <= i < |c.students| ==>
         c.students[i].id != "" && IsTrimmed(c.students[i].firstName) && IsTrimmed(c.students[i].lastName)
  }

  lemma RebuildStudent(s: Student, freshId: Id)
    requires s.id != "" && IsTrimmed(s.firstName) && IsTrimmed(s.lastName)
    ensures FromDraft(AsDraft(s), freshId) == s
  {
    var d := AsDraft(s);
    var r := FromDraft(d, freshId);
    assert r.id == s.id;
    assert r.firstName == s.firstName by {
      TrimTrimmed(s.firstName);
    }
    assert r.lastName == s.lastName by {
      TrimTrimmed(s.lastName);
    }
    assert r.wave == s.wave by {
      if s.wave.Some? {
        NormalizeWaveLabel(s.wave.value);
      }
    }
  }

  /** Rebuilding a normalised class through `createClass` gives it back
      unchanged, whatever ids the generator would have drawn. */
  lemma RebuildClass(c: Class, freshIds: seq<Id>)
    requires Normalized(c) && |freshIds| == |c.students|
    ensures CreateClass(c.id, c.niveau, c.teacherName, Drafts(c), freshIds) == c
  {
    var r := CreateClass(c.id, c.niveau, c.teacherName, Drafts(c), freshIds);
    RebuildStudents(c, freshIds);
    TrimTrimmed(c.niveau);
    TrimTrimmed(c.teacherName);
  }

  lemma RebuildStudents(c: Class, freshIds: seq<Id>)
    requires Normalized(c) && |freshIds| == |c.students|
    ensures CreateClass(c.id, c.niveau, c.teacherName, Drafts(c), freshIds).students == c.students
  {
    var ds := Drafts(c);
    var r := CreateClass(c.id, c.niveau, c.teacherName, ds, freshIds);
    forall i | 0 <= i < |c.students| ensures r.students[i] == c.students[i] {
      assert ds[i] == AsDraft(c.students[i]);
      RebuildStudent(c.students[i], freshIds[i]);
    }
  }

  /** What `createClass` returns is normalised as soon as every student
      ends up with a non-empty id. */
  lemma CreatedNormalized(id: Id, niveau: string, teacherName: string,
                          drafts: seq<StudentDraft>, freshIds: seq<Id>)
    requires |freshIds| == |drafts|
    requires forall i :: 0 <= i < |freshIds| ==> freshIds[i] != ""
    ensures Normalized(CreateClass(id, niveau, teacherName, drafts, freshIds))
  {
    var c := CreateClass(id, niveau, teacherName, drafts, freshIds);
    forall i | 0 <= i < |c.students|
      ensures c.students[i].id != "" && IsTrimmed(c.students[i].firstName) && IsTrimmed(c.students[i].lastName)
    {
      FromDraftNormalized(drafts[i], freshIds[i]);
    }
  }

  lemma FromDraftNormalized(d: StudentDraft, freshId: Id)
    requires freshId != ""
    ensures var s := FromDraft(d, freshId);
            s.id != "" && IsTrimmed(s.firstName) && IsTrimmed(s.lastName)
  {
  }

  /** Building twice equals building once, whatever ids the generator draws
      the second time. */
  lemma CreateClassIdempotent(id: Id, niveau: string, teacherName: string,
                              drafts: seq<StudentDraft>, freshIds: seq<Id>, freshIds': seq<Id>)
    requires |freshIds| == |freshIds'| == |drafts|
    requires forall i :: 0 <= i < |freshIds| ==> freshIds[i] != ""
    ensures var c := CreateClass(id, niveau, teacherName, drafts, freshIds);
            CreateClass(c.id, c.niveau, c.teacherName, Drafts(c), freshIds') == c
  {
    CreatedNormalized(id, niveau, teacherName, drafts, freshIds);
    RebuildClass(CreateClass(id, niveau, teacherName, drafts, freshIds), freshIds');
  }

  /** `students.find((st) => st.id === id)`. */
  function FindIn(students: seq<Student>, id: Id): (r: Option<Student>)
    ensures r.None? <==> forall k :: 0 <= k < |students| ==> students[k].id != id
    ensures r.Some? ==> r.value.id == id && r.value in students
    ensures r.Some? ==> exists k :: 0 <= k < |students| && students[k] == r.value
                                  && forall j :: 0 <= j < k ==> students[j].id != id
  {
    if |students| == 0 then None
    else if students[0].id == id then Some(students[0])
    else
      var r := FindIn(students[1..], id);
      r
  }

  predicate HasStudent(c: Class, id: Id) {
    exists k :: 0 <= k < |c.students| && c.students[k].id == id
  }

  /** The first class, in order, holding a student with `id`, and the first
      such student of it. */
  function FindStudent(classes: seq<Class>, id: Id): (r: Option<(Class, Student)>)
    ensures r.None? <==> forall i :: 0 <= i < |classes| ==> !HasStudent(classes[i], id)
    ensures r.Some? ==> exists i :: 0 <= i < |classes| && r.value.0 == classes[i] && HasStudent(classes[i], id)
                                  && (forall j :: 0 <= j < i ==> !HasStudent(classes[j], id))
                                  && Some(r.value.1) == FindIn(classes[i].students, id)
  {
    if |classes| == 0 then None
    else
      var s := FindIn(classes[0].students, id);
      if s.Some? then Some((classes[0], s.value))
      else
        var r := FindStudent(classes[1..], id);
        r
  }

  /** `getStudentById`: the loop over the classes with its early return. */
  method GetStudentById(classes: seq<Class>, id: Id) returns (r: Option<(Class, Student)>)
    ensures r == FindStudent(classes, id)
  {
    for i := 0 to |classes|
      invariant FindStudent(classes, id) == FindStudent(classes[i..], id)
    {
      var s := FindIn(classes[i].students, id);
      if s.Some? {
        return Some((classes[i], s.value));
      }
      assert classes[i..][1..] == classes[i + 1..];
    }
    return None;
  }

  /** `getClassById`: the first class with the id, if any. */
  function GetClassById(classes: seq<Class>, id: Id): (r: Option<Class>)
    ensures r.None? <==> forall i :: 0 <= i < |classes| ==> classes[i].id != id
    ensures r.Some? ==> exists i :: 0 <= i < |classes| && classes[i] == r.value && r.value.id == id
                                  && forall j :: 0 <= j < i ==> classes[j].id != id
  {
    if |classes| == 0 then None
    else if classes[0].id == id then Some(classes[0])
    else
      var r := GetClassById(classes[1..], id);
      r
  }

}
