/** The layout the import box documents (src/data-model.js:66-72 and the
    help text at src/main.js:98-100): `niveau: …`, `instituteur: …`,
    `Élèves:`, then one `- Nom Prénom[: W]` line per student, several
    classes being separated by a line `---`. Written out here so that the
    parser can be checked against it: parsing a class written in this
    layout gives the class back. */
module ClassFormat {

  import opened Wrappers
  import opened Text
  import opened DataModel
  import opened ClassText

  /** The header line as a teacher would type it. */
  const HeaderText := "\U{C9}l\U{E8}ves:"

  /** The field lines: a field is only written when it is set. */
  function FieldLines(c: ParsedClass): seq<string> {
    (if c.niveau == "" then [] else [NiveauKey + ": " + c.niveau])
    + (if c.teacherName == "" then [] else [TeacherKey + ": " + c.teacherName])
  }

  /** One bullet line per student, in order. */
  function StudentLines(students: seq<ParsedStudent>): (lines: seq<string>)
    ensures |lines| == |students|
  {
    seq(|students|, i requires 0 <= i < |students| => "- " + FormatStudentLine(students[i]))
  }

  function ClassLines(c: ParsedClass): seq<string> {
    FieldLines(c) + [HeaderText] + StudentLines(c.students)
  }

  /** A class written in the documented layout. */
  function FormatClass(c: ParsedClass): string {
    Join(ClassLines(c), "\n")
  }

  /** A field value a `niveau:` or `instituteur:` line can carry. */
  predicate WritableField(v: string) {
    IsTrimmed(v) && OneLineFrom(v, 0)
  }

  /** A student that fits on one bullet line. */
  predicate WritableLine(s: ParsedStudent) {
    WritableStudent(s) && '\n' !in s.lastName && '\n' !in s.firstName
  }

  predicate WritableClass(c: ParsedClass) {
    && WritableField(c.niveau) && WritableField(c.teacherName)
    && forall i :: 0 <= i < |c.students| ==> WritableLine(c.students[i])
  }

  /*********************************************************************
   * Single lines
   *********************************************************************/

  /** A key already in lower case matches itself at the head of a line. */
  lemma {:induction false} KeyPrefix(key: string, rest: string, i: nat)
    requires i <= |key|
    requires forall j :: 0 <= j < |key| ==> LowerChar(key[j]) == key[j]
    ensures KeyFrom(key + rest, key, i)
    decreases |key| - i
  {
    if i < |key| {
      assert (key + rest)[i] == key[i];
      KeyPrefix(key, rest, i + 1);
    }
  }

  /** After the key, `: v` is read back as the field value `v`. */
  lemma FieldAfterColon(key: string, v: string)
    requires v != [] && WritableField(v)
    ensures FieldAt(key + ": " + v, |key|) == Some(v)
  {
    var s := key + ": " + v;
    var p := |key|;
    assert s[p] == ':' && s[p + 1] == ' ' && s[p + 2] == v[0];
    assert SkipSpace(s, p) == p;
    assert SkipSpace(s, p + 1) == p + 2;
    assert s[p + 2..] == v;
    assert OneLineFrom(s, p + 2) by {
      forall i | p + 2 <= i < |s| ensures !IsLineTerminator(s[i]) {
        assert s[i] == v[i - (p + 2)];
      }
    }
    TrimTrimmed(v);
  }

  /** A line is trimmed, not empty and holds no line feed. */
  predicate CleanLine(line: string) {
    line != [] && IsTrimmed(line) && '\n' !in line
  }

  /** A field line is clean. */
  lemma FieldLineClean(key: string, v: string)
    requires key != [] && !IsSpace(key[0]) && '\n' !in key
    requires v != [] && WritableField(v)
    ensures CleanLine(key + ": " + v)
  {
    var line := key + ": " + v;
    assert line[0] == key[0];
    assert line[|line| - 1] == v[|v| - 1];
    assert '\n' !in v by {
      forall i | 0 <= i < |v| ensures v[i] != '\n' {
      }
    }
  }

  /** The two field keys start with a letter and hold no line feed. */
  lemma KeysPlain()
    ensures NiveauKey != [] && !IsSpace(NiveauKey[0]) && '\n' !in NiveauKey
    ensures TeacherKey != [] && !IsSpace(TeacherKey[0]) && '\n' !in TeacherKey
  {
  }

  /** `niveau: n` is a `niveau` line carrying `n`. */
  lemma NiveauFound(n: string)
    requires n != [] && WritableField(n)
    ensures NiveauValue(NiveauKey + ": " + n) == Some(n)
    ensures CleanLine(NiveauKey + ": " + n)
  {
    var line := NiveauKey + ": " + n;
    assert NiveauValue(line) == Some(n) by {
      KeyPrefix(NiveauKey, ": " + n, 0);
      assert line == NiveauKey + (": " + n);
      FieldAfterColon(NiveauKey, n);
    }
    assert CleanLine(line) by {
      KeysPlain();
      FieldLineClean(NiveauKey, n);
    }
  }

  /** `instituteur: t` is an `instituteur` line carrying `t`. */
  lemma TeacherFound(t: string)
    requires t != [] && WritableField(t)
    ensures NiveauValue(TeacherKey + ": " + t) == None
    ensures TeacherValue(TeacherKey + ": " + t) == Some(t)
    ensures CleanLine(TeacherKey + ": " + t)
  {
    var line := TeacherKey + ": " + t;
    assert NiveauValue(line) == None by {
      NotKey(line, NiveauKey);
    }
    assert TeacherValue(line) == Some(t) by {
      KeyPrefix(TeacherKey, ": " + t, 0);
      assert line == TeacherKey + (": " + t);
      assert line[|TeacherKey|] == ':';
      FieldAfterColon(TeacherKey, t);
    }
    assert CleanLine(line) by {
      KeysPlain();
      FieldLineClean(TeacherKey, t);
    }
  }

  /** `Élèves:` is the header. */
  lemma HeaderFound()
    ensures NiveauValue(HeaderText) == None && TeacherValue(HeaderText) == None
    ensures IsHeader(HeaderText)
    ensures CleanLine(HeaderText)
  {
    NotKey(HeaderText, NiveauKey);
    NotKey(HeaderText, TeacherKey);
    assert KeyFrom(HeaderText, HeaderKey, 0);
    assert EmptyFieldAt(HeaderText, |HeaderKey|);
  }

  /** A student's line neither starts nor ends with a blank. */
  lemma StudentLineEnds(s: ParsedStudent)
    requires WritableLine(s)
    ensures var b := FormatStudentLine(s);
            b != [] && !IsSpace(b[0]) && !IsSpace(b[|b| - 1]) && '\n' !in b
  {
    var name := WrittenName(s);
    var b := FormatStudentLine(s);
    WrittenNameEnds(s);
    assert '\n' !in name by {
      forall i | 0 <= i < |name| ensures name[i] != '\n' {
        if i > |s.lastName| {
          assert name[i] == s.firstName[i - |s.lastName| - 1];
        }
      }
    }
    if s.wave.Some? {
      assert b == name + ": " + Label(s.wave.value);
      assert b[0] == name[0];
    } else {
      assert b == name;
    }
  }

  /** The bullet line of a student is a clean bullet whose text describes
      that very student. */
  lemma StudentFound(s: ParsedStudent)
    requires WritableLine(s)
    ensures var line := "- " + FormatStudentLine(s);
            CleanLine(line) && IsBullet(line) && ParseStudentLine(Trim(line[1..])) == s
  {
    var b := FormatStudentLine(s);
    var line := "- " + b;
    StudentLineEnds(s);
    assert CleanLine(line) && IsBullet(line) by {
      assert line[|line| - 1] == b[|b| - 1];
      assert SkipSpace(line, 0) == 0;
    }
    assert ParseStudentLine(Trim(line[1..])) == s by {
      assert line[1..] == [' '] + b;
      TrimAfterSpace(b);
      ParseFormatStudent(s);
    }
  }

  /*********************************************************************
   * The whole class
   *********************************************************************/

  /** Reading two runs of lines is reading the first, then the second. */
  lemma {:induction false} ReadFromAppend(st: ParseState, a: seq<LineKind>, b: seq<LineKind>)
    ensures ReadFrom(st, a + b) == ReadFrom(ReadFrom(st, a), b)
    decreases |b|
  {
    if |b| > 0 {
      assert (a + b)[..|a + b| - 1] == a + b[..|b| - 1];
      ReadFromAppend(st, a, b[..|b| - 1]);
    } else {
      assert a + b == a;
    }
  }

  lemma KindsAppend(a: seq<string>, b: seq<string>)
    ensures Kinds(a + b) == Kinds(a) + Kinds(b)
  {
  }

  /** Inside the student list, bullets that carry students add them in order. */
  lemma {:induction false} ReadStudents(st: ParseState, students: seq<ParsedStudent>, kinds: seq<LineKind>)
    requires st.inStudents && |kinds| == |students|
    requires forall i :: 0 <= i < |kinds| ==> kinds[i] == OtherLine(true, Some(students[i]))
    ensures ReadFrom(st, kinds) == st.(students := st.students + students)
    decreases |students|
  {
    if |students| > 0 {
      var n := |students|;
      ReadStudents(st, students[..n - 1], kinds[..n - 1]);
      assert students[..n - 1] + [students[n - 1]] == students;
    } else {
      assert st.students + students == st.students;
    }
  }

  /** The kinds of the field lines. */
  function FieldKinds(c: ParsedClass): seq<LineKind> {
    (if c.niveau == "" then [] else [NiveauLine(c.niveau)])
    + (if c.teacherName == "" then [] else [TeacherLine(c.teacherName)])
  }

  lemma NiveauKind(n: string)
    requires n != [] && WritableField(n)
    ensures Classify(NiveauKey + ": " + n) == NiveauLine(n)
  {
    NiveauFound(n);
    KindOfLine(NiveauKey + ": " + n);
  }

  lemma TeacherKind(t: string)
    requires t != [] && WritableField(t)
    ensures Classify(TeacherKey + ": " + t) == TeacherLine(t)
  {
    TeacherFound(t);
    KindOfLine(TeacherKey + ": " + t);
  }

  lemma KindsSingle(line: string)
    ensures Kinds([line]) == [Classify(line)]
  {
  }

  /** The field lines are read as the fields they write. */
  lemma FieldLinesRead(c: ParsedClass)
    requires WritableField(c.niveau) && WritableField(c.teacherName)
    ensures Kinds(FieldLines(c)) == FieldKinds(c)
  {
    var ns := if c.niveau == "" then [] else [NiveauKey + ": " + c.niveau];
    var ts := if c.teacherName == "" then [] else [TeacherKey + ": " + c.teacherName];
    KindsAppend(ns, ts);
    if c.niveau != "" {
      KindsSingle(NiveauKey + ": " + c.niveau);
      NiveauKind(c.niveau);
    }
    if c.teacherName != "" {
      KindsSingle(TeacherKey + ": " + c.teacherName);
      TeacherKind(c.teacherName);
    }
  }

  /** The field lines are clean. */
  lemma FieldLinesClean(c: ParsedClass)
    requires WritableField(c.niveau) && WritableField(c.teacherName)
    ensures forall i :: 0 <= i < |FieldLines(c)| ==> CleanLine(FieldLines(c)[i])
  {
    if c.niveau != "" {
      FieldLineClean(NiveauKey, c.niveau);
    }
    if c.teacherName != "" {
      FieldLineClean(TeacherKey, c.teacherName);
    }
  }

  /** The field kinds set the fields and leave the student list closed. */
  lemma ReadFieldKinds(c: ParsedClass)
    ensures ReadFrom(Start, FieldKinds(c)) == ParseState(c.niveau, c.teacherName, [], false)
  {
    var ns := if c.niveau == "" then [] else [NiveauLine(c.niveau)];
    var ts := if c.teacherName == "" then [] else [TeacherLine(c.teacherName)];
    ReadFromAppend(Start, ns, ts);
  }

  lemma HeaderRead()
    ensures Kinds([HeaderText]) == [HeaderLine]
  {
    HeaderFound();
  }

  /** The bullet lines are read as the students they describe, and are clean. */
  lemma StudentLinesRead(students: seq<ParsedStudent>)
    requires forall i :: 0 <= i < |students| ==> WritableLine(students[i])
    ensures forall i :: 0 <= i < |students| ==> Kinds(StudentLines(students))[i] == OtherLine(true, Some(students[i]))
  {
    forall i | 0 <= i < |students|
      ensures Kinds(StudentLines(students))[i] == OtherLine(true, Some(students[i]))
    {
      StudentFound(students[i]);
      BulletKind("- " + FormatStudentLine(students[i]));
    }
  }

  /** The lines of a written class are clean. */
  lemma ClassLinesClean(c: ParsedClass)
    requires WritableClass(c)
    ensures forall i :: 0 <= i < |ClassLines(c)| ==> CleanLine(ClassLines(c)[i])
  {
    FieldLinesClean(c);
    HeaderFound();
    forall i | 0 <= i < |c.students| ensures CleanLine(StudentLines(c.students)[i]) {
      StudentFound(c.students[i]);
    }
  }

  /** Clean pieces are kept as they are. */
  lemma {:induction false} NonBlankClean(pieces: seq<string>)
    requires forall i :: 0 <= i < |pieces| ==> pieces[i] != [] && IsTrimmed(pieces[i])
    ensures NonBlank(pieces) == pieces
  {
    if |pieces| > 0 {
      TrimTrimmed(pieces[0]);
      NonBlankClean(pieces[1..]);
    }
  }

  /** Splitting a written class into lines gives its lines back. */
  lemma LinesOfClass(c: ParsedClass)
    requires WritableClass(c)
    ensures Lines(FormatClass(c)) == ClassLines(c)
  {
    ClassLinesClean(c);
    SplitJoinChar(ClassLines(c), '\n');
    NonBlankClean(ClassLines(c));
  }

  /** The kinds of the lines of a written class: its fields, the header,
      then one bullet per student. */
  lemma ClassKinds(c: ParsedClass)
    requires WritableClass(c)
    ensures Kinds(ClassLines(c)) == FieldKinds(c) + [HeaderLine] + Kinds(StudentLines(c.students))
  {
    FieldLinesRead(c);
    HeaderRead();
    KindsAppend(FieldLines(c), [HeaderText]);
    KindsAppend(FieldLines(c) + [HeaderText], StudentLines(c.students));
  }

  /** The first loop run over the lines of a written class ends in the
      student list with the class's fields and students. */
  lemma ReadClassLines(c: ParsedClass)
    requires WritableClass(c)
    ensures ReadLines(ClassLines(c)) == ParseState(c.niveau, c.teacherName, c.students, true)
  {
    var fields, students := FieldKinds(c), Kinds(StudentLines(c.students));
    ReadFieldsAndHeader(c);
    ReadStudentLines(c);
    ClassKinds(c);
    ReadFromAppend(Start, fields + [HeaderLine], students);
  }

  /** The fields and the header of a written class leave the loop in the
      student list with the class's fields and no student yet. */
  lemma ReadFieldsAndHeader(c: ParsedClass)
    ensures ReadFrom(Start, FieldKinds(c) + [HeaderLine]) == ParseState(c.niveau, c.teacherName, [], true)
  {
    ReadFromAppend(Start, FieldKinds(c), [HeaderLine]);
    ReadFieldKinds(c);
  }

  /** The bullets of a written class, read in the student list, add its
      students. */
  lemma ReadStudentLines(c: ParsedClass)
    requires WritableClass(c)
    ensures ReadFrom(ParseState(c.niveau, c.teacherName, [], true), Kinds(StudentLines(c.students)))
            == ParseState(c.niveau, c.teacherName, c.students, true)
  {
    StudentLinesRead(c.students);
    ReadStudents(ParseState(c.niveau, c.teacherName, [], true), c.students, Kinds(StudentLines(c.students)));
  }

  /** Parsing a class written in the documented layout gives the class back. */
  lemma ParseFormatClass(c: ParsedClass)
    requires WritableClass(c)
    ensures ParseClass(FormatClass(c)) == c
  {
    LinesOfClass(c);
    ReadClassLines(c);
    SecondPassAddsNothing(FormatClass(c));
  }

  /*********************************************************************
   * Several classes
   *********************************************************************/

  /** Classes are separated by a line `---`. */
  const ClassSeparator := "\n---\n"

  /** Several classes written one after the other. */
  function FormatBatch(classes: seq<ParsedClass>): string {
    if |classes| == 0 then ""
    else Join(seq(|classes|, i requires 0 <= i < |classes| => FormatClass(classes[i])), ClassSeparator)
  }

  /** Classes that can be written in a batch: each is writable, and its text
      does not hold the separator. */
  predicate WritableBatch(classes: seq<ParsedClass>) {
    forall i :: 0 <= i < |classes| ==>
      WritableClass(classes[i]) && forall j :: 0 <= j < |FormatClass(classes[i])| ==> !OccursAt(FormatClass(classes[i]), "---", j)
  }

  /** A written class is trimmed and not empty. */
  lemma FormattedClean(c: ParsedClass)
    requires WritableClass(c)
    ensures FormatClass(c) != [] && IsTrimmed(FormatClass(c))
  {
    var lines := ClassLines(c);
    ClassLinesClean(c);
    JoinEnds(lines, "\n");
  }

  /** `---` occurs where three dashes are. */
  lemma DashesAt(s: string, j: nat)
    requires OccursAt(s, "---", j)
    ensures s[j] == '-' && s[j + 1] == '-' && s[j + 2] == '-'
  {
    assert s[j..j + 3][0] == s[j] && s[j..j + 3][1] == s[j + 1] && s[j..j + 3][2] == s[j + 2];
  }

  /** A text framed by line feeds holds no `---` when the text holds none. */
  lemma FramedFree(pre: string, t: string, post: string)
    requires pre == "" || pre == "\n"
    requires post == "" || post == "\n"
    requires forall j :: 0 <= j ==> !OccursAt(t, "---", j)
    ensures forall j :: 0 <= j ==> !OccursAt(pre + t + post, "---", j)
  {
    var u := pre + t + post;
    forall j | 0 <= j && OccursAt(u, "---", j) ensures false {
      DashesAt(u, j);
      if |pre| <= j && j + 3 <= |pre| + |t| {
        assert u[j..j + 3] == t[j - |pre|..j - |pre| + 3];
        assert OccursAt(t, "---", j - |pre|);
      }
    }
  }

  /** No `---` starts inside a prefix that holds none and ends in a line feed. */
  lemma NoneBefore(s: string, u: string)
    requires u != [] && u[|u| - 1] == '\n' && |u| <= |s| && s[..|u|] == u
    requires forall j :: 0 <= j ==> !OccursAt(u, "---", j)
    ensures forall j :: 0 <= j < |u| ==> !OccursAt(s, "---", j)
  {
    forall j | 0 <= j < |u| ensures !OccursAt(s, "---", j) {
      if j + 3 <= |u| {
        assert s[j..j + 3] == s[..|u|][j..j + 3];
        assert !OccursAt(u, "---", j);
      } else if j + 3 <= |s| {
        assert s[|u| - 1] == s[..|u|][|u| - 1] == '\n';
        assert s[j..j + 3][|u| - 1 - j] == '\n';
      }
    }
  }

  /** The first separator in `pre + t + "\n---\n" + rest` is the one after `t`. */
  lemma FirstSeparator(pre: string, t: string, rest: string)
    requires pre == "" || pre == "\n"
    requires forall j :: 0 <= j ==> !OccursAt(t, "---", j)
    ensures var s := pre + t + ClassSeparator + rest;
            IndexOf(s, "---", 0) == Some(|pre| + |t| + 1)
            && s[..|pre| + |t| + 1] == pre + t + "\n"
            && s[|pre| + |t| + 4..] == "\n" + rest
  {
    var u := pre + t + "\n";
    var s := u + ("---" + ("\n" + rest));
    assert s == pre + t + ClassSeparator + rest;
    FramedFree(pre, t, "\n");
    assert s[..|u|] == u;
    NoneBefore(s, u);
    assert s[|u|..|u| + 3] == "---";
    IndexOfFirst(s, "---", |u|);
    assert s[|u| + 3..] == "\n" + rest;
  }

  /** Without a separator, the text is one piece. */
  lemma NoSeparator(pre: string, t: string)
    requires pre == "" || pre == "\n"
    requires forall j :: 0 <= j ==> !OccursAt(t, "---", j)
    ensures SplitOn(pre + t, "---") == [pre + t]
  {
    FramedFree(pre, t, "");
    assert pre + t + "" == pre + t;
  }

  /** Splitting at `---` cuts the first class off, with the line feed that
      follows it. */
  lemma SplitStep(pre: string, texts: seq<string>)
    requires pre == "" || pre == "\n"
    requires |texts| >= 2
    requires forall j :: 0 <= j ==> !OccursAt(texts[0], "---", j)
    ensures SplitOn(pre + Join(texts, ClassSeparator), "---")
         == [pre + texts[0] + "\n"] + SplitOn("\n" + Join(texts[1..], ClassSeparator), "---")
  {
    var rest := Join(texts[1..], ClassSeparator);
    assert pre + Join(texts, ClassSeparator) == pre + texts[0] + ClassSeparator + rest;
    FirstSeparator(pre, texts[0], rest);
  }

  /** Each piece trims to the text at the same place. */
  predicate TrimsTo(pieces: seq<string>, texts: seq<string>) {
    |pieces| == |texts| && forall i :: 0 <= i < |texts| ==> Trim(pieces[i]) == texts[i]
  }

  lemma TrimsToCons(p: string, pieces: seq<string>, t: string, texts: seq<string>)
    requires Trim(p) == t && TrimsTo(pieces, texts)
    ensures TrimsTo([p] + pieces, [t] + texts)
  {
  }

  /** Splitting written classes at `---` gives one piece per class, which
      trims to that class's text. */
  lemma {:induction false} SplitBatch(pre: string, texts: seq<string>)
    requires pre == "" || pre == "\n"
    requires |texts| >= 1
    requires forall i :: 0 <= i < |texts| ==> texts[i] != [] && IsTrimmed(texts[i])
    requires forall i, j :: 0 <= i < |texts| && 0 <= j ==> !OccursAt(texts[i], "---", j)
    ensures TrimsTo(SplitOn(pre + Join(texts, ClassSeparator), "---"), texts)
    decreases |texts|
  {
    var t := texts[0];
    if |texts| == 1 {
      SplitSingle(pre, t);
      assert Join(texts, ClassSeparator) == t;
    } else {
      SplitStep(pre, texts);
      SplitBatch("\n", texts[1..]);
      TrimPadded(pre, t, "\n");
      TrimsToCons(pre + t + "\n", SplitOn("\n" + Join(texts[1..], ClassSeparator), "---"), t, texts[1..]);
      assert [t] + texts[1..] == texts;
    }
  }

  /** One written class splits into one piece, which trims to its text. */
  lemma SplitSingle(pre: string, t: string)
    requires pre == "" || pre == "\n"
    requires t != [] && IsTrimmed(t)
    requires forall j :: 0 <= j ==> !OccursAt(t, "---", j)
    ensures TrimsTo(SplitOn(pre + t, "---"), [t])
  {
    NoSeparator(pre, t);
    assert pre + t == pre + t + "";
    TrimPadded(pre, t, "");
  }

  /** Pieces that trim to non-blank texts are kept, trimmed. */
  lemma {:induction false} NonBlankTrims(pieces: seq<string>, texts: seq<string>)
    requires |pieces| == |texts|
    requires forall i :: 0 <= i < |texts| ==> Trim(pieces[i]) == texts[i] != []
    ensures NonBlank(pieces) == texts
  {
    if |pieces| > 0 {
      NonBlankTrims(pieces[1..], texts[1..]);
      assert texts == [texts[0]] + texts[1..];
    }
  }

  /** Parsing several classes written one after the other, separated by
      `---` lines, gives the classes back, in order. */
  lemma ParseFormatBatch(classes: seq<ParsedClass>)
    requires WritableBatch(classes)
    ensures ParseBatch(FormatBatch(classes)) == classes
  {
    if |classes| > 0 {
      var texts := seq(|classes|, i requires 0 <= i < |classes| => FormatClass(classes[i]));
      forall i | 0 <= i < |classes| ensures texts[i] != [] && IsTrimmed(texts[i]) {
        FormattedClean(classes[i]);
      }
      SplitBatch("", texts);
      assert "" + Join(texts, ClassSeparator) == Join(texts, ClassSeparator);
      NonBlankTrims(SplitOn(Join(texts, ClassSeparator), "---"), texts);
      forall i | 0 <= i < |classes| ensures ParseClass(texts[i]) == classes[i] {
        ParseFormatClass(classes[i]);
      }
    } else {
      assert SplitOn("", "---") == [""];
    }
  }
}
