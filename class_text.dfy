/** The text import of classes (src/data-model.js:51-127): a block of
    lines `niveau: …`, `instituteur: …`, `Élèves:` and `- Nom Prénom[: W]`,
    several blocks being separated by `---`. The regular expressions of the
    program are written out as string predicates; case-insensitive matching
    compares the `ToLower` form of the text with a lower-case key. */
module ClassText {

  import opened Wrappers
  import opened Text
  import opened DataModel

  /** What `parseStudentLine` returns. */
  datatype ParsedStudent = ParsedStudent(lastName: string, firstName: string, wave: Option<Wave>)

  /** What `parseClassFromText` returns. */
  datatype ParsedClass = ParsedClass(niveau: string, teacherName: string, students: seq<ParsedStudent>)

  /*********************************************************************
   * One student line
   *********************************************************************/

  /** `[ABCD]` under the `i` flag. */
  predicate IsWaveLetter(c: char) {
    c == 'A' || c == 'B' || c == 'C' || c == 'D' || c == 'a' || c == 'b' || c == 'c' || c == 'd'
  }

  /** The wave a letter names once upper-cased. */
  function LetterWave(c: char): (w: Wave)
    requires IsWaveLetter(c)
    ensures Label(w) == [c] || LowerChar(Label(w)[0]) == c
  {
    if c == 'A' || c == 'a' then A
    else if c == 'B' || c == 'b' then B
    else if c == 'C' || c == 'c' then C
    else D
  }

  /** The match of `\s*:\s*([ABCD])\s*$` (flag `i`): the index where the
      match starts and the wave the letter names. The tail of the text must
      be blanks, a colon, blanks, one wave letter and blanks; the match
      starts at the first of the blanks before the colon. */
  function WaveSuffix(b: string): (r: Option<(nat, Wave)>)
    ensures r.Some? ==> r.value.0 <= |b|
  {
    var t := SpaceTail(b, |b|);
    if t == 0 || !IsWaveLetter(b[t - 1]) then None
    else
      var u := SpaceTail(b, t - 1);
      if u == 0 || b[u - 1] != ':' then None
      else Some((SpaceTail(b, u - 1), LetterWave(b[t - 1])))
  }

  /** `namePart`: the text before the wave suffix, or all of it, trimmed. */
  function NamePart(bullet: string): string {
    var m := WaveSuffix(bullet);
    if m.Some? then Trim(bullet[..m.value.0]) else Trim(bullet)
  }

  /** The wave the suffix names, if there is one. */
  function SuffixWave(bullet: string): Option<Wave> {
    var m := WaveSuffix(bullet);
    if m.Some? then Some(m.value.1) else None
  }

  /** The name part cut at its first space into last name and (trimmed)
      first name; a name part that starts with a space or has none is all
      last name. */
  function SplitNamePart(namePart: string, wave: Option<Wave>): ParsedStudent {
    var firstSpace := IndexOf(namePart, " ", 0);
    if firstSpace.Some? && firstSpace.value > 0 then
      ParsedStudent(namePart[..firstSpace.value], Trim(namePart[firstSpace.value + 1..]), wave)
    else
      ParsedStudent(namePart, "", wave)
  }

  /** `parseStudentLine`: an optional trailing wave, then the name part
      split at its first space. */
  function ParseStudentLine(bullet: string): ParsedStudent {
    SplitNamePart(NamePart(bullet), SuffixWave(bullet))
  }

  /** The line a student is written as: `Nom Prénom`, or `Nom` alone, with
      `: W` appended when the student has a wave. */
  function FormatStudentLine(s: ParsedStudent): string {
    (if s.firstName == "" then s.lastName else s.lastName + " " + s.firstName)
    + (if s.wave.Some? then ": " + Label(s.wave.value) else "")
  }

  /** A student that a line can describe: a non-empty last name without
      spaces, names without colons and without blanks at their ends. */
  predicate WritableStudent(s: ParsedStudent) {
    && s.lastName != [] && IsTrimmed(s.lastName) && ' ' !in s.lastName
    && IsTrimmed(s.firstName)
    && ':' !in s.lastName && ':' !in s.firstName
  }

  /** The suffix `: W` is found right after a name that does not end in a blank. */
  lemma WaveSuffixFound(name: string, w: Wave)
    requires name != [] && !IsSpace(name[|name| - 1])
    ensures WaveSuffix(name + ": " + Label(w)) == Some((|name|, w))
  {
    var b := name + ": " + Label(w);
    var n := |name|;
    assert |b| == n + 3;
    assert b[n + 2] == Label(w)[0] && b[n + 1] == ' ' && b[n] == ':';
    assert b[n - 1] == name[n - 1];
    assert SpaceTail(b, n + 3) == n + 3;
    assert SpaceTail(b, n + 2) == SpaceTail(b, n + 1) == n + 1;
    assert SpaceTail(b, n) == n;
    assert IsWaveLetter(b[n + 2]) && LetterWave(b[n + 2]) == w;
  }

  /** A text without a colon has no wave suffix. */
  lemma NoColonNoSuffix(b: string)
    requires ':' !in b
    ensures WaveSuffix(b) == None
  {
  }

  /** The name part splits at its first space. */
  lemma SplitName(last: string, first: string)
    requires last != [] && ' ' !in last && IsTrimmed(first)
    ensures var name := if first == "" then last else last + " " + first;
            var firstSpace := IndexOf(name, " ", 0);
            && (first == "" ==> firstSpace == None)
            && (first != "" ==> firstSpace == Some(|last|) && name[..|last|] == last && name[|last| + 1..] == first)
  {
    if first == "" {
      IndexOfAbsentChar(last, ' ');
    } else {
      var name := last + " " + first;
      forall j | 0 <= j < |last| ensures !OccursAt(name, " ", j) {
        assert name[j..j + 1][0] == last[j];
      }
      assert name[|last|..|last| + 1] == " ";
      IndexOfFirst(name, " ", |last|);
      assert name[..|last|] == last;
      assert name[|last| + 1..] == first;
    }
  }

  /** The name written on a student's line, before any wave. */
  function WrittenName(s: ParsedStudent): string {
    if s.firstName == "" then s.lastName else s.lastName + " " + s.firstName
  }

  /** On a student's line the wave suffix is found exactly when the student
      has a wave, and the name part is the written name. */
  lemma FormatSuffix(s: ParsedStudent)
    requires WritableStudent(s)
    ensures var b := FormatStudentLine(s);
            && (if s.wave.Some? then WaveSuffix(b) == Some((|WrittenName(s)|, s.wave.value)) else WaveSuffix(b) == None)
            && SuffixWave(b) == s.wave
            && NamePart(b) == WrittenName(s)
  {
    var name := WrittenName(s);
    var b := FormatStudentLine(s);
    WrittenNameEnds(s);
    if s.wave.Some? {
      assert b == name + ": " + Label(s.wave.value);
      NameThenWave(name, s.wave.value);
    } else {
      assert b == name;
      NoColonNoSuffix(name);
      TrimTrimmed(name);
    }
  }

  /** The written name is neither empty nor blank at its ends, and holds no colon. */
  lemma WrittenNameEnds(s: ParsedStudent)
    requires WritableStudent(s)
    ensures var name := WrittenName(s);
            name != [] && !IsSpace(name[0]) && !IsSpace(name[|name| - 1]) && IsTrimmed(name) && ':' !in name
  {
    var name := WrittenName(s);
    assert name[0] == s.lastName[0];
    assert name[|name| - 1] == if s.firstName == "" then s.lastName[|s.lastName| - 1] else s.firstName[|s.firstName| - 1];
    TrimNoEnds(name);
  }

  /** A name followed by `: W` is found again, with its wave. */
  lemma NameThenWave(name: string, w: Wave)
    requires name != [] && !IsSpace(name[|name| - 1]) && IsTrimmed(name)
    ensures var b := name + ": " + Label(w);
            WaveSuffix(b) == Some((|name|, w)) && SuffixWave(b) == Some(w) && NamePart(b) == name
  {
    var b := name + ": " + Label(w);
    WaveSuffixFound(name, w);
    assert b[..|name|] == name;
    TrimTrimmed(name);
  }

  /** Writing a student as a line and parsing the line gives the student back. */
  lemma ParseFormatStudent(s: ParsedStudent)
    requires WritableStudent(s)
    ensures ParseStudentLine(FormatStudentLine(s)) == s
  {
    FormatSuffix(s);
    SplitWrittenName(s);
  }

  /** The written name splits back into the student's names. */
  lemma SplitWrittenName(s: ParsedStudent)
    requires WritableStudent(s)
    ensures SplitNamePart(WrittenName(s), s.wave) == s
  {
    SplitName(s.lastName, s.firstName);
    TrimTrimmed(s.firstName);
  }

  /** The last name holds no space and does not start with a blank, the
      first name comes trimmed, and a first name is only found after a last
      name. */
  lemma ParsedNames(bullet: string)
    ensures var r := ParseStudentLine(bullet);
            && ' ' !in r.lastName && (r.lastName == [] || !IsSpace(r.lastName[0]))
            && IsTrimmed(r.firstName)
            && (r.lastName == [] ==> r.firstName == [])
  {
    var namePart := NamePart(bullet);
    var firstSpace := IndexOf(namePart, " ", 0);
    if firstSpace.Some? {
      var k := firstSpace.value;
      OccursAtChar(namePart, ' ', k);
      forall j | 0 <= j < k ensures namePart[j] != ' ' {
        OccursAtChar(namePart, ' ', j);
      }
      assert forall c :: c in namePart[..k] ==> c != ' ';
    } else {
      forall j | 0 <= j < |namePart| ensures namePart[j] != ' ' {
        OccursAtChar(namePart, ' ', j);
      }
    }
  }

  /*********************************************************************
   * One class
   *********************************************************************/

  /** The lower-case keys the lines of a class are recognised by. */
  const NiveauKey := "niveau"
  const TeacherKey := "instituteur"
  const HeaderKey := "\U{E9}l\U{E8}ves"

  /** From `p` on, no character that the regular-expression `.` refuses. */
  predicate OneLineFrom(s: string, p: nat) {
    forall i :: p <= i < |s| ==> !IsLineTerminator(s[i])
  }

  /** From index `i` on, the letters of `s` are those of `key` whatever
      their case. */
  predicate KeyFrom(s: string, key: string, i: nat)
    requires |key| <= |s|
    decreases |key| - i
  {
    i >= |key| || (LowerChar(s[i]) == key[i] && KeyFrom(s, key, i + 1))
  }

  /** `s` starts with `key` whatever the case of its letters. */
  predicate StartsWithKey(s: string, key: string) {
    |key| <= |s| && KeyFrom(s, key, 0)
  }

  /** The match of `\s*:\s*(.+)$` at index `p` of `s`: the captured text,
      trimmed. The greedy blanks leave `(.+)` the text after them; when only
      blanks follow the colon, the engine gives back the last of them. */
  function FieldAt(s: string, p: nat): Option<string>
    requires p <= |s|
  {
    var t := SkipSpace(s, p);
    if t == |s| || s[t] != ':' then None
    else
      var v := SkipSpace(s, t + 1);
      if v < |s| then (if OneLineFrom(s, v) then Some(Trim(s[v..])) else None)
      else if t + 1 < |s| && !IsLineTerminator(s[|s| - 1]) then Some("")
      else None
  }

  /** `^niveau\s*:\s*(.+)$` (flag `i`). */
  function NiveauValue(line: string): Option<string> {
    if StartsWithKey(line, NiveauKey) then FieldAt(line, |NiveauKey|) else None
  }

  /** `^instituteur(?:e?)?\s*:\s*(.+)$` (flag `i`): an `e` after the key
      is taken when present, since neither a blank nor the colon can match it. */
  function TeacherValue(line: string): Option<string> {
    if StartsWithKey(line, TeacherKey) then
      var p := |TeacherKey|;
      if p < |line| && LowerChar(line[p]) == 'e' then FieldAt(line, p + 1) else FieldAt(line, p)
    else None
  }

  /** `\s*:\s*$` at index `p` of `s`. */
  predicate EmptyFieldAt(s: string, p: nat)
    requires p <= |s|
  {
    var t := SkipSpace(s, p);
    t < |s| && s[t] == ':' && SkipSpace(s, t + 1) == |s|
  }

  /** `^élèves\s*:\s*$` (flag `i`), or `line.toLowerCase() === 'élèves'`. */
  predicate IsHeader(line: string) {
    StartsWithKey(line, HeaderKey) && (EmptyFieldAt(line, |HeaderKey|) || |line| == |HeaderKey|)
  }

  /** `/^\s*-\s+/.test(line)`; `line.startsWith('- ')` is a special case. */
  predicate IsBullet(line: string) {
    var t := SkipSpace(line, 0);
    t + 1 < |line| && line[t] == '-' && IsSpace(line[t + 1])
  }

  /** `line.replace(/^\s*-\s+/, '').trim()`. */
  function BulletText(line: string): string {
    if IsBullet(line) then Trim(line[SkipSpace(line, 0) + 1..]) else Trim(line)
  }

  /** What the three regular expressions and the bullet test of the first
      loop make of a line, in the order the loop tries them. */
  datatype LineKind =
    | NiveauLine(niveau: string)
    | TeacherLine(teacherName: string)
    | HeaderLine
    | OtherLine(bullet: bool, student: Option<ParsedStudent>)

  function Classify(line: string): LineKind {
    var niveau := NiveauValue(line);
    var teacher := TeacherValue(line);
    if niveau.Some? then NiveauLine(niveau.value)
    else if teacher.Some? then TeacherLine(teacher.value)
    else if IsHeader(line) then HeaderLine
    else
      var bullet := BulletText(line);
      OtherLine(IsBullet(line), if bullet == [] then None else Some(ParseStudentLine(bullet)))
  }

  /** The variables of the first loop of `parseClassFromText`. */
  datatype ParseState = ParseState(niveau: string, teacherName: string, students: seq<ParsedStudent>, inStudents: bool)

  const Start := ParseState("", "", [], false)

  /** One turn of the first loop: field lines set their field and leave the
      student list, the header enters it, and a bullet (or any line inside
      the list) with some text adds a student. */
  function Step(st: ParseState, kind: LineKind): ParseState {
    match kind
    case NiveauLine(v) => st.(niveau := v, inStudents := false)
    case TeacherLine(v) => st.(teacherName := v, inStudents := false)
    case HeaderLine => st.(inStudents := true)
    case OtherLine(bullet, student) =>
      if (st.inStudents || bullet) && student.Some? then
        st.(students := st.students + [student.value], inStudents := true)
      else st
  }

  /** The kinds of the lines, in order. */
  function Kinds(lines: seq<string>): (kinds: seq<LineKind>)
    ensures |kinds| == |lines|
  {
    seq(|lines|, i requires 0 <= i < |lines| => Classify(lines[i]))
  }

  /** The first loop run over lines of the given kinds from `st`. */
  function ReadFrom(st: ParseState, kinds: seq<LineKind>): ParseState {
    if |kinds| == 0 then st else Step(ReadFrom(st, kinds[..|kinds| - 1]), kinds[|kinds| - 1])
  }

  function ReadLines(lines: seq<string>): ParseState {
    ReadFrom(Start, Kinds(lines))
  }

  /** What the second loop takes from a line: the student of a bullet
      line with some text. */
  function BulletOf(line: string): Option<ParsedStudent> {
    if IsBullet(line) then
      var bullet := BulletText(line);
      if bullet == [] then None else Some(ParseStudentLine(bullet))
    else None
  }

  /** The values present, in order. */
  function Present<T>(xs: seq<Option<T>>): seq<T> {
    if |xs| == 0 then []
    else Present(xs[..|xs| - 1]) + (if xs[|xs| - 1].Some? then [xs[|xs| - 1].value] else [])
  }

  /** The second loop: every bullet line with some text gives a student. */
  function BulletStudents(lines: seq<string>): seq<ParsedStudent> {
    Present(seq(|lines|, i requires 0 <= i < |lines| => BulletOf(lines[i])))
  }

  /** The trimmed pieces that are not blank. */
  function NonBlank(pieces: seq<string>): seq<string> {
    if |pieces| == 0 then []
    else (if Trim(pieces[0]) == [] then [] else [Trim(pieces[0])]) + NonBlank(pieces[1..])
  }

  /** `text.split(/\r?\n/).map((l) => l.trim()).filter(Boolean)`: a carriage
      return left at the end of a piece by splitting on the line feed alone
      is blank, so trimming removes it as the regular expression would. */
  function Lines(text: string): seq<string> {
    NonBlank(SplitOn(text, "\n"))
  }

  /** `parseClassFromText`: the first loop, then the bullets of the second
      loop when the first one found no student. */
  function ParseClass(text: string): ParsedClass {
    var lines := Lines(text);
    var st := ReadLines(lines);
    ParsedClass(st.niveau, st.teacherName, if |st.students| == 0 then BulletStudents(lines) else st.students)
  }

  /** `parseClassFromText` with its two loops. */
  method ParseClassFromText(text: string) returns (r: ParsedClass)
    ensures r == ParseClass(text)
  {
    var lines := Lines(text);
    var niveau, teacherName, students, inStudents := "", "", [], false;
    for i := 0 to |lines|
      invariant ParseState(niveau, teacherName, students, inStudents) == ReadLines(lines[..i])
    {
      LineTurn(lines, i);
      ghost var st := ReadLines(lines[..i]);
      var line := lines[i];
      var niveauMatch := NiveauValue(line);
      var teacherMatch := TeacherValue(line);
      if niveauMatch.Some? {
        TurnNiveau(st, line);
        inStudents := false;
        niveau := niveauMatch.value;
        continue;
      }
      if teacherMatch.Some? {
        TurnTeacher(st, line);
        inStudents := false;
        teacherName := teacherMatch.value;
        continue;
      }
      if IsHeader(line) {
        TurnHeader(st, line);
        inStudents := true;
        continue;
      }
      if inStudents || IsBullet(line) {
        var bullet := BulletText(line);
        if bullet == [] {
          TurnSkip(st, line);
          continue;
        }
        TurnAdd(st, line);
        students := students + [ParseStudentLine(bullet)];
        inStudents := true;
      } else {
        TurnSkip(st, line);
      }
    }
    assert lines[..|lines|] == lines;
    if |students| == 0 {
      for i := 0 to |lines|
        invariant students == BulletStudents(lines[..i])
      {
        BulletNext(lines, i);
        var line := lines[i];
        if IsBullet(line) {
          var bullet := BulletText(line);
          if bullet == [] {
            continue;
          }
          students := students + [ParseStudentLine(bullet)];
        }
      }
      assert lines[..|lines|] == lines;
    }
    r := ParsedClass(niveau, teacherName, students);
  }

  /*********************************************************************
   * What the class parser does
   *********************************************************************/

  /** A line whose first letter is not the key's first letter is no key line. */
  lemma NotKey(line: string, key: string)
    requires key != [] && line != [] && LowerChar(line[0]) != key[0]
    ensures !StartsWithKey(line, key)
  {
  }

  /** No line is both a `niveau` line and an `instituteur` line. */
  lemma KeysExclusive(line: string)
    ensures TeacherValue(line).Some? ==> NiveauValue(line).None?
  {
  }

  /** A trimmed bullet line is neither a field line nor the header, and it
      has some text after its dash. */
  lemma BulletIsOther(line: string)
    requires IsTrimmed(line) && IsBullet(line)
    ensures NiveauValue(line).None? && TeacherValue(line).None? && !IsHeader(line)
    ensures BulletText(line) == Trim(line[1..]) != []
  {
    var rest := line[1..];
    assert rest[|rest| - 1] == line[|line| - 1];
    TrimEmpty(rest);
  }

  /** A trimmed bullet line is read as a bullet with the text after its dash. */
  lemma BulletKind(line: string)
    requires IsTrimmed(line) && IsBullet(line)
    ensures Trim(line[1..]) != [] && Classify(line) == OtherLine(true, Some(ParseStudentLine(Trim(line[1..]))))
  {
    BulletIsOther(line);
  }

  /** Each bullet line adds exactly one student, the one its text describes,
      and opens the student list. */
  lemma BulletAdds(st: ParseState, line: string)
    requires IsTrimmed(line) && IsBullet(line)
    ensures Step(st, Classify(line)) == st.(students := st.students + [ParseStudentLine(Trim(line[1..]))], inStudents := true)
  {
    BulletKind(line);
  }

  /** A line that matches none of the three expressions is read by its
      bullet test and its text. */
  lemma OtherKind(line: string)
    requires NiveauValue(line).None? && TeacherValue(line).None? && !IsHeader(line)
    ensures Classify(line).OtherLine? && Classify(line).bullet == IsBullet(line)
    ensures Classify(line).student.Some? <==> BulletText(line) != []
    ensures BulletText(line) != [] ==> Classify(line).student.value == ParseStudentLine(BulletText(line))
  {
  }

  /** A trimmed line that is not empty keeps some text after a dash, if it
      has one. */
  lemma TextKept(line: string)
    requires line != [] && IsTrimmed(line)
    ensures BulletText(line) != []
  {
    if IsBullet(line) {
      BulletIsOther(line);
    } else {
      TrimTrimmed(line);
    }
  }

  /** Inside the student list every line that is no field and no header adds
      a student, with or without a dash. */
  lemma ListLineAdds(st: ParseState, line: string)
    requires st.inStudents && line != [] && IsTrimmed(line)
    requires NiveauValue(line).None? && TeacherValue(line).None? && !IsHeader(line)
    ensures BulletText(line) != []
    ensures Step(st, Classify(line)) == st.(students := st.students + [ParseStudentLine(BulletText(line))])
  {
    TextKept(line);
    OtherKind(line);
  }

  /** What one turn of the first loop does to the two fields and to the
      students. */
  lemma StepFields(st: ParseState, kind: LineKind)
    ensures Step(st, kind).niveau == if kind.NiveauLine? then kind.niveau else st.niveau
    ensures Step(st, kind).teacherName == if kind.TeacherLine? then kind.teacherName else st.teacherName
    ensures st.students <= Step(st, kind).students
  {
  }

  /** No `niveau` line from index `i` on. */
  predicate NoNiveauFrom(kinds: seq<LineKind>, i: int) {
    forall j :: i <= j < |kinds| && 0 <= j ==> !kinds[j].NiveauLine?
  }

  /** No `instituteur` line from index `i` on. */
  predicate NoTeacherFrom(kinds: seq<LineKind>, i: int) {
    forall j :: i <= j < |kinds| && 0 <= j ==> !kinds[j].TeacherLine?
  }

  /** The `niveau` of the result is the value of the last `niveau` line, or
      what it was before when there is none. */
  lemma {:induction false} NiveauIsLast(st: ParseState, kinds: seq<LineKind>)
    ensures NoNiveauFrom(kinds, 0) ==> ReadFrom(st, kinds).niveau == st.niveau
    ensures forall i :: 0 <= i < |kinds| && kinds[i].NiveauLine? && NoNiveauFrom(kinds, i + 1)
                        ==> ReadFrom(st, kinds).niveau == kinds[i].niveau
  {
    if |kinds| > 0 {
      var n := |kinds|;
      var init := kinds[..n - 1];
      NiveauIsLast(st, init);
      var prev := ReadFrom(st, init);
      assert ReadFrom(st, kinds) == Step(prev, kinds[n - 1]);
      StepFields(prev, kinds[n - 1]);
      if NoNiveauFrom(kinds, 0) {
        assert NoNiveauFrom(init, 0);
      }
      forall i | 0 <= i < n && kinds[i].NiveauLine? && NoNiveauFrom(kinds, i + 1)
        ensures ReadFrom(st, kinds).niveau == kinds[i].niveau
      {
        if i < n - 1 {
          assert !kinds[n - 1].NiveauLine?;
          assert init[i] == kinds[i];
          assert NoNiveauFrom(init, i + 1);
        }
      }
    }
  }

  /** The teacher of the result is the value of the last `instituteur` line,
      or what it was before when there is none. */
  lemma {:induction false} TeacherIsLast(st: ParseState, kinds: seq<LineKind>)
    ensures NoTeacherFrom(kinds, 0) ==> ReadFrom(st, kinds).teacherName == st.teacherName
    ensures forall i :: 0 <= i < |kinds| && kinds[i].TeacherLine? && NoTeacherFrom(kinds, i + 1)
                        ==> ReadFrom(st, kinds).teacherName == kinds[i].teacherName
  {
    if |kinds| > 0 {
      var n := |kinds|;
      var init := kinds[..n - 1];
      TeacherIsLast(st, init);
      var prev := ReadFrom(st, init);
      assert ReadFrom(st, kinds) == Step(prev, kinds[n - 1]);
      StepFields(prev, kinds[n - 1]);
      if NoTeacherFrom(kinds, 0) {
        assert NoTeacherFrom(init, 0);
      }
      forall i | 0 <= i < n && kinds[i].TeacherLine? && NoTeacherFrom(kinds, i + 1)
        ensures ReadFrom(st, kinds).teacherName == kinds[i].teacherName
      {
        if i < n - 1 {
          assert !kinds[n - 1].TeacherLine?;
          assert init[i] == kinds[i];
          assert NoTeacherFrom(init, i + 1);
        }
      }
    }
  }

  /** A line is read as a `niveau` line exactly when it matches that
      expression, and then carries the captured value; likewise for the
      teacher, which is only tried when the `niveau` expression fails. */
  lemma KindOfLine(line: string)
    ensures Classify(line).NiveauLine? <==> NiveauValue(line).Some?
    ensures Classify(line).NiveauLine? ==> Classify(line).niveau == NiveauValue(line).value
    ensures Classify(line).TeacherLine? <==> TeacherValue(line).Some?
    ensures Classify(line).TeacherLine? ==> Classify(line).teacherName == TeacherValue(line).value
  {
    KeysExclusive(line);
  }

  /** The class's `niveau` is the value of the last line matching
      `^niveau\s*:\s*(.+)$`, or empty when no line does. */
  lemma LastNiveauWins(text: string)
    ensures var lines := Lines(text);
            && ((forall i :: 0 <= i < |lines| ==> NiveauValue(lines[i]).None?) ==> ParseClass(text).niveau == "")
            && (forall i :: 0 <= i < |lines| && NiveauValue(lines[i]).Some?
                            && (forall j :: i < j < |lines| ==> NiveauValue(lines[j]).None?)
                            ==> ParseClass(text).niveau == NiveauValue(lines[i]).value)
  {
    var lines := Lines(text);
    var kinds := Kinds(lines);
    forall i | 0 <= i < |lines| ensures kinds[i].NiveauLine? <==> NiveauValue(lines[i]).Some? {
      KindOfLine(lines[i]);
    }
    NiveauIsLast(Start, kinds);
    forall i | 0 <= i < |lines| && NiveauValue(lines[i]).Some? && (forall j :: i < j < |lines| ==> NiveauValue(lines[j]).None?)
      ensures ParseClass(text).niveau == NiveauValue(lines[i]).value
    {
      KindOfLine(lines[i]);
      assert NoNiveauFrom(kinds, i + 1);
    }
  }

  /** The last line matching `^instituteur(?:e?)?\s*:\s*(.+)$` names the
      teacher, or it is empty when no line does. */
  lemma LastTeacherWins(text: string)
    ensures var lines := Lines(text);
            && ((forall i :: 0 <= i < |lines| ==> TeacherValue(lines[i]).None?) ==> ParseClass(text).teacherName == "")
            && (forall i :: 0 <= i < |lines| && TeacherValue(lines[i]).Some?
                            && (forall j :: i < j < |lines| ==> TeacherValue(lines[j]).None?)
                            ==> ParseClass(text).teacherName == TeacherValue(lines[i]).value)
  {
    var lines := Lines(text);
    var kinds := Kinds(lines);
    forall i | 0 <= i < |lines| ensures kinds[i].TeacherLine? <==> TeacherValue(lines[i]).Some? {
      KindOfLine(lines[i]);
    }
    TeacherIsLast(Start, kinds);
    forall i | 0 <= i < |lines| && TeacherValue(lines[i]).Some? && (forall j :: i < j < |lines| ==> TeacherValue(lines[j]).None?)
      ensures ParseClass(text).teacherName == TeacherValue(lines[i]).value
    {
      KindOfLine(lines[i]);
      assert NoTeacherFrom(kinds, i + 1);
    }
  }

  /** The first loop adds at least one student per line that the second
      loop would take, and never drops one, as long as each such line is read
      as a bullet by the first loop too. */
  lemma {:induction false} StudentsCounted(st: ParseState, kinds: seq<LineKind>, bullets: seq<Option<ParsedStudent>>)
    requires |kinds| == |bullets|
    requires forall i :: 0 <= i < |bullets| && bullets[i].Some? ==> kinds[i] == OtherLine(true, bullets[i])
    ensures |st.students| + |Present(bullets)| <= |ReadFrom(st, kinds).students|
  {
    if |kinds| > 0 {
      var n := |kinds|;
      StudentsCounted(st, kinds[..n - 1], bullets[..n - 1]);
      StepFields(ReadFrom(st, kinds[..n - 1]), kinds[n - 1]);
    }
  }

  /** On a trimmed line, what the second loop takes is what the first loop
      takes as a bullet. */
  lemma BulletSeen(line: string)
    requires IsTrimmed(line)
    ensures BulletOf(line).Some? ==> Classify(line) == OtherLine(true, BulletOf(line))
  {
    if IsBullet(line) {
      BulletKind(line);
      BulletIsOther(line);
    }
  }

  /** One more line is one more turn of the first loop. */
  lemma ReadNext(st: ParseState, lines: seq<string>, i: nat)
    requires i < |lines|
    ensures ReadFrom(st, Kinds(lines[..i + 1])) == Step(ReadFrom(st, Kinds(lines[..i])), Classify(lines[i]))
  {
    assert Kinds(lines[..i + 1])[..i] == Kinds(lines[..i]);
  }

  /** One turn of the first loop on a `niveau` line. */
  lemma TurnNiveau(st: ParseState, line: string)
    requires NiveauValue(line).Some?
    ensures Step(st, Classify(line)) == st.(niveau := NiveauValue(line).value, inStudents := false)
  {
  }

  /** One turn of the first loop on an `instituteur` line. */
  lemma TurnTeacher(st: ParseState, line: string)
    requires NiveauValue(line).None? && TeacherValue(line).Some?
    ensures Step(st, Classify(line)) == st.(teacherName := TeacherValue(line).value, inStudents := false)
  {
  }

  /** One turn of the first loop on the header. */
  lemma TurnHeader(st: ParseState, line: string)
    requires NiveauValue(line).None? && TeacherValue(line).None? && IsHeader(line)
    ensures Step(st, Classify(line)) == st.(inStudents := true)
  {
  }

  /** One turn of the first loop on a line with text that is a bullet or
      sits in the student list: it adds the student the text describes. */
  lemma TurnAdd(st: ParseState, line: string)
    requires NiveauValue(line).None? && TeacherValue(line).None? && !IsHeader(line)
    requires (st.inStudents || IsBullet(line)) && BulletText(line) != []
    ensures Step(st, Classify(line)) == st.(students := st.students + [ParseStudentLine(BulletText(line))], inStudents := true)
  {
    assert Classify(line) == OtherLine(IsBullet(line), Some(ParseStudentLine(BulletText(line))));
  }

  /** One turn of the first loop on any other line: nothing changes. */
  lemma TurnSkip(st: ParseState, line: string)
    requires NiveauValue(line).None? && TeacherValue(line).None? && !IsHeader(line)
    requires !(st.inStudents || IsBullet(line)) || BulletText(line) == []
    ensures Step(st, Classify(line)) == st
  {
  }

  /** One more line is one more turn of the first loop. */
  lemma LineTurn(lines: seq<string>, i: nat)
    requires i < |lines|
    ensures ReadLines(lines[..i + 1]) == Step(ReadLines(lines[..i]), Classify(lines[i]))
  {
    ReadNext(Start, lines, i);
  }

  /** One more line is one more turn of the second loop. */
  lemma BulletNext(lines: seq<string>, i: nat)
    requires i < |lines|
    ensures BulletStudents(lines[..i + 1])
         == BulletStudents(lines[..i]) + (if BulletOf(lines[i]).Some? then [BulletOf(lines[i]).value] else [])
  {
    var xs := seq(i + 1, j requires 0 <= j < i + 1 => BulletOf(lines[..i + 1][j]));
    assert xs[..i] == seq(i, j requires 0 <= j < i => BulletOf(lines[..i][j]));
  }

  /** Every line is trimmed and not empty. */
  lemma {:induction false} NonBlankTrimmed(pieces: seq<string>)
    ensures forall i :: 0 <= i < |NonBlank(pieces)| ==> NonBlank(pieces)[i] != [] && IsTrimmed(NonBlank(pieces)[i])
  {
    if |pieces| > 0 {
      NonBlankTrimmed(pieces[1..]);
    }
  }

  lemma LinesTrimmed(text: string)
    ensures forall i :: 0 <= i < |Lines(text)| ==> Lines(text)[i] != [] && IsTrimmed(Lines(text)[i])
  {
    NonBlankTrimmed(SplitOn(text, "\n"));
  }

  /** The second loop of `parseClassFromText` never adds anything: every
      bullet line already gave a student in the first loop, so when that
      loop found none there is no bullet line with text. */
  lemma SecondPassAddsNothing(text: string)
    ensures ParseClass(text).students == ReadLines(Lines(text)).students
  {
    var lines := Lines(text);
    var bullets := seq(|lines|, i requires 0 <= i < |lines| => BulletOf(lines[i]));
    LinesTrimmed(text);
    forall i | 0 <= i < |lines| && bullets[i].Some? ensures Kinds(lines)[i] == OtherLine(true, bullets[i]) {
      BulletSeen(lines[i]);
    }
    StudentsCounted(Start, Kinds(lines), bullets);
  }

  /*********************************************************************
   * Several classes
   *********************************************************************/

  /** The blocks of a batch: the text split at the regular expression
      `\s*---\s*`, each piece trimmed, blank pieces dropped. The blanks that
      `\s*` takes around a separator are trimmed away anyway, so splitting
      on `---` alone and trimming gives the same blocks. */
  function Blocks(text: string): seq<string> {
    NonBlank(SplitOn(text, "---"))
  }

  /** `parseClassesBatchFromText`: one class per block, in order. */
  function ParseBatch(text: string): seq<ParsedClass> {
    var blocks := Blocks(text);
    seq(|blocks|, i requires 0 <= i < |blocks| => ParseClass(blocks[i]))
  }

  /** Trimming keeps a slice of the text. */
  lemma TrimIsSlice(s: string)
    ensures var k := SkipSpace(s, 0);
            k + |Trim(s)| <= |s| && Trim(s) == s[k..k + |Trim(s)|]
  {
  }

  /** A slice of a text without `sep` has no `sep` either. */
  lemma FreeSlice(s: string, sep: string, k: nat, m: nat)
    requires k <= m <= |s|
    requires forall j :: 0 <= j ==> !OccursAt(s, sep, j)
    ensures forall j :: 0 <= j ==> !OccursAt(s[k..m], sep, j)
  {
    forall j | 0 <= j && OccursAt(s[k..m], sep, j) ensures false {
      var w := s[k..m][j..j + |sep|];
      assert forall i :: 0 <= i < |sep| ==> w[i] == s[k + j + i];
      assert w == s[k + j..k + j + |sep|];
      assert OccursAt(s, sep, k + j);
    }
  }

  /** The blocks kept hold no separator. */
  lemma {:induction false} NonBlankFree(pieces: seq<string>, sep: string)
    requires forall k, j :: 0 <= k < |pieces| && 0 <= j ==> !OccursAt(pieces[k], sep, j)
    ensures forall k, j :: 0 <= k < |NonBlank(pieces)| && 0 <= j ==> !OccursAt(NonBlank(pieces)[k], sep, j)
  {
    if |pieces| > 0 {
      NonBlankFree(pieces[1..], sep);
      TrimIsSlice(pieces[0]);
      var k := SkipSpace(pieces[0], 0);
      FreeSlice(pieces[0], sep, k, k + |Trim(pieces[0])|);
    }
  }

  /** Every block is trimmed, not empty, and holds no separator. */
  lemma BlocksClean(text: string)
    ensures forall i :: 0 <= i < |Blocks(text)| ==> Blocks(text)[i] != [] && IsTrimmed(Blocks(text)[i])
    ensures forall i, j :: 0 <= i < |Blocks(text)| && 0 <= j ==> !OccursAt(Blocks(text)[i], "---", j)
  {
    NonBlankTrimmed(SplitOn(text, "---"));
    SplitPiecesFree(text, "---");
    NonBlankFree(SplitOn(text, "---"), "---");
  }

  /** Without a separator the text is one class, or none when it is blank. */
  lemma SingleBlock(text: string)
    requires forall j :: 0 <= j ==> !OccursAt(text, "---", j)
    ensures ParseBatch(text) == if Trim(text) == [] then [] else [ParseClass(Trim(text))]
  {
    assert IndexOf(text, "---", 0) == None;
    assert SplitOn(text, "---") == [text];
    assert Blocks(text) == NonBlank([text]);
    assert [text][1..] == [];
    assert Blocks(text) == if Trim(text) == [] then [] else [Trim(text)];
  }
}
