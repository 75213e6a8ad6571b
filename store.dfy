/** The persisted state (src/store.js): the default wave times, the
    normalisation of a time typed by the user into the `HH:MM` form of a
    time input, and what `load` makes of a saved state. Reading and
    writing the browser's storage and parsing JSON are not modelled: the
    saved state arrives as a value, absent when there is none or it does
    not parse. */
module Store {

  import opened Wrappers
  import opened Text
  import opened DataModel
  import opened Sequences

  /** The start and end time of one wave. */
  datatype Slot = Slot(start: string, end: string)

  /** `defaultWaveTimes`. */
  function DefaultSlot(w: Wave): Slot {
    match w
    case A => Slot("17:00", "17:25")
    case B => Slot("17:30", "17:50")
    case C => Slot("17:55", "18:15")
    case D => Slot("18:20", "18:40")
  }

  /*********************************************************************
   * normalizeTimeForInput
   *********************************************************************/

  /** Every character is an ASCII digit, as `\d` matches. */
  predicate AllDigits(s: string) {
    forall i :: 0 <= i < |s| ==> IsDigit(s[i])
  }

  /** The value of a decimal numeral. */
  function Number(s: string): nat
    requires AllDigits(s)
  {
    if s == [] then 0 else 10 * Number(s[..|s| - 1]) + (s[|s| - 1] as int - '0' as int)
  }

  /** The form a time input holds: two digits, ':', two digits. */
  predicate Canonical(s: string) {
    |s| == 5 && IsDigit(s[0]) && IsDigit(s[1]) && s[2] == ':' && IsDigit(s[3]) && IsDigit(s[4])
  }

  /** `padStart(2, '0')`. */
  function Pad2(h: string): string {
    if |h| == 0 then "00" else if |h| == 1 then "0" + h else h
  }

  /** `/^(\d{1,2}):(\d{2})$/` matches `t`. */
  predicate ColonForm(t: string) {
    (|t| == 4 || |t| == 5) && t[|t| - 3] == ':' && AllDigits(t[..|t| - 3]) && AllDigits(t[|t| - 2..])
  }

  /** `/^(\d{1,2})h?(\d{2})?$/` matches `t` with `a` digits in the first
      group, an 'h' when `withH`, and `b` digits in the second group. */
  predicate SplitsAs(t: string, a: nat, withH: bool, b: nat) {
    var hl := if withH then 1 else 0;
    (a == 1 || a == 2) && (b == 0 || b == 2) && |t| == a + hl + b
    && AllDigits(t[..a]) && (withH ==> t[a] == 'h') && AllDigits(t[a + hl..])
  }

  /** `t` is digits, an 'h' at position `p` (1 or 2), and no digit or two
      digits after it. */
  predicate HAt(t: string, p: nat) {
    (p == 1 || p == 2) && p < |t| && t[p] == 'h' && AllDigits(t[..p])
    && (|t| == p + 1 || |t| == p + 3) && AllDigits(t[p + 1..])
  }

  /** The two groups of `/^(\d{1,2})h?(\d{2})?$/`, with `'00'` for an
      absent second group, found by the case of the text's shape. */
  function HourForm(t: string): Option<(string, string)> {
    if AllDigits(t) && 1 <= |t| <= 2 then Some((t, "00"))
    else if AllDigits(t) && |t| == 3 then Some((t[..1], t[1..]))
    else if AllDigits(t) && |t| == 4 then Some((t[..2], t[2..]))
    else if HAt(t, 1) then Some((t[..1], if |t| == 2 then "00" else t[2..]))
    else if HAt(t, 2) then Some((t[..2], if |t| == 3 then "00" else t[3..]))
    else None
  }

  /** The case analysis finds a match exactly when the regular expression
      matches some way, and then the groups of every way it matches (there
      is only one). */
  lemma HourFormSpec(t: string)
    ensures HourForm(t).Some? <==> exists a: nat, withH, b: nat :: SplitsAs(t, a, withH, b)
    ensures forall a: nat, withH, b: nat :: SplitsAs(t, a, withH, b) ==>
              HourForm(t) == Some((t[..a], if b == 0 then "00" else t[a + (if withH then 1 else 0)..]))
  {
    if HourForm(t).Some? {
      if AllDigits(t) && 1 <= |t| <= 2 {
        assert SplitsAs(t, |t|, false, 0);
      } else if AllDigits(t) && |t| == 3 {
        assert SplitsAs(t, 1, false, 2);
      } else if AllDigits(t) && |t| == 4 {
        assert SplitsAs(t, 2, false, 2);
      } else if HAt(t, 1) {
        assert SplitsAs(t, 1, true, |t| - 2);
      } else {
        assert SplitsAs(t, 2, true, |t| - 3);
      }
    }
    forall a: nat, withH, b: nat | SplitsAs(t, a, withH, b)
      ensures HourForm(t) == Some((t[..a], if b == 0 then "00" else t[a + (if withH then 1 else 0)..]))
    {
      SplitMatches(t, a, withH, b);
    }
  }

  lemma SplitMatches(t: string, a: nat, withH: bool, b: nat)
    requires SplitsAs(t, a, withH, b)
    ensures HourForm(t) == Some((t[..a], if b == 0 then "00" else t[a + (if withH then 1 else 0)..]))
  {
    if withH {
      assert !AllDigits(t) by {
        assert !IsDigit(t[a]);
      }
      assert HAt(t, a);
      if a == 2 {
        assert t[..2][1] == t[1];
      }
    } else {
      assert t[..|t|] == t;
      assert AllDigits(t) by {
        forall i | 0 <= i < |t| ensures IsDigit(t[i]) {
          if i < a {
            assert t[..a][i] == t[i];
          } else {
            assert t[a..][i - a] == t[i];
          }
        }
      }
    }
  }

  /** `normalizeTimeForInput`: `None` stands for a missing or non-string
      value. */
  function NormalizeTime(val: Option<string>): string {
    if val.None? || val.value == "" then ""
    else
      var t := Trim(val.value);
      if ColonForm(t) then Pad2(t[..|t| - 3]) + ":" + t[|t| - 2..]
      else match HourForm(t)
        case Some(groups) => Pad2(groups.0) + ":" + groups.1
        case None => t
  }

  /** Padding a numeral to two digits keeps its value. */
  lemma Pad2Number(h: string)
    requires AllDigits(h) && 1 <= |h| <= 2
    ensures AllDigits(Pad2(h)) && |Pad2(h)| == 2 && Number(Pad2(h)) == Number(h)
  {
    if |h| == 1 {
      var p := Pad2(h);
      assert p[..1] == "0" && h[..0] == [] && p[1] == h[0];
      assert Number("0") == 0;
    }
  }

  /** A time written `H:MM` or `HH:MM` keeps its hour and minutes and is
      put in the `HH:MM` form. */
  lemma NormalizeColon(val: string)
    requires val != "" && ColonForm(Trim(val))
    ensures var t, r := Trim(val), NormalizeTime(Some(val));
            Canonical(r) && AllDigits(r[..2]) && AllDigits(r[3..])
            && Number(r[..2]) == Number(t[..|t| - 3]) && r[3..] == t[|t| - 2..]
  {
    var t, r := Trim(val), NormalizeTime(Some(val));
    var h := t[..|t| - 3];
    Pad2Number(h);
    assert r == Pad2(h) + ":" + t[|t| - 2..];
    assert r[..2] == Pad2(h);
    assert r[3..] == t[|t| - 2..];
  }

  /** A time written with digits and an optional 'h' (`9`, `930`, `9h`,
      `9h30`, `1730`, ...) keeps its hour and minutes, minutes 0 when
      none are written, and is put in the `HH:MM` form. */
  lemma NormalizeHour(val: string, a: nat, withH: bool, b: nat)
    requires val != "" && !ColonForm(Trim(val)) && SplitsAs(Trim(val), a, withH, b)
    ensures var t, r := Trim(val), NormalizeTime(Some(val));
            Canonical(r) && AllDigits(r[..2]) && AllDigits(r[3..])
            && Number(r[..2]) == Number(t[..a])
            && r[3..] == if b == 0 then "00" else t[|t| - 2..]
  {
    var t, r := Trim(val), NormalizeTime(Some(val));
    HourFormSpec(t);
    var h := t[..a];
    Pad2Number(h);
    var m := if b == 0 then "00" else t[a + (if withH then 1 else 0)..];
    assert r == Pad2(h) + ":" + m;
    assert r[..2] == Pad2(h);
    assert r[3..] == m;
  }

  /** Text the two expressions do not match comes back trimmed. */
  lemma NormalizeOther(val: string)
    requires val != "" && !ColonForm(Trim(val))
    requires forall a: nat, withH, b: nat :: !SplitsAs(Trim(val), a, withH, b)
    ensures NormalizeTime(Some(val)) == Trim(val)
  {
    HourFormSpec(Trim(val));
  }

  /** A time already in the `HH:MM` form is left as it is. */
  lemma NormalizeCanonical(c: string)
    requires Canonical(c)
    ensures NormalizeTime(Some(c)) == c
  {
    TrimNoEnds(c);
    assert ColonForm(c) by {
      assert c[..2][0] == c[0] && c[..2][1] == c[1];
      assert c[3..][0] == c[3] && c[3..][1] == c[4];
    }
    assert c[..2] + ":" + c[3..] == c;
  }

  /** Normalising a second time changes nothing. */
  lemma NormalizeIdempotent(val: Option<string>)
    ensures NormalizeTime(Some(NormalizeTime(val))) == NormalizeTime(val)
  {
    if val.Some? && val.value != "" {
      var t := Trim(val.value);
      if ColonForm(t) {
        NormalizeColon(val.value);
        NormalizeCanonical(NormalizeTime(val));
      } else if HourForm(t).Some? {
        HourFormSpec(t);
        var a, withH, b :| SplitsAs(t, a, withH, b);
        NormalizeHour(val.value, a, withH, b);
        NormalizeCanonical(NormalizeTime(val));
      } else if t != "" {
        TrimIdempotent(val.value);
      }
    }
  }

  /** The result is empty exactly for a missing value or one that is all
      blanks. */
  lemma NormalizeEmpty(val: Option<string>)
    ensures NormalizeTime(val) == "" <==> val.None? || Trim(val.value) == ""
  {
    if val.Some? && val.value != "" {
      var t := Trim(val.value);
      if t == "" {
        assert !ColonForm(t) && HourForm(t).None?;
      }
    }
  }

  /*********************************************************************
   * load
   *********************************************************************/

  /** A saved wave's times; `None` stands for a missing, null or
      non-string value. */
  datatype SavedSlot = SavedSlot(start: Option<string>, end: Option<string>)

  /** `rawWaveTimes[w]?.start` and `rawWaveTimes[w]?.end`. */
  function SavedStart(saved: map<Wave, SavedSlot>, w: Wave): Option<string> {
    if w in saved then saved[w].start else None
  }

  function SavedEnd(saved: map<Wave, SavedSlot>, w: Wave): Option<string> {
    if w in saved then saved[w].end else None
  }

  /** `normalizeTimeForInput(x ?? fallback) || fallback`. */
  function KeepTime(x: Option<string>, fallback: string): string {
    var n := NormalizeTime(if x.Some? then x else Some(fallback));
    if n == "" then fallback else n
  }

  /** The times `load` keeps for wave `w`. */
  function MergedSlot(saved: map<Wave, SavedSlot>, w: Wave): Slot {
    Slot(KeepTime(SavedStart(saved, w), DefaultSlot(w).start), KeepTime(SavedEnd(saved, w), DefaultSlot(w).end))
  }

  /** The loop of `load` over A, B, C and D. */
  method MergeWaveTimes(saved: map<Wave, SavedSlot>) returns (out: map<Wave, Slot>)
    ensures forall w: Wave :: w in out && out[w] == MergedSlot(saved, w)
  {
    out := map[];
    for i := 0 to |Waves|
      invariant forall k :: 0 <= k < i ==> Waves[k] in out && out[Waves[k]] == MergedSlot(saved, Waves[k])
    {
      var w := Waves[i];
      var def := DefaultSlot(w);
      var s := if w in saved && saved[w].start.Some? then saved[w].start.value else def.start;
      var e := if w in saved && saved[w].end.Some? then saved[w].end.value else def.end;
      var start := NormalizeTime(Some(s));
      if start == "" {
        start := def.start;
      }
      var end := NormalizeTime(Some(e));
      if end == "" {
        end := def.end;
      }
      assert Some(s) == if SavedStart(saved, w).Some? then SavedStart(saved, w) else Some(def.start);
      assert Some(e) == if SavedEnd(saved, w).Some? then SavedEnd(saved, w) else Some(def.end);
      assert Slot(start, end) == MergedSlot(saved, w);
      out := out[w := Slot(start, end)];
    }
    forall w: Wave ensures w in out && out[w] == MergedSlot(saved, w) {
      assert Waves[WaveIndex(w)] == w;
    }
  }

  /** The default times are all in the `HH:MM` form. */
  lemma DefaultsCanonical(w: Wave)
    ensures Canonical(DefaultSlot(w).start) && Canonical(DefaultSlot(w).end)
  {
  }

  /** A kept time is never empty: it is the saved time normalised, or the
      fallback, and the fallback when nothing is saved. */
  lemma KeepTimeSpec(x: Option<string>, fallback: string)
    requires Canonical(fallback)
    ensures var r := KeepTime(x, fallback);
            r != "" && (r == fallback || (x.Some? && r == NormalizeTime(x)))
            && (x.None? ==> r == fallback)
  {
    NormalizeCanonical(fallback);
  }

  /** Every loaded time is non-empty; it is the saved time normalised or
      the default, and the default whenever no time is saved. */
  lemma MergedSlotSpec(saved: map<Wave, SavedSlot>, w: Wave)
    ensures var r := MergedSlot(saved, w);
            r.start != "" && r.end != ""
            && (r.start == DefaultSlot(w).start
                || (SavedStart(saved, w).Some? && r.start == NormalizeTime(SavedStart(saved, w))))
            && (r.end == DefaultSlot(w).end
                || (SavedEnd(saved, w).Some? && r.end == NormalizeTime(SavedEnd(saved, w))))
            && (w !in saved ==> r == DefaultSlot(w))
  {
    DefaultsCanonical(w);
    KeepTimeSpec(SavedStart(saved, w), DefaultSlot(w).start);
    KeepTimeSpec(SavedEnd(saved, w), DefaultSlot(w).end);
  }

  /** The times as `save` writes them back. */
  function AsSaved(times: map<Wave, Slot>): map<Wave, SavedSlot> {
    map w | w in times :: SavedSlot(Some(times[w].start), Some(times[w].end))
  }

  /** A time kept by `load`, saved and loaded again, is kept as it is. */
  lemma KeepTimeStable(x: Option<string>, fallback: string)
    requires Canonical(fallback)
    ensures KeepTime(Some(KeepTime(x, fallback)), fallback) == KeepTime(x, fallback)
  {
    NormalizeCanonical(fallback);
    NormalizeIdempotent(if x.Some? then x else Some(fallback));
  }

  /** Loading times that were loaded and saved gives them back. */
  lemma MergeStable(saved: map<Wave, SavedSlot>, times: map<Wave, Slot>, w: Wave)
    requires forall v: Wave :: v in times && times[v] == MergedSlot(saved, v)
    ensures MergedSlot(AsSaved(times), w) == times[w]
  {
    DefaultsCanonical(w);
    KeepTimeStable(SavedStart(saved, w), DefaultSlot(w).start);
    KeepTimeStable(SavedEnd(saved, w), DefaultSlot(w).end);
    assert SavedStart(AsSaved(times), w) == Some(times[w].start);
    assert SavedEnd(AsSaved(times), w) == Some(times[w].end);
  }

  /** A saved state, as `JSON.parse` returns it; `None` fields are
      missing or null. */
  datatype Saved = Saved(classes: Option<seq<Class>>, siblingGroups: Option<seq<seq<Id>>>,
                         editingClassIds: Option<seq<Id>>, waveTimes: map<Wave, SavedSlot>)

  /** The application state. */
  datatype State = State(classes: seq<Class>, siblingGroups: seq<seq<Id>>,
                         editingClassIds: seq<Id>, toastClassIds: seq<Id>,
                         selectedStudentIds: seq<Id>, waveTimes: map<Wave, Slot>)

  /** `defaultState`. */
  function DefaultState(): State {
    State([], [], [], [], [], map[A := DefaultSlot(A), B := DefaultSlot(B), C := DefaultSlot(C), D := DefaultSlot(D)])
  }

  predicate IsClassId(classes: seq<Class>, id: Id) {
    exists k :: 0 <= k < |classes| && classes[k].id == id
  }

  /** `editingClassIds.filter((id) => classes.some((c) => c.id === id))`. */
  function KeepEditing(ids: seq<Id>, classes: seq<Class>): seq<Id> {
    if ids == [] then []
    else (if IsClassId(classes, ids[0]) then [ids[0]] else []) + KeepEditing(ids[1..], classes)
  }

  /** The kept ids are those that name a class, in their order. */
  lemma {:induction false} KeepEditingSpec(ids: seq<Id>, classes: seq<Class>)
    ensures forall id :: id in KeepEditing(ids, classes) <==> id in ids && IsClassId(classes, id)
    ensures SubseqOf(KeepEditing(ids, classes), ids)
  {
    if ids != [] {
      KeepEditingSpec(ids[1..], classes);
      var r := KeepEditing(ids[1..], classes);
      if !IsClassId(classes, ids[0]) && r != [] {
        assert r[0] in r;
      }
      assert ids == [ids[0]] + ids[1..];
      SubseqCons(ids[0], ids[1..], r, IsClassId(classes, ids[0]));
    }
  }

  function Or<T>(x: Option<T>, fallback: T): T {
    if x.Some? then x.value else fallback
  }

  /** `load`: the default state when nothing is saved; otherwise the saved
      classes and groups, the editing ids of classes that exist, no toast
      and no selection, and every wave's times merged with the defaults. */
  method Load(saved: Option<Saved>) returns (s: State)
    ensures saved.None? ==> s == DefaultState()
    ensures saved.Some? ==>
              s.classes == Or(saved.value.classes, [])
              && s.siblingGroups == Or(saved.value.siblingGroups, [])
              && s.editingClassIds == KeepEditing(Or(saved.value.editingClassIds, []), s.classes)
              && s.toastClassIds == [] && s.selectedStudentIds == []
              && forall w: Wave :: w in s.waveTimes && s.waveTimes[w] == MergedSlot(saved.value.waveTimes, w)
  {
    if saved.None? {
      return DefaultState();
    }
    var data := saved.value;
    var classes := Or(data.classes, []);
    var editing := KeepEditing(Or(data.editingClassIds, []), classes);
    var times := MergeWaveTimes(data.waveTimes);
    s := State(classes, Or(data.siblingGroups, []), editing, [], [], times);
  }

  /** A saved state without times loads the default times, as when nothing
      is saved. */
  lemma LoadedDefaults(w: Wave)
    ensures MergedSlot(map[], w) == DefaultState().waveTimes[w]
  {
    MergedSlotSpec(map[], w);
  }
}
