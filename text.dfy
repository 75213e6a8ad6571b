/** The JavaScript string primitives the program relies on: `trim`,
    splitting on `/\s+/` or on a literal separator, `toLowerCase`, and
    first-occurrence search. Strings are sequences of characters. */
module Text {

  import opened Wrappers

  /** JavaScript's white space, as matched by `\s` and removed by `trim`:
      the WhiteSpace and LineTerminator code points of ECMAScript. */
  predicate IsSpace(c: char) {
    || c == '\t' || c == '\n' || c == '\U{0B}' || c == '\U{0C}' || c == '\r'
    || c == ' ' || c == '\U{A0}' || c == '\U{1680}'
    || ('\U{2000}' <= c <= '\U{200A}')
    || c == '\U{2028}' || c == '\U{2029}' || c == '\U{202F}' || c == '\U{205F}'
    || c == '\U{3000}' || c == '\U{FEFF}'
  }

  /** A line terminator: the characters the regular-expression `.` does not match. */
  predicate IsLineTerminator(c: char) {
    c == '\n' || c == '\r' || c == '\U{2028}' || c == '\U{2029}'
  }

  predicate IsDigit(c: char) {
    '0' <= c <= '9'
  }

  predicate NoSpace(s: string) {
    forall i :: 0 <= i < |s| ==> !IsSpace(s[i])
  }

  /** `s` has neither leading nor trailing white space. */
  predicate IsTrimmed(s: string) {
    s == [] || (!IsSpace(s[0]) && !IsSpace(s[|s| - 1]))
  }

  /** The first index at or after `i` that does not hold white space. */
  function SkipSpace(s: string, i: nat): (k: nat)
    requires i <= |s|
    ensures i <= k <= |s|
    ensures k < |s| ==> !IsSpace(s[k])
    decreases |s| - i
  {
    if i < |s| && IsSpace(s[i]) then SkipSpace(s, i + 1) else i
  }

  /** Where the white space that ends `s[..n]` begins. */
  function SpaceTail(s: string, n: nat): (k: nat)
    requires n <= |s|
    ensures k <= n
    ensures k > 0 ==> !IsSpace(s[k - 1])
  {
    if n > 0 && IsSpace(s[n - 1]) then SpaceTail(s, n - 1) else n
  }

  /** What `SkipSpace` skips is white space. */
  lemma {:induction false} SkipSpaceDrops(s: string, i: nat)
    requires i <= |s|
    ensures forall j :: i <= j < SkipSpace(s, i) ==> IsSpace(s[j])
    decreases |s| - i
  {
    if i < |s| && IsSpace(s[i]) {
      SkipSpaceDrops(s, i + 1);
    }
  }

  /** What `SpaceTail` cuts off is white space. */
  lemma {:induction false} SpaceTailDrops(s: string, n: nat)
    requires n <= |s|
    ensures forall j :: SpaceTail(s, n) <= j < n ==> IsSpace(s[j])
  {
    if n > 0 && IsSpace(s[n - 1]) {
      SpaceTailDrops(s, n - 1);
    }
  }

  /** Over white space only, `SkipSpace` runs to the end. */
  lemma {:induction false} SkipAllSpace(s: string, i: nat)
    requires i <= |s|
    requires forall j :: i <= j < |s| ==> IsSpace(s[j])
    ensures SkipSpace(s, i) == |s|
    decreases |s| - i
  {
    if i < |s| {
      SkipAllSpace(s, i + 1);
    }
  }

  /** `SpaceTail` only looks at the characters before `n`. */
  lemma {:induction false} SpaceTailPrefix(s: string, t: string, n: nat)
    requires n <= |s| && n <= |t| && s[..n] == t[..n]
    ensures SpaceTail(s, n) == SpaceTail(t, n)
  {
    if n > 0 {
      assert s[n - 1] == s[..n][n - 1] == t[..n][n - 1] == t[n - 1];
      assert s[..n - 1] == s[..n][..n - 1];
      assert t[..n - 1] == t[..n][..n - 1];
      SpaceTailPrefix(s, t, n - 1);
    }
  }

  /** `SkipSpace` stops at the first character that is not white space. */
  lemma {:induction false} SkipOver(s: string, i: nat, k: nat)
    requires i <= k < |s| && !IsSpace(s[k])
    requires forall j :: i <= j < k ==> IsSpace(s[j])
    ensures SkipSpace(s, i) == k
    decreases k - i
  {
    if i < k {
      SkipOver(s, i + 1, k);
    }
  }

  /** `SpaceTail` stops after the last character that is not white space. */
  lemma {:induction false} TailOver(s: string, k: nat, n: nat)
    requires 0 < k <= n <= |s| && !IsSpace(s[k - 1])
    requires forall j :: k <= j < n ==> IsSpace(s[j])
    ensures SpaceTail(s, n) == k
    decreases n - k
  {
    if k < n {
      TailOver(s, k, n - 1);
    }
  }

  /** Drops leading white space: what remains is a suffix of `s`. */
  function TrimStart(s: string): (r: string)
    ensures r == [] || !IsSpace(r[0])
  {
    s[SkipSpace(s, 0)..]
  }

  /** Drops trailing white space: what remains is a prefix of `s`. */
  function TrimEnd(s: string): (r: string)
    ensures r == [] || !IsSpace(r[|r| - 1])
  {
    s[..SpaceTail(s, |s|)]
  }

  /** What `TrimStart` drops is white space. */
  lemma TrimStartDropsSpace(s: string)
    ensures forall i :: 0 <= i < |s| - |TrimStart(s)| ==> IsSpace(s[i])
  {
    SkipSpaceDrops(s, 0);
  }

  /** What `TrimEnd` drops is white space. */
  lemma TrimEndDropsSpace(s: string)
    ensures forall i :: |TrimEnd(s)| <= i < |s| ==> IsSpace(s[i])
  {
    SpaceTailDrops(s, |s|);
  }

  /** `String.prototype.trim`. */
  function Trim(s: string): (r: string)
    ensures IsTrimmed(r) && |r| <= |s|
  {
    var t := TrimStart(s);
    var r := TrimEnd(t);
    assert r == [] || r[0] == t[0];
    r
  }

  lemma TrimStartOfTrimEnd(s: string)
    requires s == [] || !IsSpace(s[0])
    ensures TrimEnd(s) == [] || !IsSpace(TrimEnd(s)[0])
  {
  }

  /** Trimming a string that is already trimmed changes nothing. */
  lemma TrimTrimmed(s: string)
    requires IsTrimmed(s)
    ensures Trim(s) == s
  {
    assert s[0..] == s;
    assert s[..|s|] == s;
  }

  /** Trimming is idempotent. */
  lemma TrimIdempotent(s: string)
    ensures Trim(Trim(s)) == Trim(s)
  {
    TrimTrimmed(Trim(s));
  }

  /** Trimming yields the empty string exactly when `s` is all white space. */
  lemma TrimEmpty(s: string)
    ensures Trim(s) == [] <==> forall i :: 0 <= i < |s| ==> IsSpace(s[i])
  {
    if forall i :: 0 <= i < |s| ==> IsSpace(s[i]) {
      AllSpaceTrimStart(s);
    } else {
      TrimStartDropsSpace(s);
      var t := TrimStart(s);
      assert t != [];
      SpaceTailDrops(t, |t|);
    }
  }

  lemma AllSpaceTrimStart(s: string)
    requires forall i :: 0 <= i < |s| ==> IsSpace(s[i])
    ensures TrimStart(s) == []
  {
    SkipAllSpace(s, 0);
  }

  /** Number of leading characters of `s` that are not white space. */
  function RunLength(s: string): (n: nat)
    ensures n <= |s|
    ensures NoSpace(s[..n])
    ensures n < |s| ==> IsSpace(s[n])
  {
    if |s| == 0 || IsSpace(s[0]) then 0 else 1 + RunLength(s[1..])
  }

  /** The maximal runs of non-white-space characters, in order: the pieces
      of `s.trim().split(/\s+/)` with the lone empty piece of an all-blank
      string filtered out. */
  function Words(s: string): seq<string>
    decreases |s|
  {
    var t := TrimStart(s);
    if t == [] then []
    else
      var n := RunLength(t);
      assert 0 < n <= |t| <= |s|;
      [t[..n]] + Words(t[n..])
  }

  /** Every word is non-empty and free of white space. */
  lemma {:induction false} WordsAreRuns(s: string)
    ensures forall k :: 0 <= k < |Words(s)| ==> Words(s)[k] != [] && NoSpace(Words(s)[k])
    decreases |s|
  {
    var t := TrimStart(s);
    if t != [] {
      var n := RunLength(t);
      WordsAreRuns(t[n..]);
      var ws := Words(s);
      assert ws == [t[..n]] + Words(t[n..]);
      forall k | 0 <= k < |ws| ensures ws[k] != [] && NoSpace(ws[k]) {
        if k > 0 {
          assert ws[k] == Words(t[n..])[k - 1];
        }
      }
    }
  }

  /** A string has no words exactly when trimming it leaves nothing. */
  lemma WordsEmpty(s: string)
    ensures Words(s) == [] <==> Trim(s) == []
  {
    TrimEmpty(s);
    if Words(s) == [] {
      var t := TrimStart(s);
      assert t == [];
      assert forall i :: 0 <= i < |s| ==> IsSpace(s[i]);
    } else {
      var t := TrimStart(s);
      assert t != [] && !IsSpace(t[0]);
      assert s[|s| - |t|] == t[0];
    }
  }

  /** A single run of non-white-space characters is its own only word. */
  lemma WordsOfWord(w: string)
    requires w != [] && NoSpace(w)
    ensures Words(w) == [w]
  {
    assert TrimStart(w) == w;
    RunLengthOfWord(w);
    assert w[..|w|] == w;
    assert Words(w[|w|..]) == [] by {
      assert w[|w|..] == [];
    }
  }

  lemma {:induction false} RunLengthOfWord(w: string)
    requires NoSpace(w)
    ensures RunLength(w) == |w|
  {
    if |w| > 0 {
      assert NoSpace(w[1..]) by {
        forall i | 0 <= i < |w| - 1 ensures !IsSpace(w[1..][i]) {
          assert w[1..][i] == w[i + 1];
        }
      }
      RunLengthOfWord(w[1..]);
    }
  }

  /** The run of `w + rest` stops at the white space that begins `rest`. */
  lemma {:induction false} RunLengthUpTo(w: string, rest: string)
    requires NoSpace(w) && rest != [] && IsSpace(rest[0])
    ensures RunLength(w + rest) == |w|
  {
    if w != [] {
      assert (w + rest)[1..] == w[1..] + rest;
      RunLengthUpTo(w[1..], rest);
    }
  }

  /** A word, one space, then a text starting with a word: the first word,
      then the words of the text. */
  lemma WordsCons(w: string, s: string)
    requires w != [] && NoSpace(w) && s != [] && !IsSpace(s[0])
    ensures Words(w + " " + s) == [w] + Words(s)
  {
    var x := w + " " + s;
    SkipOver(x, 0, 0);
    assert x == w + (" " + s);
    RunLengthUpTo(w, " " + s);
    assert x[..|w|] == w && x[|w|..] == " " + s;
    SkipOver(" " + s, 0, 1);
    assert TrimStart(" " + s) == s;
    SkipOver(s, 0, 0);
    assert TrimStart(s) == s;
  }

  /** The first word, or the empty string: `s.trim().split(/\s+/)[0]`. */
  function FirstWord(s: string): (r: string)
    ensures r == [] <==> Trim(s) == []
    ensures r != [] ==> r == Words(s)[0]
  {
    WordsEmpty(s);
    var ws := Words(s);
    if ws == [] then [] else ws[0]
  }

  /** `toLowerCase` on the letters that have a one-character lower-case
      form in the Basic Latin and Latin-1 blocks. */
  function LowerChar(c: char): (r: char)
    ensures IsSpace(r) <==> IsSpace(c)
  {
    if 'A' <= c <= 'Z' || ('\U{C0}' <= c <= '\U{DE}' && c != '\U{D7}')
    then (c as int + 32) as char
    else c
  }

  function ToLower(s: string): (r: string)
    ensures |r| == |s|
  {
    seq(|s|, i requires 0 <= i < |s| => LowerChar(s[i]))
  }

  lemma LowerCharIdempotent(c: char)
    ensures LowerChar(LowerChar(c)) == LowerChar(c)
  {
  }

  /** A lower-cased string is its own lower case. */
  lemma ToLowerIdempotent(s: string)
    ensures ToLower(ToLower(s)) == ToLower(s)
  {
    forall i | 0 <= i < |s| ensures ToLower(ToLower(s))[i] == ToLower(s)[i] {
      LowerCharIdempotent(s[i]);
    }
  }

  /** `s` starts with `p`. */
  predicate StartsWith(s: string, p: string) {
    |p| <= |s| && s[..|p|] == p
  }

  /** `s` contains `sep` at position `i`. */
  predicate OccursAt(s: string, sep: string, i: nat) {
    i + |sep| <= |s| && s[i..i + |sep|] == sep
  }

  /** `indexOf`: the first position at or after `from` where `sep` occurs. */
  function IndexOf(s: string, sep: string, from: nat): (r: Option<nat>)
    requires |sep| > 0
    ensures r.Some? ==> from <= r.value && OccursAt(s, sep, r.value)
    ensures r.Some? ==> forall j :: from <= j < r.value ==> !OccursAt(s, sep, j)
    ensures r.None? ==> forall j :: from <= j ==> !OccursAt(s, sep, j)
    decreases |s| - from
  {
    if from + |sep| > |s| then None
    else if s[from..from + |sep|] == sep then Some(from)
    else IndexOf(s, sep, from + 1)
  }

  /** `s.split(sep)` for a non-empty literal separator. */
  function SplitOn(s: string, sep: string): (pieces: seq<string>)
    requires |sep| > 0
    ensures |pieces| >= 1
    decreases |s|
  {
    match IndexOf(s, sep, 0)
    case None => [s]
    case Some(p) => [s[..p]] + SplitOn(s[p + |sep|..], sep)
  }

  /** `pieces.join(sep)`. */
  function Join(pieces: seq<string>, sep: string): string
    requires |pieces| >= 1
  {
    if |pieces| == 1 then pieces[0] else pieces[0] + sep + Join(pieces[1..], sep)
  }

  /** Splitting and joining again gives back the original text. */
  lemma {:induction false} JoinSplit(s: string, sep: string)
    requires |sep| > 0
    ensures Join(SplitOn(s, sep), sep) == s
    decreases |s|
  {
    var r := IndexOf(s, sep, 0);
    if r.Some? {
      var p := r.value;
      var rest := s[p + |sep|..];
      JoinSplit(rest, sep);
      JoinCons(s[..p], SplitOn(rest, sep), sep);
      Reassemble(s, sep, p);
    }
  }

  lemma JoinCons(first: string, pieces: seq<string>, sep: string)
    requires |pieces| >= 1
    ensures Join([first] + pieces, sep) == first + sep + Join(pieces, sep)
  {
    assert ([first] + pieces)[1..] == pieces;
  }

  lemma Reassemble(s: string, sep: string, p: nat)
    requires OccursAt(s, sep, p)
    ensures s[..p] + sep + s[p + |sep|..] == s
  {
    assert s == s[..p] + s[p..p + |sep|] + s[p + |sep|..];
  }

  /** No piece of a split contains the separator. */
  lemma {:induction false} SplitPiecesFree(s: string, sep: string)
    requires |sep| > 0
    ensures forall k, j :: 0 <= k < |SplitOn(s, sep)| && 0 <= j ==> !OccursAt(SplitOn(s, sep)[k], sep, j)
    decreases |s|
  {
    match IndexOf(s, sep, 0)
    case None =>
    case Some(p) =>
      var rest := s[p + |sep|..];
      SplitPiecesFree(rest, sep);
      forall j | 0 <= j ensures !OccursAt(s[..p], sep, j) {
        if OccursAt(s[..p], sep, j) {
          assert s[..p][j..j + |sep|] == s[j..j + |sep|];
          assert OccursAt(s, sep, j);
        }
      }
  }

  /** `indexOf` finds an occurrence that has no earlier one. */
  lemma IndexOfFirst(s: string, sep: string, p: nat)
    requires |sep| > 0 && OccursAt(s, sep, p)
    requires forall j :: 0 <= j < p ==> !OccursAt(s, sep, j)
    ensures IndexOf(s, sep, 0) == Some(p)
  {
  }

  /** Without a separator character, splitting on it gives the whole text. */
  lemma IndexOfAbsentChar(s: string, c: char)
    requires c !in s
    ensures IndexOf(s, [c], 0) == None
  {
    forall j | 0 <= j < |s| ensures !OccursAt(s, [c], j) {
      assert s[j..j + 1][0] == s[j] && s[j] in s;
    }
  }

  /** Splitting a join on a one-character separator that no piece contains
      gives back the pieces. */
  lemma {:induction false} SplitJoinChar(pieces: seq<string>, c: char)
    requires |pieces| >= 1
    requires forall k :: 0 <= k < |pieces| ==> c !in pieces[k]
    ensures SplitOn(Join(pieces, [c]), [c]) == pieces
    decreases |pieces|
  {
    var s := Join(pieces, [c]);
    if |pieces| == 1 {
      IndexOfAbsentChar(pieces[0], c);
    } else {
      var first := pieces[0];
      var rest := Join(pieces[1..], [c]);
      assert s == first + [c] + rest;
      forall j | 0 <= j < |first| ensures !OccursAt(s, [c], j) {
        assert s[j] == first[j];
      }
      assert OccursAt(s, [c], |first|) by {
        assert s[|first|..|first| + 1] == [c];
      }
      IndexOfFirst(s, [c], |first|);
      assert s[..|first|] == first;
      assert s[|first| + 1..] == rest;
      SplitJoinChar(pieces[1..], c);
      assert pieces == [first] + pieces[1..];
    }
  }

  /** A join ends like its last piece. */
  lemma {:induction false} JoinLast(pieces: seq<string>, sep: string)
    requires |pieces| >= 1 && pieces[|pieces| - 1] != []
    ensures var s, last := Join(pieces, sep), pieces[|pieces| - 1];
            s != [] && s[|s| - 1] == last[|last| - 1]
    decreases |pieces|
  {
    if |pieces| > 1 {
      JoinLast(pieces[1..], sep);
    }
  }

  /** A join starts like its first piece and ends like its last one. */
  lemma JoinEnds(pieces: seq<string>, sep: string)
    requires |pieces| >= 1 && pieces[0] != [] && pieces[|pieces| - 1] != []
    ensures var s, last := Join(pieces, sep), pieces[|pieces| - 1];
            s != [] && s[0] == pieces[0][0] && s[|s| - 1] == last[|last| - 1]
  {
    JoinLast(pieces, sep);
  }

  /** A string with no white space at either end is its own trim. */
  lemma TrimNoEnds(s: string)
    requires s != [] && !IsSpace(s[0]) && !IsSpace(s[|s| - 1])
    ensures TrimStart(s) == s && TrimEnd(s) == s && Trim(s) == s
  {
    assert s[0..] == s;
    assert s[..|s|] == s;
  }

  /** Leading blanks before a trimmed text are trimmed away. */
  lemma TrimAfterSpace(s: string)
    requires s != [] && !IsSpace(s[0]) && !IsSpace(s[|s| - 1])
    ensures Trim([' '] + s) == s
  {
    var b := [' '] + s;
    assert SkipSpace(b, 0) == 1;
    assert b[1..] == s;
    TrimNoEnds(s);
  }

  /** White space around a trimmed text is trimmed away. */
  lemma TrimPadded(a: string, t: string, b: string)
    requires t != [] && IsTrimmed(t)
    requires forall i :: 0 <= i < |a| ==> IsSpace(a[i])
    requires forall i :: 0 <= i < |b| ==> IsSpace(b[i])
    ensures Trim(a + t + b) == t
  {
    var s := a + t + b;
    assert s[|a|] == t[0];
    assert forall j :: 0 <= j < |a| ==> s[j] == a[j];
    SkipOver(s, 0, |a|);
    var u := t + b;
    assert s[|a|..] == u;
    assert u[|t| - 1] == t[|t| - 1];
    assert forall j :: |t| <= j < |u| ==> u[j] == b[j - |t|];
    TailOver(u, |t|, |u|);
    assert u[..|t|] == t;
  }

  /** A one-character separator occurs exactly where that character is. */
  lemma OccursAtChar(s: string, c: char, j: nat)
    ensures OccursAt(s, [c], j) <==> j < |s| && s[j] == c
  {
    if j < |s| {
      assert s[j..j + 1] == [s[j]];
    }
  }

  /** `TrimEnd` drops a trailing blank. */
  lemma TrimEndDropsOne(s: string, c: char)
    requires IsSpace(c)
    ensures TrimEnd(s + [c]) == TrimEnd(s)
  {
    var t := s + [c];
    assert (s + [c])[..|s|] == s[..|s|];
    SpaceTailPrefix(t, s, |s|);
  }
}
