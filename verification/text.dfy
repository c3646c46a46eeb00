/**
 The handful of Python `str` operations the script relies on: `isspace`,
 `isdigit`, `strip`, `split`, `''.join`, `capitalize`, `startswith`, the `in`
 substring test and `replace`. Character classes are the ASCII part of
 Python's Unicode definitions.
 */
module Text {

  /** `c.isspace()` for ASCII: tab, line feed, vertical tab, form feed,
      carriage return, the four information separators 0x1C-0x1F, and space. */
  predicate IsSpace(c: char) {
    c == ' ' || ('\t' <= c <= '\r') || ('\U{1C}' <= c <= '\U{1F}')
  }

  /** `c.isdigit()` for ASCII. */
  predicate IsDigit(c: char) {
    '0' <= c <= '9'
  }

  predicate IsLower(c: char) {
    'a' <= c <= 'z'
  }

  predicate IsUpper(c: char) {
    'A' <= c <= 'Z'
  }

  function ToUpper(c: char): (u: char)
    ensures IsLower(c) ==> IsUpper(u) && u as int == c as int - 32
    ensures !IsLower(c) ==> u == c
  {
    if IsLower(c) then (c as int - 32) as char else c
  }

  function ToLower(c: char): (l: char)
    ensures IsUpper(c) ==> IsLower(l) && l as int == c as int + 32
    ensures !IsUpper(c) ==> l == c
  {
    if IsUpper(c) then (c as int + 32) as char else c
  }

  /** No character of `s` is whitespace. */
  predicate NoSpace(s: string) {
    forall i :: 0 <= i < |s| ==> !IsSpace(s[i])
  }

  predicate StartsWith(s: string, prefix: string) {
    prefix <= s
  }

  predicate EndsWith(s: string, suffix: string) {
    |suffix| <= |s| && s[|s| - |suffix|..] == suffix
  }

  /** Python's `sub in s`. */
  predicate Contains(s: string, sub: string) {
    exists i :: 0 <= i <= |s| - |sub| && OccursAt(s, sub, i)
  }

  /** `sub` occurs in `s` starting at index `i`. */
  predicate OccursAt(s: string, sub: string, i: int) {
    0 <= i <= |s| - |sub| && s[i..i + |sub|] == sub
  }

  /** The number of whitespace characters at the front of `s`. */
  function LeadingSpaces(s: string): (k: nat)
    ensures k <= |s|
    ensures forall i :: 0 <= i < k ==> IsSpace(s[i])
    ensures k == |s| || !IsSpace(s[k])
  {
    if s != [] && IsSpace(s[0]) then 1 + LeadingSpaces(s[1..]) else 0
  }

  /** The number of whitespace characters at the end of `s`. */
  function TrailingSpaces(s: string): (k: nat)
    ensures k <= |s|
    ensures forall i :: |s| - k <= i < |s| ==> IsSpace(s[i])
    ensures k == |s| || !IsSpace(s[|s| - k - 1])
  {
    if s != [] && IsSpace(s[|s| - 1]) then 1 + TrailingSpaces(s[..|s| - 1]) else 0
  }

  /** `s.lstrip()`. */
  function TrimLeft(s: string): string {
    s[LeadingSpaces(s)..]
  }

  /** `s.rstrip()`. */
  function TrimRight(s: string): string {
    s[..|s| - TrailingSpaces(s)]
  }

  /** `s.strip()`: the slice of `s` left once the whitespace at both ends is
      gone. It is empty exactly when `s` is all whitespace, and otherwise it
      starts at the first non-whitespace character of `s`. */
  function Strip(s: string): (r: string)
    ensures r == [] || (!IsSpace(r[0]) && !IsSpace(r[|r| - 1]))
    ensures var k := LeadingSpaces(s);
      && k + |r| <= |s|
      && r == s[k..k + |r|]
      && (forall i :: 0 <= i < k ==> IsSpace(s[i]))
      && (forall i :: k + |r| <= i < |s| ==> IsSpace(s[i]))
    ensures r == [] <==> forall i :: 0 <= i < |s| ==> IsSpace(s[i])
  {
    TrimRight(TrimLeft(s))
  }

  /** The length of the leading run of non-whitespace characters of `s`. */
  function WordLength(s: string): (n: nat)
    ensures n <= |s|
    ensures forall i :: 0 <= i < n ==> !IsSpace(s[i])
    ensures n == |s| || IsSpace(s[n])
  {
    if s == [] || IsSpace(s[0]) then 0 else 1 + WordLength(s[1..])
  }

  /** `s.split()` with no separator: the maximal runs of non-whitespace
      characters, in order. */
  function Split(s: string): (ws: seq<string>)
    ensures AllWords(ws)
    ensures ws == [] <==> TrimLeft(s) == []
    ensures ws != [] ==> ws[0][0] == TrimLeft(s)[0]
    decreases |s|
  {
    var t := TrimLeft(s);
    if t == [] then []
    else
      var n := WordLength(t);
      [t[..n]] + Split(t[n..])
  }

  /** A word in the sense of `split`: non-empty, no whitespace. */
  predicate IsWord(w: string) {
    w != [] && NoSpace(w)
  }

  predicate AllWords(ws: seq<string>) {
    forall i :: 0 <= i < |ws| ==> IsWord(ws[i])
  }

  /** `''.join(ws)`. */
  function Concat(ws: seq<string>): string {
    if ws == [] then [] else ws[0] + Concat(ws[1..])
  }

  /** `sep.join(ws)`. */
  function Join(ws: seq<string>, sep: string): string {
    if ws == [] then []
    else if |ws| == 1 then ws[0]
    else ws[0] + sep + Join(ws[1..], sep)
  }

  /** `w.capitalize()`: the first character upper-cased, the rest lower-cased. */
  function Capitalize(w: string): (r: string)
    ensures |r| == |w|
    ensures r != [] ==> r[0] == ToUpper(w[0])
    ensures forall i :: 1 <= i < |r| ==> r[i] == ToLower(w[i])
  {
    if w == [] then [] else [ToUpper(w[0])] + LowerAll(w[1..])
  }

  function LowerAll(s: string): (r: string)
    ensures |r| == |s|
    ensures forall i :: 0 <= i < |s| ==> r[i] == ToLower(s[i])
  {
    if s == [] then [] else [ToLower(s[0])] + LowerAll(s[1..])
  }

  /** `s.replace(pat, rep)`: every non-overlapping occurrence of `pat`, found
      scanning from the left, is replaced by `rep`. */
  function ReplaceAll(s: string, pat: string, rep: string): string
    requires pat != []
    decreases |s|
  {
    if s == [] then []
    else if StartsWith(s, pat) then rep + ReplaceAll(s[|pat|..], pat, rep)
    else [s[0]] + ReplaceAll(s[1..], pat, rep)
  }

  // ---------------------------------------------------------------------
  // Lemmas about the primitives

  /** Every character `replace` produces comes from the text or from the
      replacement. */
  lemma {:induction false} ReplaceChars(s: string, pat: string, rep: string)
    requires pat != []
    ensures forall c :: c in ReplaceAll(s, pat, rep) ==> c in s || c in rep
    decreases |s|
  {
    if s != [] {
      if StartsWith(s, pat) {
        ReplaceChars(s[|pat|..], pat, rep);
        forall c | c in s[|pat|..] ensures c in s {
          var j :| 0 <= j < |s[|pat|..]| && s[|pat|..][j] == c;
          assert s[|pat| + j] == c;
        }
      } else {
        ReplaceChars(s[1..], pat, rep);
        forall c | c in s[1..] ensures c in s {
          var j :| 0 <= j < |s[1..]| && s[1..][j] == c;
          assert s[1 + j] == c;
        }
      }
    }
  }

  /** Replacing a single character by a single character acts position by
      position, so the replaced character no longer occurs. */
  lemma {:induction false} ReplaceCharPointwise(s: string, a: char, b: char)
    ensures |ReplaceAll(s, [a], [b])| == |s|
    ensures forall i :: 0 <= i < |s| ==>
      ReplaceAll(s, [a], [b])[i] == (if s[i] == a then b else s[i])
    decreases |s|
  {
    if s != [] {
      ReplaceCharPointwise(s[1..], a, b);
      if StartsWith(s, [a]) {
        assert s[0] == a;
      } else {
        assert s[0] != a;
      }
    }
  }

  /** `replace` leaves a string without the pattern as it is. */
  lemma {:induction false} ReplaceAbsent(s: string, pat: string, rep: string)
    requires pat != []
    requires !Contains(s, pat)
    ensures ReplaceAll(s, pat, rep) == s
    decreases |s|
  {
    if s != [] {
      if StartsWith(s, pat) {
        assert OccursAt(s, pat, 0);
        assert false;
      }
      if Contains(s[1..], pat) {
        var i :| 0 <= i <= |s[1..]| - |pat| && OccursAt(s[1..], pat, i);
        SliceOfTail(s, i, |pat|);
        assert OccursAt(s, pat, i + 1);
        assert false;
      }
      ReplaceAbsent(s[1..], pat, rep);
    }
  }

  lemma SliceOfTail(s: string, i: nat, n: nat)
    requires 1 + i + n <= |s|
    ensures s[1..][i..i + n] == s[i + 1..i + 1 + n]
  {
    var a, b := s[1..][i..i + n], s[i + 1..i + 1 + n];
    forall k | 0 <= k < n ensures a[k] == b[k] {
      assert s[1..][i + k] == s[i + 1 + k];
    }
  }

  /** The whitespace in front of a string does not change how it splits. */
  lemma {:induction false} SplitSkipsLeadingSpace(c: char, s: string)
    requires IsSpace(c)
    ensures Split([c] + s) == Split(s)
  {
    assert ([c] + s)[1..] == s;
  }

  /** The word at the front of `w + [c] + s` is `w` when `c` is whitespace. */
  lemma {:induction false} WordOfPrefix(w: string, c: char, s: string)
    requires NoSpace(w) && IsSpace(c)
    ensures WordLength(w + [c] + s) == |w|
    decreases |w|
  {
    if w == [] {
      assert (w + [c] + s)[0] == c;
    } else {
      assert (w + [c] + s)[1..] == w[1..] + [c] + s;
      WordOfPrefix(w[1..], c, s);
    }
  }

  /** Splitting peels off one word followed by whitespace. */
  lemma {:induction false} SplitCons(w: string, c: char, s: string)
    requires IsWord(w) && IsSpace(c)
    ensures Split(w + [c] + s) == [w] + Split(s)
  {
    var x := w + [c] + s;
    assert LeadingSpaces(x) == 0 by { assert !IsSpace(x[0]); }
    assert TrimLeft(x) == x;
    WordOfPrefix(w, c, s);
    assert x[..|w|] == w;
    assert x[|w|..] == [c] + s;
    SplitSkipsLeadingSpace(c, s);
  }

  /** A single word splits to itself. */
  lemma {:induction false} SplitWord(w: string)
    requires IsWord(w)
    ensures Split(w) == [w]
  {
    assert LeadingSpaces(w) == 0 by { assert !IsSpace(w[0]); }
    assert TrimLeft(w) == w;
    WordAll(w);
    assert w[..|w|] == w;
    assert LeadingSpaces(w[|w|..]) == 0;
  }

  lemma {:induction false} WordAll(w: string)
    requires NoSpace(w)
    ensures WordLength(w) == |w|
    decreases |w|
  {
    if w != [] {
      WordAll(w[1..]);
    }
  }

  /** Joining non-empty words with single spaces and splitting again gives
      the words back. */
  lemma {:induction false} SplitJoin(ws: seq<string>)
    requires AllWords(ws)
    ensures Split(Join(ws, " ")) == ws
    decreases |ws|
  {
    if |ws| == 1 {
      SplitWord(ws[0]);
    } else if |ws| > 1 {
      assert Join(ws, " ") == ws[0] + [' '] + Join(ws[1..], " ");
      SplitCons(ws[0], ' ', Join(ws[1..], " "));
      SplitJoin(ws[1..]);
    }
  }

  /** Words joined by single spaces neither start nor end with whitespace
      and never hold two whitespace characters in a row. */
  lemma {:induction false} JoinSpacing(ws: seq<string>)
    requires AllWords(ws)
    ensures var j := Join(ws, " "); j == [] || (!IsSpace(j[0]) && !IsSpace(j[|j| - 1]))
    ensures var j := Join(ws, " ");
      forall i :: 0 <= i < |j| - 1 && IsSpace(j[i]) ==> !IsSpace(j[i + 1])
    decreases |ws|
  {
    if |ws| == 1 {
      assert NoSpace(ws[0]);
    } else if |ws| > 1 {
      var w, rest := ws[0], Join(ws[1..], " ");
      JoinSpacing(ws[1..]);
      var j := Join(ws, " ");
      assert j == w + " " + rest;
      assert NoSpace(w) && w != [] && rest != [];
      forall i | 0 <= i < |j| - 1 && IsSpace(j[i]) ensures !IsSpace(j[i + 1]) {
        if i < |w| {
          assert false;
        } else if i == |w| {
          assert j[i + 1] == rest[0];
        } else {
          assert j[i] == rest[i - |w| - 1] && j[i + 1] == rest[i - |w|];
        }
      }
    }
  }

  /** The characters of `s` that are not whitespace, in order. */
  function NonSpace(s: string): string {
    if s == [] then [] else (if IsSpace(s[0]) then [] else [s[0]]) + NonSpace(s[1..])
  }

  /** `''.join(s.split())` is `s` with every whitespace character deleted. */
  lemma {:induction false} ConcatSplit(s: string)
    ensures Concat(Split(s)) == NonSpace(s)
    decreases |s|
  {
    var t := TrimLeft(s);
    NonSpaceTrimLeft(s);
    if t != [] {
      var n := WordLength(t);
      ConcatSplitUnfold(s);
      NonSpaceWordFirst(t);
      ConcatSplit(t[n..]);
    }
  }

  /** Splitting a line that is not blank peels off its first word. */
  lemma ConcatSplitUnfold(s: string)
    requires TrimLeft(s) != []
    ensures var t := TrimLeft(s); var n := WordLength(t);
      Concat(Split(s)) == t[..n] + Concat(Split(t[n..]))
  {
    var t := TrimLeft(s);
    var n := WordLength(t);
    assert Split(s) == [t[..n]] + Split(t[n..]);
    assert ([t[..n]] + Split(t[n..]))[1..] == Split(t[n..]);
  }

  lemma NonSpaceTrimLeft(s: string)
    ensures NonSpace(s) == NonSpace(TrimLeft(s))
  {
    var k := LeadingSpaces(s);
    assert s == s[..k] + TrimLeft(s);
    NonSpaceAppend(s[..k], TrimLeft(s));
    NonSpaceOfSpaces(s[..k]);
  }

  lemma NonSpaceWordFirst(t: string)
    ensures var n := WordLength(t); NonSpace(t) == t[..n] + NonSpace(t[n..])
  {
    var n := WordLength(t);
    assert t == t[..n] + t[n..];
    NonSpaceAppend(t[..n], t[n..]);
    NonSpaceOfWord(t[..n]);
  }

  lemma {:induction false} NonSpaceAppend(a: string, b: string)
    ensures NonSpace(a + b) == NonSpace(a) + NonSpace(b)
    decreases |a|
  {
    if a != [] {
      assert (a + b)[0] == a[0] && (a + b)[1..] == a[1..] + b;
      NonSpaceAppend(a[1..], b);
    } else {
      assert a + b == b;
    }
  }

  lemma {:induction false} NonSpaceOfSpaces(s: string)
    requires forall i :: 0 <= i < |s| ==> IsSpace(s[i])
    ensures NonSpace(s) == []
    decreases |s|
  {
    if s != [] {
      NonSpaceOfSpaces(s[1..]);
    }
  }

  lemma {:induction false} NonSpaceOfWord(w: string)
    requires NoSpace(w)
    ensures NonSpace(w) == w
    decreases |w|
  {
    if w != [] {
      NonSpaceOfWord(w[1..]);
    }
  }

  /** The first character of `''.join(s.split())` is the first
      non-whitespace character of `s`, and the join is empty exactly when
      `s` is all whitespace. */
  lemma {:induction false} ConcatSplitFirst(s: string)
    ensures Concat(Split(s)) == [] <==> TrimLeft(s) == []
    ensures Concat(Split(s)) != [] ==> Concat(Split(s))[0] == TrimLeft(s)[0]
  {
    var ws := Split(s);
    if ws != [] {
      assert Concat(ws) == ws[0] + Concat(ws[1..]);
      assert Concat(ws)[0] == ws[0][0];
    }
  }
}
