/**
 The name extractor of `ScriptSpider.process_character`: a line already
 classified as a cue loses its parentheticals ("(V.O.)", "(CONT'D)") and its
 surrounding whitespace, and is given up when what is left is too long to
 be a name.
 */
module Extractor {
  import opened Text

  /** Cleaned cues this long or longer are dropped. */
  const MaxNameLength: nat := 16

  /** No `(` is followed, anywhere later, by a `)`: the pattern `\([^)]*\)`
      has no match. */
  predicate NoParenthetical(s: string) {
    forall i, j :: 0 <= i < j < |s| && s[i] == '(' ==> s[j] != ')'
  }

  /** The index of the first `c` in `s`. */
  function IndexOf(s: string, c: char): (i: nat)
    requires c in s
    ensures i < |s| && s[i] == c
    ensures forall k :: 0 <= k < i ==> s[k] != c
  {
    if s[0] == c then 0 else 1 + IndexOf(s[1..], c)
  }

  /** `re.sub(r'\([^)]*\)', '', s)`. Scanning from the left, a `(` with a
      later `)` starts a match that ends at the first such `)` and is
      deleted; a `(` with no later `)` is kept, as is every other character.
      What is left holds no match, is no longer than `s`, and is `s` itself
      when `s` has no `(`. */
  function RemoveParentheticals(s: string): (r: string)
    ensures |r| <= |s|
    ensures NoParenthetical(r)
    ensures ')' !in s ==> ')' !in r
    ensures '(' !in s ==> r == s
    decreases |s|
  {
    if s == [] then []
    else if s[0] == '(' && ')' in s then RemoveParentheticals(s[IndexOf(s, ')') + 1..])
    else
      var rest := RemoveParentheticals(s[1..]);
      assert s[0] == '(' ==> ')' !in s[1..];
      assert ')' !in s ==> ')' !in s[1..];
      assert '(' !in s ==> '(' !in s[1..];
      [s[0]] + rest
  }

  /** The cue with parentheticals deleted and whitespace stripped. */
  function Cleaned(line: string): string {
    Strip(RemoveParentheticals(line))
  }

  /** `process_character(line)`. The name is shorter than 16 characters,
      starts and ends with a non-whitespace character, and holds no
      parenthetical. It is empty exactly when the cleaned cue is empty or
      16 characters or longer, and otherwise it is the cleaned cue. */
  function ProcessCharacter(line: string): (name: string)
    ensures |name| < MaxNameLength
    ensures name == [] || (!IsSpace(name[0]) && !IsSpace(name[|name| - 1]))
    ensures NoParenthetical(name)
    ensures name == [] <==> Cleaned(line) == [] || |Cleaned(line)| >= MaxNameLength
    ensures name != [] ==> name == Cleaned(line)
  {
    var cleaned := Cleaned(line);
    SliceKeepsNoParenthetical(RemoveParentheticals(line), LeadingSpaces(RemoveParentheticals(line)), |cleaned|);
    if |cleaned| >= MaxNameLength then [] else cleaned
  }

  // ---------------------------------------------------------------------
  // Helpers

  lemma SliceKeepsNoParenthetical(s: string, k: nat, n: nat)
    requires k + n <= |s| && NoParenthetical(s)
    ensures NoParenthetical(s[k..k + n])
  {
    var t := s[k..k + n];
    forall i, j | 0 <= i < j < |t| && t[i] == '(' ensures t[j] != ')' {
      assert t[i] == s[k + i] && t[j] == s[k + j];
    }
  }

  // ---------------------------------------------------------------------
  // Properties

  /** A parenthetical after text without a `(` is deleted and the text in
      front of it stays: `a + "(" + b + ")" + c` becomes `a` followed by the
      cleaning of `c` when `b` holds no `)`. */
  lemma ParentheticalDeleted(a: string, b: string, c: string)
    requires '(' !in a && ')' !in b
    ensures RemoveParentheticals(a + "(" + b + ")" + c) == a + RemoveParentheticals(c)
  {
    var m := "(" + b + ")" + c;
    assert a + "(" + b + ")" + c == a + m;
    PrefixKept(a, m);
    LeadingParentheticalDeleted(b, c);
  }

  /** Text without a `(` in front is kept as it is. */
  lemma {:induction false} PrefixKept(a: string, m: string)
    requires '(' !in a
    ensures RemoveParentheticals(a + m) == a + RemoveParentheticals(m)
    decreases |a|
  {
    if a != [] {
      assert a[0] in a;
      var s := a + m;
      assert s[0] == a[0];
      assert s[1..] == a[1..] + m;
      NoOpenInTail(a);
      PrefixKept(a[1..], m);
      assert a == [a[0]] + a[1..];
    } else {
      assert a + m == m;
    }
  }

  lemma LeadingParentheticalDeleted(b: string, c: string)
    requires ')' !in b
    ensures RemoveParentheticals("(" + b + ")" + c) == RemoveParentheticals(c)
  {
    var s := "(" + b + ")" + c;
    assert s[0] == '(' && s[|b| + 1] == ')';
    var k := IndexOf(s, ')');
    assert k == |b| + 1;
    assert s[k + 1..] == c;
  }

  lemma NoOpenInTail(a: string)
    requires a != [] && '(' !in a
    ensures '(' !in a[1..]
  {
    forall j | 0 <= j < |a[1..]| ensures a[1..][j] != '(' {
      assert a[1..][j] == a[j + 1];
    }
  }

  /** Text already free of parentheticals is left alone. */
  lemma {:induction false} CleanTextUnchanged(s: string)
    requires NoParenthetical(s)
    ensures RemoveParentheticals(s) == s
    decreases |s|
  {
    if s != [] {
      if s[0] == '(' && ')' in s {
        assert false;
      }
      assert NoParenthetical(s[1..]) by {
        SliceKeepsNoParenthetical(s, 1, |s| - 1);
        assert s[1..1 + (|s| - 1)] == s[1..];
      }
      CleanTextUnchanged(s[1..]);
    }
  }

  /** Cleaning twice is cleaning once. */
  lemma {:induction false} RemoveParentheticalsIdempotent(s: string)
    ensures RemoveParentheticals(RemoveParentheticals(s)) == RemoveParentheticals(s)
  {
    CleanTextUnchanged(RemoveParentheticals(s));
  }

  /** A name already extracted extracts to itself. */
  lemma ProcessCharacterIdempotent(line: string)
    ensures ProcessCharacter(ProcessCharacter(line)) == ProcessCharacter(line)
  {
    var name := ProcessCharacter(line);
    CleanedName(name);
  }

  lemma CleanedName(name: string)
    requires NoParenthetical(name)
    requires name == [] || (!IsSpace(name[0]) && !IsSpace(name[|name| - 1]))
    ensures Cleaned(name) == name
  {
    CleanTextUnchanged(name);
    StripTrimmed(name);
  }

  /** Text that neither starts nor ends with whitespace is its own strip. */
  lemma StripTrimmed(s: string)
    requires s == [] || (!IsSpace(s[0]) && !IsSpace(s[|s| - 1]))
    ensures Strip(s) == s
  {
    if s != [] {
      assert LeadingSpaces(s) == 0;
    }
  }

  /** "JOHN (V.O.)" gives the name "JOHN". */
  lemma ExtractorExample(line: string)
    requires line == "JOHN (V.O.)"
    ensures ProcessCharacter(line) == "JOHN"
  {
    assert line == "JOHN " + "(" + "V.O." + ")" + "";
    ParentheticalDeleted("JOHN ", "V.O.", "");
    assert RemoveParentheticals(line) == "JOHN ";
    JohnStripped("JOHN ");
  }

  lemma JohnStripped(s: string)
    requires s == "JOHN "
    ensures Strip(s) == "JOHN"
  {
    assert LeadingSpaces(s) == 0;
    assert TrailingSpaces(s[..]) == 1;
  }
}
