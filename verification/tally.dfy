/**
 The dialogue count: the loop of `ScriptSpider.parse_script` that tallies
 character cues into a dictionary, and the post-processing of `main` that
 drops rare names and orders the rest by count, most lines first.

 A Python dictionary keeps its keys in insertion order, so the tally is a
 sequence of entries in the order the names were first seen.
 */
module Tally {
  import opened Text
  import opened Classifier
  import opened Extractor

  /** One dictionary item: a character name and its number of cues. */
  datatype Entry = Entry(name: string, count: nat)

  /** The dictionary `characters`, in insertion order. */
  type Tally = seq<Entry>

  /** Names with fewer cues than this are treated as noise. */
  const MinLines: nat := 8

  // ---------------------------------------------------------------------
  // The dictionary

  function Names(t: Tally): (ns: seq<string>)
    ensures |ns| == |t|
    ensures forall i :: 0 <= i < |t| ==> ns[i] == t[i].name
  {
    if t == [] then [] else [t[0].name] + Names(t[1..])
  }

  /** No name appears twice. */
  predicate UniqueNames(t: Tally) {
    forall i, j :: 0 <= i < j < |t| ==> t[i].name != t[j].name
  }

  /** What the parse loop can build: distinct, non-empty names, each seen at
      least once. */
  predicate WellFormed(t: Tally) {
    && UniqueNames(t)
    && forall i :: 0 <= i < |t| ==> t[i].name != [] && t[i].count >= 1
  }

  /** `characters.get(n, 0)`. */
  function CountOf(t: Tally, n: string): nat {
    if t == [] then 0
    else if t[0].name == n then t[0].count
    else CountOf(t[1..], n)
  }

  /** The sum of all counts. */
  function Total(t: Tally): nat {
    if t == [] then 0 else t[0].count + Total(t[1..])
  }

  /** `characters[n] += 1`, or `characters[n] = 1` when the key is missing
      (the `KeyError` branch). The count of `n` goes up by one and no other
      count changes. */
  function Increment(t: Tally, n: string): (r: Tally)
    ensures forall m :: CountOf(r, m) == CountOf(t, m) + (if m == n then 1 else 0)
  {
    if t == [] then [Entry(n, 1)]
    else if t[0].name == n then [Entry(n, t[0].count + 1)] + t[1..]
    else [t[0]] + Increment(t[1..], n)
  }

  /** A new name goes to the end of the insertion order; a known name keeps
      its place. */
  lemma {:induction false} IncrementNames(t: Tally, n: string)
    ensures Names(Increment(t, n)) == if n in Names(t) then Names(t) else Names(t) + [n]
  {
    if t != [] && t[0].name != n {
      IncrementNames(t[1..], n);
      assert Names(t) == [t[0].name] + Names(t[1..]);
      assert n in Names(t) <==> n in Names(t[1..]);
    }
  }

  /** Each increment adds one to the total. */
  lemma {:induction false} IncrementTotal(t: Tally, n: string)
    ensures Total(Increment(t, n)) == Total(t) + 1
  {
    if t != [] && t[0].name != n {
      IncrementTotal(t[1..], n);
    }
  }

  /** Incrementing a non-empty name keeps the tally well-formed. */
  lemma {:induction false} IncrementWellFormed(t: Tally, n: string)
    requires WellFormed(t) && n != []
    ensures WellFormed(Increment(t, n))
  {
    if t == [] {
    } else {
      WellFormedCons(t[0], t[1..]);
      assert t == [t[0]] + t[1..];
      if t[0].name == n {
        WellFormedCons(Entry(n, t[0].count + 1), t[1..]);
      } else {
        var rest := Increment(t[1..], n);
        IncrementWellFormed(t[1..], n);
        IncrementNames(t[1..], n);
        forall j | 0 <= j < |rest| ensures rest[j].name != t[0].name {
          assert Names(rest)[j] == rest[j].name;
          if j < |t[1..]| {
            assert Names(rest)[j] == Names(t[1..])[j];
          }
        }
        WellFormedCons(t[0], rest);
      }
    }
  }

  /** A tally with a head is well-formed exactly when the head is a proper
      entry whose name the tail does not repeat, and the tail is
      well-formed. */
  lemma WellFormedCons(x: Entry, s: Tally)
    ensures WellFormed([x] + s) <==>
      && x.name != [] && x.count >= 1
      && (forall j :: 0 <= j < |s| ==> s[j].name != x.name)
      && WellFormed(s)
  {
    var r := [x] + s;
    assert forall j :: 0 <= j < |s| ==> r[j + 1] == s[j];
    if WellFormed(r) {
      forall i, j | 0 <= i < j < |s| ensures s[i].name != s[j].name {
        assert r[i + 1] == s[i] && r[j + 1] == s[j];
      }
      assert r[0] == x;
    }
    if x.name != [] && x.count >= 1 && (forall j :: 0 <= j < |s| ==> s[j].name != x.name) && WellFormed(s) {
      forall i, j | 0 <= i < j < |r| ensures r[i].name != r[j].name {
        if i > 0 {
          assert r[i] == s[i - 1];
        }
        assert r[j] == s[j - 1];
      }
    }
  }

  /** With unique names, looking up the name of an entry gives its count. */
  lemma {:induction false} CountOfUnique(t: Tally, i: nat)
    requires UniqueNames(t) && i < |t|
    ensures CountOf(t, t[i].name) == t[i].count
  {
    if i > 0 {
      assert UniqueNames(t[1..]);
      assert t[0].name != t[i].name;
      CountOfUnique(t[1..], i - 1);
    }
  }

  // ---------------------------------------------------------------------
  // What the script's cues say, independently of the dictionary

  /** The line is a cue whose extracted name is non-empty: the two tests of
      the parse loop. */
  predicate Counted(line: string) {
    IsCharacter(line) && ProcessCharacter(line) != []
  }

  /** The names of the counted lines, in script order. */
  function CueNames(lines: seq<string>): (ns: seq<string>)
    ensures forall i :: 0 <= i < |ns| ==> ns[i] != []
  {
    if lines == [] then []
    else
      var last := lines[|lines| - 1];
      CueNames(lines[..|lines| - 1]) + (if Counted(last) then [ProcessCharacter(last)] else [])
  }

  /** The number of lines that are cues and extract to the name `n`. */
  function CueCount(lines: seq<string>, n: string): nat {
    if lines == [] then 0
    else
      var last := lines[|lines| - 1];
      CueCount(lines[..|lines| - 1], n) + (if IsCharacter(last) && ProcessCharacter(last) == n then 1 else 0)
  }

  /** How often `n` occurs in `ns`. */
  function Occurrences(ns: seq<string>, n: string): nat {
    if ns == [] then 0
    else Occurrences(ns[..|ns| - 1], n) + (if ns[|ns| - 1] == n then 1 else 0)
  }

  /** The distinct elements of `ns`, in order of first appearance. */
  function FirstSeen(ns: seq<string>): seq<string> {
    if ns == [] then []
    else
      var before := FirstSeen(ns[..|ns| - 1]);
      if ns[|ns| - 1] in before then before else before + [ns[|ns| - 1]]
  }

  // ---------------------------------------------------------------------
  // The parse loop

  /** The dictionary built by incrementing `ns` one name after the other.
      Each name's count is its number of occurrences, the names come in
      order of first appearance, the counts add up to `|ns|`, and the tally
      is well-formed when no name is empty. */
  function Tabulate(ns: seq<string>): (t: Tally)
    ensures forall n :: CountOf(t, n) == Occurrences(ns, n)
    ensures Names(t) == FirstSeen(ns)
    ensures Total(t) == |ns|
    ensures (forall i :: 0 <= i < |ns| ==> ns[i] != []) ==> WellFormed(t)
  {
    if ns == [] then []
    else
      var before := Tabulate(ns[..|ns| - 1]);
      IncrementNames(before, ns[|ns| - 1]);
      IncrementTotal(before, ns[|ns| - 1]);
      var r := Increment(before, ns[|ns| - 1]);
      assert (forall i :: 0 <= i < |ns| ==> ns[i] != []) ==> WellFormed(r) by {
        if forall i :: 0 <= i < |ns| ==> ns[i] != [] {
          var init := ns[..|ns| - 1];
          assert forall i :: 0 <= i < |init| ==> init[i] != [];
          IncrementWellFormed(before, ns[|ns| - 1]);
        }
      }
      r
  }

  /** Counting the cue lines that extract to a non-empty name is counting
      that name among the counted names; the empty name is never counted. */
  lemma {:induction false} CueCountIsOccurrences(lines: seq<string>, n: string)
    ensures Occurrences(CueNames(lines), n) == if n == [] then 0 else CueCount(lines, n)
  {
    if lines != [] {
      var init := lines[..|lines| - 1];
      var last := lines[|lines| - 1];
      CueCountIsOccurrences(init, n);
      var extra := if Counted(last) then [ProcessCharacter(last)] else [];
      assert CueNames(lines) == CueNames(init) + extra;
      OccurrencesAppend(CueNames(init), extra, n);
    }
  }

  lemma OccurrencesAppend(ns: seq<string>, extra: seq<string>, n: string)
    requires |extra| <= 1
    ensures Occurrences(ns + extra, n) == Occurrences(ns, n) + Occurrences(extra, n)
  {
    if extra != [] {
      assert (ns + extra)[..|ns + extra| - 1] == ns;
    } else {
      assert ns + extra == ns;
    }
  }

  /** The dictionary after the parse loop has read `lines`. Its names are
      the counted names in order of first appearance, each non-empty name's
      count is the number of cue lines that extract to it, the empty name is
      never a key, and the counts add up to the number of counted lines. */
  function TallyOf(lines: seq<string>): (t: Tally)
    ensures WellFormed(t)
    ensures forall n :: CountOf(t, n) == if n == [] then 0 else CueCount(lines, n)
    ensures Names(t) == FirstSeen(CueNames(lines))
    ensures Total(t) == |CueNames(lines)|
  {
    forall n ensures Occurrences(CueNames(lines), n) == if n == [] then 0 else CueCount(lines, n) {
      CueCountIsOccurrences(lines, n);
    }
    Tabulate(CueNames(lines))
  }

  /** `parse_script` over the bold text nodes `lines`, returning the
      dictionary instead of filling the global one. */
  method ParseScript(lines: seq<string>) returns (t: Tally)
    ensures t == Tabulate(CueNames(lines))
  {
    t := [];
    var i := 0;
    assert lines[..0] == [];
    assert t == Tabulate(CueNames([]));
    while i < |lines|
      invariant 0 <= i <= |lines|
      invariant t == Tabulate(CueNames(lines[..i]))
    {
      CueNamesStep(lines, i);
      TabulateStep(CueNames(lines[..i]), ProcessCharacter(lines[i]));
      t := CountLine(t, lines[i]);
      i := i + 1;
    }
    assert lines[..i] == lines;
  }

  /** What one iteration of the parse loop does to the dictionary. */
  function Step(t: Tally, line: string): Tally {
    if Counted(line) then Increment(t, ProcessCharacter(line)) else t
  }

  /** The body of the parse loop for one line: the cue test, the name
      extraction, the non-empty test and the dictionary update. Exactly the
      count of the cue's name goes up by one, and only when the line is a
      cue with a non-empty name; a well-formed dictionary stays
      well-formed. */
  method CountLine(t: Tally, line: string) returns (r: Tally)
    ensures forall m ::
      CountOf(r, m) == CountOf(t, m) + (if IsCharacter(line) && m != [] && m == ProcessCharacter(line) then 1 else 0)
    ensures WellFormed(t) ==> WellFormed(r)
    ensures r == Step(t, line)
  {
    r := t;
    if IsCharacter(line) {
      var character := ProcessCharacter(line);
      if character != [] {
        r := Increment(r, character);
        if WellFormed(t) {
          IncrementWellFormed(t, character);
        }
      }
    }
  }

  lemma CueNamesStep(lines: seq<string>, i: nat)
    requires i < |lines|
    ensures Counted(lines[i]) ==> CueNames(lines[..i + 1]) == CueNames(lines[..i]) + [ProcessCharacter(lines[i])]
    ensures !Counted(lines[i]) ==> CueNames(lines[..i + 1]) == CueNames(lines[..i])
  {
    assert lines[..i + 1][..i] == lines[..i];
    assert CueNames(lines[..i]) + [] == CueNames(lines[..i]);
  }

  lemma TabulateStep(ns: seq<string>, n: string)
    ensures Tabulate(ns + [n]) == Increment(Tabulate(ns), n)
  {
    assert (ns + [n])[..|ns|] == ns;
  }

  /** In a well-formed tally an entry is present exactly when its name is
      non-empty, its count is at least one, and looking the name up gives
      that count. */
  lemma {:induction false} EntryIffCount(t: Tally, e: Entry)
    requires WellFormed(t)
    ensures e in t <==> e.name != [] && e.count >= 1 && CountOf(t, e.name) == e.count
  {
    if t != [] {
      assert WellFormed(t[1..]);
      EntryIffCount(t[1..], e);
      if e in t && e != t[0] {
        var i :| 0 <= i < |t| && t[i] == e;
        assert i > 0 && t[1..][i - 1] == e;
      }
      if e in t[1..] {
        var i :| 0 <= i < |t[1..]| && t[1..][i] == e;
        assert t[i + 1] == e;
      }
    }
  }

  // ---------------------------------------------------------------------
  // Filter and sort in `main`

  /** The entries with exactly `c` cues, in order. */
  function ByCount(t: Tally, c: int): Tally {
    if t == [] then []
    else (if t[0].count == c then [t[0]] else []) + ByCount(t[1..], c)
  }

  /** Counts never increase along the sequence. */
  predicate Descending(t: Tally) {
    forall i, j :: 0 <= i < j < |t| ==> t[i].count >= t[j].count
  }

  /** The loop that deletes every item whose count is below `min`: exactly
      the entries with at least `min` cues stay, with their counts. */
  function DropRare(t: Tally, min: nat): (r: Tally)
    ensures forall e :: e in r <==> e in t && e.count >= min
  {
    if t == [] then []
    else
      assert forall e :: e in t <==> e == t[0] || e in t[1..];
      if t[0].count >= min then [t[0]] + DropRare(t[1..], min) else DropRare(t[1..], min)
  }

  /** Deleting keeps the order: the run of each count at least `min` is
      unchanged, and the runs below `min` are gone. */
  lemma {:induction false} DropRareRuns(t: Tally, min: nat, c: int)
    ensures ByCount(DropRare(t, min), c) == if c >= min then ByCount(t, c) else []
  {
    if t != [] {
      DropRareRuns(t[1..], min, c);
    }
  }

  /** Deleting items keeps the dictionary well-formed. */
  lemma {:induction false} DropRareWellFormed(t: Tally, min: nat)
    requires WellFormed(t)
    ensures WellFormed(DropRare(t, min))
  {
    if t != [] {
      var rest := DropRare(t[1..], min);
      WellFormedCons(t[0], t[1..]);
      assert t == [t[0]] + t[1..];
      DropRareWellFormed(t[1..], min);
      if t[0].count >= min {
        forall j | 0 <= j < |rest| ensures rest[j].name != t[0].name {
          assert rest[j] in rest;
          var k :| 0 <= k < |t[1..]| && t[1..][k] == rest[j];
        }
        WellFormedCons(t[0], rest);
      }
    }
  }

  /** Places `e` in front of the first entry whose count is not larger,
      which is where a stable descending sort puts an element that came
      first: `e` lands in front of every entry with its own count, and the
      runs of the other counts are untouched. */
  function Insert(e: Entry, s: Tally): (r: Tally)
    ensures forall c :: ByCount(r, c) == (if c == e.count then [e] else []) + ByCount(s, c)
  {
    if s == [] || s[0].count <= e.count then [e] + s
    else [s[0]] + Insert(e, s[1..])
  }

  /** Inserting adds `e` and nothing else. */
  lemma {:induction false} InsertPermutes(e: Entry, s: Tally)
    ensures multiset(Insert(e, s)) == multiset(s) + multiset{e}
  {
    if s != [] && s[0].count > e.count {
      InsertPermutes(e, s[1..]);
      assert s == [s[0]] + s[1..];
    }
  }

  /** No count in `s` exceeds `m`. */
  predicate AtMost(s: Tally, m: int) {
    forall i :: 0 <= i < |s| ==> s[i].count <= m
  }

  /** A sequence is descending exactly when its head bounds its tail and
      the tail is descending. */
  lemma DescendingCons(x: Entry, s: Tally)
    ensures Descending([x] + s) <==> AtMost(s, x.count) && Descending(s)
  {
    var r := [x] + s;
    if AtMost(s, x.count) && Descending(s) {
      forall i, j | 0 <= i < j < |r| ensures r[i].count >= r[j].count {
        assert r[j] == s[j - 1];
        if i > 0 {
          assert r[i] == s[i - 1];
        }
      }
    }
    if Descending(r) {
      forall i | 0 <= i < |s| ensures s[i].count <= x.count {
        assert r[0] == x && r[i + 1] == s[i];
        assert r[0].count >= r[i + 1].count;
      }
      forall i, j | 0 <= i < j < |s| ensures s[i].count >= s[j].count {
        assert r[i + 1] == s[i] && r[j + 1] == s[j];
      }
    }
  }

  /** Inserting an entry no larger than a bound keeps the bound. */
  lemma {:induction false} InsertAtMost(e: Entry, s: Tally, m: int)
    requires AtMost(s, m) && e.count <= m
    ensures AtMost(Insert(e, s), m)
  {
    if s != [] && s[0].count > e.count {
      assert AtMost(s[1..], m) by {
        forall i | 0 <= i < |s[1..]| ensures s[1..][i].count <= m {
          assert s[1..][i] == s[i + 1];
        }
      }
      InsertAtMost(e, s[1..], m);
      var r := Insert(e, s);
      assert r == [s[0]] + Insert(e, s[1..]);
      forall i | 0 <= i < |r| ensures r[i].count <= m {
        if i > 0 {
          assert r[i] == Insert(e, s[1..])[i - 1];
        }
      }
    }
  }

  /** Inserting into a descending sequence keeps it descending. */
  lemma {:induction false} InsertDescending(e: Entry, s: Tally)
    requires Descending(s)
    ensures Descending(Insert(e, s))
  {
    if s == [] || s[0].count <= e.count {
      assert AtMost(s, e.count) by {
        forall i | 0 <= i < |s| ensures s[i].count <= e.count {
          assert s[0].count >= s[i].count;
        }
      }
      DescendingCons(e, s);
    } else {
      assert s == [s[0]] + s[1..];
      DescendingCons(s[0], s[1..]);
      InsertDescending(e, s[1..]);
      InsertAtMost(e, s[1..], s[0].count);
      DescendingCons(s[0], Insert(e, s[1..]));
    }
  }

  /** `sorted(items, key=count, reverse=True)`: a permutation of the items,
      by descending count, which keeps the original order among items with
      the same count (Python's sort is stable, also in reverse). */
  function SortDescending(t: Tally): (r: Tally)
    ensures multiset(r) == multiset(t)
    ensures Descending(r)
    ensures forall c :: ByCount(r, c) == ByCount(t, c)
  {
    if t == [] then []
    else
      var rest := SortDescending(t[1..]);
      InsertPermutes(t[0], rest);
      InsertDescending(t[0], rest);
      assert t == [t[0]] + t[1..];
      Insert(t[0], rest)
  }

  /** What `main` plots, as (name, count) bars from left to right: the
      names cued at least eight times, each with its exact number of cues,
      most cues first, and names with equal counts in the order they first
      appear in the script. */
  function Report(lines: seq<string>): (r: Tally)
    ensures forall e :: e in r <==>
      e.name != [] && e.count >= MinLines && e.count == CueCount(lines, e.name)
    ensures Descending(r)
    ensures forall c :: ByCount(r, c) == if c >= MinLines then ByCount(TallyOf(lines), c) else []
  {
    var t := TallyOf(lines);
    var r := SortDescending(DropRare(t, MinLines));
    forall c ensures ByCount(DropRare(t, MinLines), c) == if c >= MinLines then ByCount(t, c) else [] {
      DropRareRuns(t, MinLines, c);
    }
    forall e ensures e in r <==> e.name != [] && e.count >= MinLines && e.count == CueCount(lines, e.name) {
      assert e in r <==> e in multiset(r);
      EntryIffCount(t, e);
    }
    r
  }

  /** A descending sequence is determined by its runs of equal counts, so
      the sort's contract pins its result down completely: any descending
      rearrangement that keeps the order among equal counts is the one
      `SortDescending` builds. */
  lemma StableSortUnique(t: Tally, r: Tally)
    requires Descending(r)
    requires forall c :: ByCount(r, c) == ByCount(t, c)
    ensures r == SortDescending(t)
  {
    DescendingUnique(r, SortDescending(t));
  }

  lemma {:induction false} DescendingUnique(a: Tally, b: Tally)
    requires Descending(a) && Descending(b)
    requires forall c :: ByCount(a, c) == ByCount(b, c)
    ensures a == b
    decreases |a|
  {
    if a == [] {
      if b != [] {
        ByCountMembers(b, b[0].count, b[0]);
      }
    } else {
      if b == [] {
        ByCountMembers(a, a[0].count, a[0]);
      }
      SameHead(a, b);
      SameTailRuns(a, b);
      DescendingTail(a);
      DescendingTail(b);
      DescendingUnique(a[1..], b[1..]);
      assert a == [a[0]] + a[1..] && b == [b[0]] + b[1..];
    }
  }

  /** Two non-empty descending sequences with the same runs start alike. */
  lemma SameHead(a: Tally, b: Tally)
    requires a != [] && b != [] && Descending(a) && Descending(b)
    requires forall c :: ByCount(a, c) == ByCount(b, c)
    ensures a[0] == b[0]
  {
    ByCountMembers(a, a[0].count, a[0]);
    ByCountMembers(b, b[0].count, b[0]);
    var x := ByCount(a, b[0].count)[0];
    ByCountMembers(a, b[0].count, x);
    var y := ByCount(b, a[0].count)[0];
    ByCountMembers(b, a[0].count, y);
    HeadIsMax(a, x);
    HeadIsMax(b, y);
    assert a[0].count == b[0].count;
    assert ByCount(a, a[0].count)[0] == a[0];
    assert ByCount(b, a[0].count)[0] == b[0];
  }

  /** Removing the same head keeps the runs equal. */
  lemma SameTailRuns(a: Tally, b: Tally)
    requires a != [] && b != [] && a[0] == b[0]
    requires forall c :: ByCount(a, c) == ByCount(b, c)
    ensures forall c :: ByCount(a[1..], c) == ByCount(b[1..], c)
  {
    forall c ensures ByCount(a[1..], c) == ByCount(b[1..], c) {
      assert ByCount(a, c) == ByCount(b, c);
      if a[0].count == c {
        assert ByCount(a[1..], c) == ByCount(a, c)[1..];
        assert ByCount(b[1..], c) == ByCount(b, c)[1..];
      } else {
        assert ByCount(a[1..], c) == ByCount(a, c);
        assert ByCount(b[1..], c) == ByCount(b, c);
      }
    }
  }

  /** The run of count `c` holds exactly the entries with that count. */
  lemma {:induction false} ByCountMembers(t: Tally, c: int, x: Entry)
    ensures x in ByCount(t, c) <==> x in t && x.count == c
  {
    if t != [] {
      ByCountMembers(t[1..], c, x);
      assert x in t <==> x == t[0] || x in t[1..];
    }
  }

  lemma HeadIsMax(a: Tally, x: Entry)
    requires Descending(a) && x in a
    ensures a[0].count >= x.count
  {
    var i :| 0 <= i < |a| && a[i] == x;
    if i > 0 {
      assert a[0].count >= a[i].count;
    }
  }

  lemma DescendingTail(a: Tally)
    requires Descending(a) && a != []
    ensures Descending(a[1..])
  {
    forall i, j | 0 <= i < j < |a[1..]| ensures a[1..][i].count >= a[1..][j].count {
      assert a[1..][i] == a[i + 1] && a[1..][j] == a[j + 1];
    }
  }

  // ---------------------------------------------------------------------
  // Examples

  /** `k` copies of `x`. */
  function Repeat<T>(x: T, k: nat): (r: seq<T>)
    ensures |r| == k
  {
    if k == 0 then [] else Repeat(x, k - 1) + [x]
  }

  /** A counted line at the end of the script adds its name at the end. */
  lemma {:induction false} CueNamesSnoc(lines: seq<string>, line: string)
    requires Counted(line)
    ensures CueNames(lines + [line]) == CueNames(lines) + [ProcessCharacter(line)]
  {
    var all := lines + [line];
    assert all[..|all| - 1] == lines;
    assert all[|all| - 1] == line;
    CueNamesLast(all, lines, line);
  }

  lemma {:induction false} CueNamesLast(all: seq<string>, init: seq<string>, last: string)
    requires all != [] && all[..|all| - 1] == init && all[|all| - 1] == last
    ensures CueNames(all) == CueNames(init) + (if Counted(last) then [ProcessCharacter(last)] else [])
  {
  }

  /** A script repeating one counted line `k` times is tallied as a single
      entry with count `k`. */
  lemma RepeatedLineTally(line: string, k: nat)
    requires Counted(line)
    ensures TallyOf(Repeat(line, k)) == if k == 0 then [] else [Entry(ProcessCharacter(line), k)]
  {
    RepeatedCueNames(line, k);
    RepeatedTabulate(ProcessCharacter(line), k);
  }

  lemma {:induction false} RepeatedCueNames(line: string, k: nat)
    requires Counted(line)
    ensures CueNames(Repeat(line, k)) == Repeat(ProcessCharacter(line), k)
  {
    if k > 0 {
      CueNamesSnoc(Repeat(line, k - 1), line);
      RepeatedCueNames(line, k - 1);
    }
  }

  lemma {:induction false} RepeatedTabulate(name: string, k: nat)
    ensures Tabulate(Repeat(name, k)) == if k == 0 then [] else [Entry(name, k)]
  {
    if k > 0 {
      var before := Repeat(name, k - 1);
      TabulateStep(before, name);
      RepeatedTabulate(name, k - 1);
      IncrementSingle(name, k - 1);
    }
  }

  lemma IncrementSingle(name: string, k: nat)
    ensures Increment(if k == 0 then [] else [Entry(name, k)], name) == [Entry(name, k + 1)]
  {
    if k > 0 {
      assert [Entry(name, k)][1..] == [];
    }
  }

  /** A single entry survives the filter when its count reaches `min`, and
      sorting one entry changes nothing. */
  lemma SingleEntryReport(e: Entry, min: nat)
    ensures DropRare([e], min) == if e.count >= min then [e] else []
    ensures SortDescending([e]) == [e]
  {
    assert [e][1..] == [];
  }

  /** A script repeating one counted line `k` times reports that name with
      count `k` when `k` reaches the threshold, and nothing otherwise. */
  lemma RepeatedLineReport(line: string, k: nat)
    requires Counted(line)
    ensures Report(Repeat(line, k)) == if k >= MinLines then [Entry(ProcessCharacter(line), k)] else []
  {
    RepeatedLineTally(line, k);
    if k > 0 {
      SingleEntryReport(Entry(ProcessCharacter(line), k), MinLines);
    }
  }

  /** A cue seen seven times is dropped as noise; seen eight times it is
      reported with its count. */
  lemma ThresholdExample(line: string)
    requires line == "JACK"
    ensures Report(Repeat(line, 7)) == []
    ensures Report(Repeat(line, 8)) == [Entry("JACK", 8)]
  {
    JackIsCounted(line);
    RepeatedLineReport(line, 7);
    RepeatedLineReport(line, 8);
  }

  lemma JackIsCounted(line: string)
    requires line == "JACK"
    ensures Counted(line) && ProcessCharacter(line) == "JACK"
  {
    ClassifierExamples(line, "INT. HOUSE - DAY");
    assert RemoveParentheticals(line) == line;
    assert LeadingSpaces(line) == 0;
    assert TrailingSpaces(line) == 0;
  }

  /** Counts go down from left to right, and of two entries with equal
      counts the one seen first stays first. */
  lemma SortExample(a: Entry, b: Entry, c: Entry, d: Entry)
    requires a.count == 10 && b.count == 30 && c.count == 20 && d.count == 10
    ensures SortDescending([a, b, c, d]) == [b, c, a, d]
  {
    SortedTail(b, c, d);
    assert [a, b, c, d][1..] == [b, c, d];
    SortCons([a, b, c, d]);
    InsertLate(a, b, c, d);
  }

  lemma InsertLate(a: Entry, b: Entry, c: Entry, d: Entry)
    requires a.count == 10 && b.count == 30 && c.count == 20 && d.count == 10
    ensures Insert(a, [b, c, d]) == [b, c, a, d]
  {
    InsertPast(a, [b, c, d]);
    InsertPast(a, [c, d]);
    InsertFront(a, [d]);
    assert [b, c, d][1..] == [c, d] && [c, d][1..] == [d];
  }

  lemma SortedTail(b: Entry, c: Entry, d: Entry)
    requires b.count == 30 && c.count == 20 && d.count == 10
    ensures SortDescending([b, c, d]) == [b, c, d]
  {
    SortCons([d]);
    assert [d][1..] == [];
    SortCons([c, d]);
    assert [c, d][1..] == [d];
    InsertFront(c, [d]);
    SortCons([b, c, d]);
    assert [b, c, d][1..] == [c, d];
    InsertFront(b, [c, d]);
  }

  lemma SortCons(t: Tally)
    requires t != []
    ensures SortDescending(t) == Insert(t[0], SortDescending(t[1..]))
  {
  }

  lemma InsertFront(e: Entry, s: Tally)
    requires s == [] || s[0].count <= e.count
    ensures Insert(e, s) == [e] + s
  {
  }

  lemma InsertPast(e: Entry, s: Tally)
    requires s != [] && s[0].count > e.count
    ensures Insert(e, s) == [s[0]] + Insert(e, s[1..])
  {
  }
}
