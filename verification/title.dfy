/**
 The title normaliser of `ScriptSpider.process_title`: a movie name typed by
 the user becomes the slug of the script archive's page, as in
 "the dark knight rises" -> "Dark-Knight-Rises,-The".
 */
module Title {
  import opened Text

  /** The article the archive moves to the end of a slug, with its space. */
  const Article: string := "The "

  /** The article as a word of its own. */
  const ArticleWord: string := "The"

  /** The suffix that replaces a leading article before hyphenation. */
  const MovedArticle: string := ", The"

  /** Every whitespace character of `s` is a plain space. */
  predicate SpacesAreBlank(s: string) {
    forall c :: c in s && IsSpace(c) ==> c == ' '
  }

  /** One character of `movie.replace(' ', '-')`. */
  function Hyphen(c: char): char {
    if c == ' ' then '-' else c
  }

  /** Every space of `s` turned into a hyphen. */
  function Hyphenate(s: string): (r: string)
    ensures |r| == |s|
    ensures forall i :: 0 <= i < |s| ==> r[i] == Hyphen(s[i])
  {
    if s == [] then [] else [Hyphen(s[0])] + Hyphenate(s[1..])
  }

  /** `Hyphenate` is `s.replace(' ', '-')`. */
  lemma HyphenateIsReplace(s: string)
    ensures Hyphenate(s) == ReplaceAll(s, " ", "-")
  {
    ReplaceCharPointwise(s, ' ', '-');
  }

  function CapitalizeAll(ws: seq<string>): (cs: seq<string>)
    ensures |cs| == |ws|
    ensures forall i :: 0 <= i < |ws| ==> cs[i] == Capitalize(ws[i])
  {
    if ws == [] then [] else [Capitalize(ws[0])] + CapitalizeAll(ws[1..])
  }

  /** `string.capwords(s)`: the words of `s` capitalised and joined by single
      spaces. Its words are exactly the capitalised words of `s`, the only
      whitespace it holds is plain spaces, it neither starts nor ends with
      one, and no two of them are adjacent. */
  function Capwords(s: string): (r: string)
    ensures Split(r) == CapitalizeAll(Split(s))
    ensures SpacesAreBlank(r)
    ensures r == [] || (r[0] != ' ' && r[|r| - 1] != ' ')
    ensures forall i :: 0 <= i < |r| - 1 && r[i] == ' ' ==> r[i + 1] != ' '
  {
    var cs := CapitalizeAll(Split(s));
    CapitalizeKeepsWords(Split(s));
    SplitJoin(cs);
    JoinBlank(cs);
    JoinSpacing(cs);
    Join(cs, " ")
  }

  /** No letter of `w` after the first is a capital, as in every word
      `capitalize` returns. */
  predicate NoInnerCapital(w: string) {
    forall i :: 1 <= i < |w| ==> !IsUpper(w[i])
  }

  /** `a` is `b` with some of its elements deleted: what is left keeps its
      order. */
  predicate InOrder(a: seq<string>, b: seq<string>)
    decreases |b|
  {
    a == [] || (b != [] && ((a[0] == b[0] && InOrder(a[1..], b[1..])) || InOrder(a, b[1..])))
  }

  lemma {:induction false} InOrderSelf(ws: seq<string>)
    ensures InOrder(ws, ws)
    decreases |ws|
  {
    if ws != [] {
      InOrderSelf(ws[1..]);
    }
  }

  /** The words `replace('The ', '')` leaves of capitalised words joined by
      single spaces: every word "The" that another word follows is
      deleted. The last word always stays, no word left but the last is
      "The", no word is made up, every word other than "The" stays as often
      as it occurs, and the words left keep their order. */
  function DropArticles(ws: seq<string>): (r: seq<string>)
    ensures |ws| > 0 ==> |r| > 0 && r[|r| - 1] == ws[|ws| - 1]
    ensures forall i :: 0 <= i < |r| - 1 ==> r[i] != ArticleWord
    ensures forall w :: w in r ==> w in ws
    ensures forall w :: w != ArticleWord ==> multiset(r)[w] == multiset(ws)[w]
    ensures InOrder(r, ws)
  {
    if |ws| <= 1 then
      InOrderSelf(ws);
      ws
    else
      assert ws == [ws[0]] + ws[1..];
      if ws[0] == ArticleWord then DropArticles(ws[1..])
      else [ws[0]] + DropArticles(ws[1..])
  }

  /** `process_title` as written: capwords, then, when the result starts with
      "The ", every "The " is deleted and ", The" appended, then spaces become
      hyphens. The slug holds no whitespace at all. In the first case it
      ends in ",-The" and, in front of that, holds the capitalised words
      with every "The" that another word follows deleted; otherwise it is
      the capwords result with each space turned into a hyphen. */
  function ProcessTitle(movie: string): (slug: string)
    ensures NoSpace(slug)
    ensures StartsWith(Capwords(movie), Article) ==> EndsWith(slug, ",-The")
    ensures StartsWith(Capwords(movie), Article) ==>
      slug == Hyphenate(Join(DropArticles(Split(Capwords(movie))), " ") + MovedArticle)
    ensures !StartsWith(Capwords(movie), Article) ==> slug == Hyphenate(Capwords(movie))
  {
    var m := Capwords(movie);
    if StartsWith(m, Article) then
      var rest := ReplaceAll(m, Article, "");
      DeleteKeepsBlank(m, Article);
      MovedSlug(rest);
      CapwordsArticlesDeleted(movie);
      Hyphenate(rest + MovedArticle)
    else
      HyphenateBlank(m);
      Hyphenate(m)
  }

  /** `process_title` as its comment describes it: only the leading article
      is moved to the end. The slug holds no whitespace. When the capwords
      result starts with "The ", the slug is its remaining words joined by
      spaces and hyphenated, followed by ",-The"; otherwise it is the
      capwords result with each space turned into a hyphen. */
  function ProcessTitleIntended(movie: string): (slug: string)
    ensures NoSpace(slug)
    ensures StartsWith(Capwords(movie), Article) ==> EndsWith(slug, ",-The")
    ensures StartsWith(Capwords(movie), Article) ==>
      slug == Hyphenate(Join(Split(Capwords(movie))[1..], " ")) + ",-The"
    ensures !StartsWith(Capwords(movie), Article) ==> slug == Hyphenate(Capwords(movie))
  {
    var m := Capwords(movie);
    if StartsWith(m, Article) then
      var rest := m[|Article|..];
      SuffixKeepsBlank(m, |Article|);
      MovedSlug(rest);
      CapwordsArticleRest(movie);
      HyphenateMoved(rest);
      Hyphenate(rest + MovedArticle)
    else
      HyphenateBlank(m);
      Hyphenate(m)
  }

  // ---------------------------------------------------------------------
  // Helpers

  lemma CapitalizeKeepsWord(w: string)
    requires IsWord(w)
    ensures IsWord(Capitalize(w))
  {
    var r := Capitalize(w);
    forall i | 0 <= i < |r| ensures !IsSpace(r[i]) {
      assert !IsSpace(w[i]);
    }
  }

  lemma {:induction false} CapitalizeKeepsWords(ws: seq<string>)
    requires AllWords(ws)
    ensures AllWords(CapitalizeAll(ws))
  {
    forall i | 0 <= i < |ws| ensures IsWord(CapitalizeAll(ws)[i]) {
      CapitalizeKeepsWord(ws[i]);
    }
  }

  lemma {:induction false} JoinBlank(ws: seq<string>)
    requires AllWords(ws)
    ensures SpacesAreBlank(Join(ws, " "))
    decreases |ws|
  {
    if |ws| == 1 {
      assert NoSpace(ws[0]);
    } else if |ws| > 1 {
      JoinBlank(ws[1..]);
      var j := Join(ws, " ");
      assert j == ws[0] + " " + Join(ws[1..], " ");
      assert NoSpace(ws[0]);
    }
  }

  lemma HyphenateBlank(s: string)
    requires SpacesAreBlank(s)
    ensures NoSpace(Hyphenate(s))
  {
    var h := Hyphenate(s);
    forall i | 0 <= i < |h| ensures !IsSpace(h[i]) {
      assert s[i] in s;
    }
  }

  /** Appending ", The" to text whose only whitespace is spaces and
      hyphenating gives a slug without whitespace that ends in ",-The". */
  lemma MovedSlug(rest: string)
    requires SpacesAreBlank(rest)
    ensures NoSpace(Hyphenate(rest + MovedArticle))
    ensures EndsWith(Hyphenate(rest + MovedArticle), ",-The")
  {
    AppendKeepsBlank(rest, MovedArticle);
    MovedArticleSuffix(rest);
    HyphenateBlank(rest + MovedArticle);
  }

  lemma DeleteKeepsBlank(s: string, pat: string)
    requires pat != [] && SpacesAreBlank(s)
    ensures SpacesAreBlank(ReplaceAll(s, pat, ""))
  {
    ReplaceChars(s, pat, "");
  }

  lemma AppendKeepsBlank(s: string, t: string)
    requires SpacesAreBlank(s) && SpacesAreBlank(t)
    ensures SpacesAreBlank(s + t)
  {
  }

  lemma SuffixKeepsBlank(s: string, k: nat)
    requires k <= |s| && SpacesAreBlank(s)
    ensures SpacesAreBlank(s[k..])
  {
    forall c | c in s[k..] && IsSpace(c) ensures c == ' ' {
      var j :| 0 <= j < |s[k..]| && s[k..][j] == c;
      assert s[k + j] == c;
    }
  }

  /** Appending ", The" and hyphenating leaves the slug ending in ",-The". */
  lemma MovedArticleSuffix(rest: string)
    ensures EndsWith(Hyphenate(rest + MovedArticle), ",-The")
  {
    var s := rest + MovedArticle;
    var h := Hyphenate(s);
    var k := |rest|;
    assert |h| == k + 5;
    assert h[k] == Hyphen(s[k]) == ',';
    assert h[k + 1] == Hyphen(s[k + 1]) == '-';
    assert h[k + 2] == Hyphen(s[k + 2]) == 'T';
    assert h[k + 3] == Hyphen(s[k + 3]) == 'h';
    assert h[k + 4] == Hyphen(s[k + 4]) == 'e';
    assert h[k..] == ",-The";
  }

  lemma HyphenateAppend(a: string, b: string)
    ensures Hyphenate(a + b) == Hyphenate(a) + Hyphenate(b)
  {
    var l, r := Hyphenate(a + b), Hyphenate(a) + Hyphenate(b);
    forall i | 0 <= i < |l| ensures l[i] == r[i] {
      if i < |a| {
        assert (a + b)[i] == a[i];
      } else {
        assert (a + b)[i] == b[i - |a|];
      }
    }
  }

  /** Text without a `T` holds no "The ". */
  lemma NoArticleWithoutT(s: string)
    requires 'T' !in s
    ensures !Contains(s, Article)
  {
    forall i | 0 <= i <= |s| - |Article| ensures !OccursAt(s, Article, i) {
      assert s[i..i + 4][0] == s[i];
      assert s[i] in s;
    }
  }

  /** capwords of words joined by spaces capitalises each word. */
  lemma CapwordsOfWords(ws: seq<string>)
    requires AllWords(ws)
    ensures Capwords(Join(ws, " ")) == Join(CapitalizeAll(ws), " ")
  {
    SplitJoin(ws);
  }

  // ---------------------------------------------------------------------
  // Properties

  /** The slug of a title whose capwords form is `m` and starts with the
      article, with `rest` what deleting every "The " leaves. */
  lemma SlugOfArticleTitle(movie: string, m: string, rest: string, slug: string)
    requires Capwords(movie) == m && StartsWith(m, Article)
    requires ReplaceAll(m, Article, "") == rest
    requires Hyphenate(rest + MovedArticle) == slug
    ensures ProcessTitle(movie) == slug
  {
  }

  lemma DarkKnightWords()
    ensures AllWords(["the", "dark", "knight", "rises"])
  {
  }

  lemma DarkKnightJoins()
    ensures Join(["the", "dark", "knight", "rises"], " ") == "the dark knight rises"
    ensures Join(["The", "Dark", "Knight", "Rises"], " ") == "The Dark Knight Rises"
  {
    JoinFour("the", "dark", "knight", "rises", "the dark knight rises");
    JoinFour("The", "Dark", "Knight", "Rises", "The Dark Knight Rises");
  }

  lemma DarkKnightCapitals()
    ensures CapitalizeAll(["the", "dark", "knight", "rises"]) == ["The", "Dark", "Knight", "Rises"]
  {
    CapitalizeWord("the", "The");
    CapitalizeWord("dark", "Dark");
    CapitalizeWord("knight", "Knight");
    CapitalizeWord("rises", "Rises");
    CapitalizeFour("the", "dark", "knight", "rises", "The", "Dark", "Knight", "Rises");
  }

  lemma CapitalizeFour(a: string, b: string, c: string, d: string, a': string, b': string, c': string, d': string)
    requires Capitalize(a) == a' && Capitalize(b) == b' && Capitalize(c) == c' && Capitalize(d) == d'
    ensures CapitalizeAll([a, b, c, d]) == [a', b', c', d']
  {
  }

  /** `capitalize` of a lower-case word only upper-cases its first letter. */
  lemma CapitalizeWord(w: string, u: string)
    requires w != [] && |u| == |w| && u[0] == ToUpper(w[0])
    requires forall i :: 1 <= i < |w| ==> IsLower(w[i]) && u[i] == w[i]
    ensures Capitalize(w) == u
  {
  }

  lemma DarkKnightDeleted()
    ensures ReplaceAll("The Dark Knight Rises", Article, "") == "Dark Knight Rises"
  {
    DeleteLeadingArticleOnly("The Dark Knight Rises", "Dark Knight Rises");
  }

  /** A title whose only capital T is that of its leading article loses
      just the article. */
  lemma DeleteLeadingArticleOnly(m: string, rest: string)
    requires m == Article + rest && 'T' !in rest
    ensures ReplaceAll(m, Article, "") == rest
  {
    ReplaceLeadingArticle(rest);
    NoArticleWithoutT(rest);
    ReplaceAbsent(rest, Article, "");
  }

  lemma DarkKnightHyphens(s: string)
    requires s == "Dark Knight Rises" + MovedArticle
    ensures Hyphenate(s) == "Dark-Knight-Rises,-The"
  {
  }

  lemma InceptionWords()
    ensures AllWords(["inception"])
    ensures Join(["inception"], " ") == "inception"
    ensures Join(["Inception"], " ") == "Inception"
  {
  }

  lemma InceptionCapitals()
    ensures CapitalizeAll(["inception"]) == ["Inception"]
  {
    CapitalizeWord("inception", "Inception");
  }

  lemma InceptionHyphens(s: string)
    requires s == "Inception"
    ensures Hyphenate(s) == "Inception"
  {
  }

  /** The two examples of the title normaliser: a leading article moves to
      the end, and a one-word title is only capitalised. */
  lemma TitleExamples()
    ensures ProcessTitle("the dark knight rises") == "Dark-Knight-Rises,-The"
    ensures ProcessTitle("inception") == "Inception"
  {
    DarkKnightSlugged();
    InceptionSlugged();
  }

  lemma DarkKnightCapwords()
    ensures Capwords("the dark knight rises") == "The Dark Knight Rises"
  {
    DarkKnightWords();
    DarkKnightJoins();
    DarkKnightCapitals();
    CapwordsOfWords(["the", "dark", "knight", "rises"]);
  }

  lemma DarkKnightSlugged()
    ensures ProcessTitle("the dark knight rises") == "Dark-Knight-Rises,-The"
  {
    DarkKnightCapwords();
    DarkKnightDeleted();
    DarkKnightHyphens("Dark Knight Rises" + MovedArticle);
    SlugOfArticleTitle("the dark knight rises", "The Dark Knight Rises", "Dark Knight Rises", "Dark-Knight-Rises,-The");
  }

  lemma InceptionSlugged()
    ensures ProcessTitle("inception") == "Inception"
  {
    InceptionWords();
    InceptionCapitals();
    InceptionHyphens("Inception");
    CapwordsOfWords(["inception"]);
  }

  lemma RingsWords()
    ensures AllWords(["lord", "of", "the", "rings"])
  {
  }

  lemma RingsLower()
    ensures "lord of the rings" == "lord" + " " + "of" + " " + "the" + " " + "rings"
    ensures Join(["lord", "of", "the", "rings"], " ") == "lord of the rings"
  {
    JoinFour("lord", "of", "the", "rings", "lord of the rings");
  }

  lemma RingsUpper()
    ensures "Lord Of The Rings" == "Lord" + " " + "Of" + " " + "The" + " " + "Rings"
    ensures Join(["Lord", "Of", "The", "Rings"], " ") == "Lord Of The Rings"
  {
    JoinFour("Lord", "Of", "The", "Rings", "Lord Of The Rings");
  }

  lemma RingsThe()
    ensures "the lord of the rings" == "the" + " " + "lord of the rings"
    ensures "The" + " " + "Lord Of The Rings" == "The Lord Of The Rings"
  {
  }

  /** Four words joined by single spaces. */
  lemma JoinFour(a: string, b: string, c: string, d: string, s: string)
    requires s == a + " " + b + " " + c + " " + d
    ensures Join([a, b, c, d], " ") == s
  {
    assert [a, b, c, d][1..] == [b, c, d] && [b, c, d][1..] == [c, d] && [c, d][1..] == [d];
    assert Join([d], " ") == d;
    assert Join([c, d], " ") == c + " " + d;
    assert Join([b, c, d], " ") == b + " " + (c + " " + d);
    assert Join([a, b, c, d], " ") == a + " " + (b + " " + (c + " " + d));
  }

  lemma RingsSplit(s: string)
    requires s == "lord of the rings"
    ensures Split(s) != []
  {
  }

  /** Deleting every "The " from "The " + a + "The " + b, where neither `a`
      nor `b` holds a `T`, leaves a + b. */
  lemma DeleteBothArticles(m: string, lord: string, rings: string)
    requires 'T' !in lord && 'T' !in rings && m == Article + lord + Article + rings
    ensures ReplaceAll(m, Article, "") == lord + rings
  {
    var tail := Article + rings;
    assert ReplaceAll(tail, Article, "") == rings by {
      NoArticleWithoutT(rings);
      ReplaceAbsent(rings, Article, "");
      ReplaceLeadingArticle(rings);
    }
    assert ReplaceAll(lord + tail, Article, "") == lord + rings by {
      ReplaceAfterNoT(lord, tail);
    }
    assert m == Article + (lord + tail);
    ReplaceLeadingArticle(lord + tail);
  }

  lemma ReplaceLeadingArticle(x: string)
    ensures ReplaceAll(Article + x, Article, "") == ReplaceAll(x, Article, "")
  {
    assert (Article + x)[|Article|..] == x;
    assert StartsWith(Article + x, Article);
  }

  /** Text without a `T` in front of the rest passes through the deletion of
      "The " untouched. */
  lemma {:induction false} ReplaceAfterNoT(a: string, b: string)
    requires 'T' !in a
    ensures ReplaceAll(a + b, Article, "") == a + ReplaceAll(b, Article, "")
    decreases |a|
  {
    if a != [] {
      assert a[0] in a;
      assert (a + b)[0] == a[0] && Article[0] == 'T';
      assert !StartsWith(a + b, Article);
      assert (a + b)[1..] == a[1..] + b;
      ReplaceAfterNoT(a[1..], b);
    } else {
      assert a + b == b;
    }
  }

  lemma RingsHyphensA(a: string)
    requires a == "Lord Of Rings" + MovedArticle
    ensures Hyphenate(a) == "Lord-Of-Rings,-The"
  {
  }

  lemma RingsHyphensB(b: string)
    requires b == "Lord Of The Rings" + MovedArticle
    ensures Hyphenate(b) == "Lord-Of-The-Rings,-The"
  {
  }

  lemma RingsHyphensC(c: string)
    requires c == "Lord Of The Rings"
    ensures Hyphenate(c) == "Lord-Of-The-Rings"
  {
  }

  /** capwords of the two Rings titles, with and without the leading "the". */
  lemma RingsCapwords()
    ensures Capwords("lord of the rings") == "Lord Of The Rings"
    ensures Capwords("the lord of the rings") == "The Lord Of The Rings"
  {
    RingsWords();
    RingsLower();
    RingsUpper();
    RingsThe();
    CapitalizeWord("the", "The");
    CapitalizeWord("lord", "Lord");
    CapitalizeWord("of", "Of");
    CapitalizeWord("rings", "Rings");
    CapitalizeFour("lord", "of", "the", "rings", "Lord", "Of", "The", "Rings");
    CapwordsOfWords(["lord", "of", "the", "rings"]);
    RingsSplit("lord of the rings");
    TheIsWord();
    CapwordsCons("the", "lord of the rings");
  }

  lemma RingsLiterals()
    ensures 'T' !in "Lord Of " && 'T' !in "Rings"
    ensures "The Lord Of The Rings" == Article + "Lord Of " + Article + "Rings"
    ensures "Lord Of " + "Rings" == "Lord Of Rings"
    ensures "The Lord Of The Rings"[|Article|..] == "Lord Of The Rings"
    ensures StartsWith("The Lord Of The Rings", Article)
    ensures !StartsWith("Lord Of The Rings", Article)
  {
    assert "Lord Of The Rings"[0] != Article[0];
  }

  lemma RingsAsWritten()
    ensures ProcessTitle("the lord of the rings") == "Lord-Of-Rings,-The"
  {
    RingsLiterals();
    RingsCapwords();
    DeleteBothArticles("The Lord Of The Rings", "Lord Of ", "Rings");
    RingsHyphensA("Lord Of Rings" + MovedArticle);
    SlugOfArticleTitle("the lord of the rings", "The Lord Of The Rings", "Lord Of Rings", "Lord-Of-Rings,-The");
  }

  lemma RingsIntended()
    ensures ProcessTitleIntended("the lord of the rings") == "Lord-Of-The-Rings,-The"
    ensures ProcessTitle("lord of the rings") == "Lord-Of-The-Rings"
  {
    RingsLiterals();
    RingsCapwords();
    RingsHyphensB("Lord Of The Rings" + MovedArticle);
    RingsHyphensC("Lord Of The Rings");
  }

  /** The "The " of the title's own words is deleted along with the leading
      one, whereas only the leading one should move: the slug of "the lord of
      the rings" is not the slug of "lord of the rings" followed by ",-The". */
  lemma InnerArticleDropped()
    ensures ProcessTitle("the lord of the rings") == "Lord-Of-Rings,-The"
    ensures ProcessTitleIntended("the lord of the rings") == "Lord-Of-The-Rings,-The"
    ensures ProcessTitle("the lord of the rings") != ProcessTitle("lord of the rings") + ",-The"
  {
    RingsAsWritten();
    RingsIntended();
    assert |"Lord-Of-Rings,-The"| != |"Lord-Of-The-Rings" + ",-The"|;
  }

  /** The corrected normaliser moves a leading "the" to the end of the slug
      of the rest of the title and leaves that slug as it is. */
  lemma {:induction false} IntendedMovesLeadingArticle(t: string)
    requires Split(t) != []
    requires !StartsWith(Capwords(t), Article)
    ensures ProcessTitleIntended("the " + t) == ProcessTitleIntended(t) + ",-The"
  {
    var c := Capwords(t);
    CapwordsLeadingThe(t);
    HyphenateMoved(c);
    IntendedOfArticleTitle("the " + t, c);
  }

  lemma CapwordsLeadingThe(t: string)
    requires Split(t) != []
    ensures Capwords("the " + t) == Article + Capwords(t)
  {
    TheLiterals(t, Capwords(t));
    TheIsWord();
    CapwordsCons("the", t);
  }

  lemma TheLiterals(t: string, c: string)
    ensures "the " + t == "the" + " " + t
    ensures "The" + " " + c == Article + c
  {
  }

  lemma HyphenateMoved(c: string)
    ensures Hyphenate(c + MovedArticle) == Hyphenate(c) + ",-The"
  {
    HyphenateAppend(c, MovedArticle);
    MovedArticleHyphenated(MovedArticle);
  }

  lemma IntendedOfArticleTitle(movie: string, c: string)
    requires Capwords(movie) == Article + c
    ensures ProcessTitleIntended(movie) == Hyphenate(c + MovedArticle)
  {
    assert (Article + c)[|Article|..] == c;
  }

  lemma MovedArticleHyphenated(s: string)
    requires s == MovedArticle
    ensures Hyphenate(s) == ",-The"
  {
  }

  /** capwords of a word, a space and more words. */
  lemma CapwordsCons(w: string, t: string)
    requires IsWord(w) && Split(t) != []
    ensures Capwords(w + " " + t) == Capitalize(w) + " " + Capwords(t)
  {
    var x := w + " " + t;
    assert x == w + [' '] + t;
    var ws := Split(t);
    SplitCons(w, ' ', t);
    var cs := CapitalizeAll(ws);
    CapitalizeAllCons(w, ws);
    assert CapitalizeAll(Split(x)) == [Capitalize(w)] + cs;
    JoinCons(Capitalize(w), cs, " ");
  }

  lemma TheIsWord()
    ensures IsWord("the")
    ensures Capitalize("the") == "The"
  {
  }

  lemma CapitalizeAllCons(w: string, ws: seq<string>)
    ensures CapitalizeAll([w] + ws) == [Capitalize(w)] + CapitalizeAll(ws)
  {
  }

  lemma JoinCons(w: string, ws: seq<string>, sep: string)
    requires ws != []
    ensures Join([w] + ws, sep) == w + sep + Join(ws, sep)
  {
    assert ([w] + ws)[1..] == ws;
  }

  /** Deleting every "The " from capitalised words joined by single spaces
      deletes exactly the words "The" that another word follows. */
  lemma {:induction false} DeleteArticleWords(ws: seq<string>)
    requires AllWords(ws)
    requires forall i :: 0 <= i < |ws| ==> NoInnerCapital(ws[i])
    ensures ReplaceAll(Join(ws, " "), Article, "") == Join(DropArticles(ws), " ")
    decreases |ws|
  {
    if |ws| == 1 {
      WordHoldsNoArticle(ws[0]);
      ReplaceAbsent(ws[0], Article, "");
    } else if |ws| > 1 {
      DeleteArticleWords(ws[1..]);
      DeleteFirstWord(ws);
    }
  }

  /** One step of `DeleteArticleWords`: the first of at least two words. */
  lemma DeleteFirstWord(ws: seq<string>)
    requires |ws| > 1 && IsWord(ws[0]) && NoInnerCapital(ws[0])
    requires ReplaceAll(Join(ws[1..], " "), Article, "") == Join(DropArticles(ws[1..]), " ")
    ensures ReplaceAll(Join(ws, " "), Article, "") == Join(DropArticles(ws), " ")
  {
    var w, rest := ws[0], Join(ws[1..], " ");
    assert Join(ws, " ") == w + " " + rest;
    if w == ArticleWord {
      DeleteArticleThenWords(rest);
    } else {
      DeleteKeptWord(w, rest, DropArticles(ws[1..]));
    }
  }

  lemma DeleteArticleThenWords(rest: string)
    ensures ReplaceAll(ArticleWord + " " + rest, Article, "") == ReplaceAll(rest, Article, "")
  {
    assert ArticleWord + " " + rest == Article + rest;
    ReplaceLeadingArticle(rest);
  }

  lemma DeleteKeptWord(w: string, rest: string, kept: seq<string>)
    requires IsWord(w) && NoInnerCapital(w) && w != ArticleWord && kept != []
    requires ReplaceAll(rest, Article, "") == Join(kept, " ")
    ensures ReplaceAll(w + " " + rest, Article, "") == Join([w] + kept, " ")
  {
    KeepWord(w, rest);
    JoinCons(w, kept, " ");
  }

  /** Deleting every "The " from a capwords result deletes the words "The"
      that another word follows. */
  lemma CapwordsArticlesDeleted(movie: string)
    ensures ReplaceAll(Capwords(movie), Article, "") == Join(DropArticles(Split(Capwords(movie))), " ")
  {
    var cs := CapitalizeAll(Split(movie));
    assert Capwords(movie) == Join(cs, " ");
    CapitalizeKeepsWords(Split(movie));
    CapitalizedWords(Split(movie));
    DeleteArticleWords(cs);
  }

  lemma CapitalizedWords(ws: seq<string>)
    ensures forall i :: 0 <= i < |ws| ==> NoInnerCapital(CapitalizeAll(ws)[i])
  {
    forall i | 0 <= i < |ws| ensures NoInnerCapital(CapitalizeAll(ws)[i]) {
      var c := CapitalizeAll(ws)[i];
      assert c == Capitalize(ws[i]);
      forall k | 1 <= k < |c| ensures !IsUpper(c[k]) {
        assert c[k] == ToLower(ws[i][k]);
      }
    }
  }

  /** A capwords result that starts with "The " has "The" as its first
      word, and what follows the article is the rest of its words joined by
      spaces. */
  lemma CapwordsArticleRest(movie: string)
    requires StartsWith(Capwords(movie), Article)
    ensures |Split(Capwords(movie))| >= 2 && Split(Capwords(movie))[0] == ArticleWord
    ensures Capwords(movie)[|Article|..] == Join(Split(Capwords(movie))[1..], " ")
  {
    var cs := CapitalizeAll(Split(movie));
    assert Capwords(movie) == Join(cs, " ");
    CapitalizeKeepsWords(Split(movie));
    JoinArticle(cs);
    var m := Join(cs, " ");
    assert m == Article + Join(cs[1..], " ");
  }

  /** Words joined by single spaces start with "The " only when there are
      at least two of them and the first is "The". */
  lemma JoinArticle(cs: seq<string>)
    requires AllWords(cs)
    ensures StartsWith(Join(cs, " "), Article) ==> |cs| >= 2 && cs[0] == ArticleWord
  {
    if |cs| == 1 {
      WordHoldsNoArticle(cs[0]);
      assert StartsWith(cs[0], Article) ==> OccursAt(cs[0], Article, 0);
    } else if |cs| >= 2 && cs[0] != ArticleWord {
      NotArticleStart(cs[0], Join(cs[1..], " "));
    }
  }

  /** A single word holds no "The ", whose last character is a space. */
  lemma WordHoldsNoArticle(w: string)
    requires NoSpace(w)
    ensures !Contains(w, Article)
  {
    forall i | 0 <= i <= |w| - |Article| ensures !OccursAt(w, Article, i) {
      assert w[i..i + 4][3] == w[i + 3] && Article[3] == ' ';
      assert !IsSpace(w[i + 3]);
    }
  }

  /** A capitalised word other than "The", followed by a space, passes
      through the deletion of "The " untouched. */
  lemma KeepWord(w: string, rest: string)
    requires IsWord(w) && NoInnerCapital(w) && w != ArticleWord
    ensures ReplaceAll(w + " " + rest, Article, "") == w + " " + ReplaceAll(rest, Article, "")
  {
    var x := " " + rest;
    NotArticleStart(w, rest);
    Recompose(w, " ", rest);
    FirstKept(w[0], w[1..] + x);
    NoCapitalInTail(w);
    ReplaceAfterNoT(w[1..], x);
    ReplaceAfterNoT(" ", rest);
    Recompose(w, " ", ReplaceAll(rest, Article, ""));
  }

  /** A non-empty word, then `a`, then `b`, is its first letter followed by
      the rest of it, `a` and `b`. */
  lemma Recompose(w: string, a: string, b: string)
    requires w != []
    ensures w + a + b == [w[0]] + (w[1..] + (a + b))
  {
  }

  /** A text that does not start with "The " keeps its first character. */
  lemma FirstKept(c: char, t: string)
    requires !StartsWith([c] + t, Article)
    ensures ReplaceAll([c] + t, Article, "") == [c] + ReplaceAll(t, Article, "")
  {
    assert ([c] + t)[1..] == t;
  }

  lemma NoCapitalInTail(w: string)
    requires w != [] && NoInnerCapital(w)
    ensures 'T' !in w[1..]
  {
    forall i | 0 <= i < |w[1..]| ensures w[1..][i] != 'T' {
      assert w[1..][i] == w[i + 1];
    }
  }

  lemma NotArticleStart(w: string, rest: string)
    requires IsWord(w) && w != ArticleWord
    ensures !StartsWith(w + " " + rest, Article)
  {
    var s := w + " " + rest;
    assert s[|w|] == ' ';
    if |w| >= 4 {
      assert s[3] == w[3];
    } else if |w| == 3 {
      assert s[..3] == w;
    }
  }

  /** The normaliser as written and as intended agree exactly when no
      further "The " follows a leading one. */
  lemma {:induction false} AsWrittenMatchesIntended(movie: string)
    ensures ProcessTitle(movie) == ProcessTitleIntended(movie) <==>
      (StartsWith(Capwords(movie), Article) ==>
        !Contains(Capwords(movie)[|Article|..], Article))
  {
    var m := Capwords(movie);
    if StartsWith(m, Article) {
      var rest := m[|Article|..];
      assert ReplaceAll(m, Article, "") == ReplaceAll(rest, Article, "");
      if !Contains(rest, Article) {
        ReplaceAbsent(rest, Article, "");
      } else {
        ReplaceShrinks(rest, Article);
        assert |ProcessTitle(movie)| < |ProcessTitleIntended(movie)|;
      }
    }
  }

  /** Deleting a pattern that occurs makes the text shorter. */
  lemma {:induction false} ReplaceShrinks(s: string, pat: string)
    requires pat != [] && Contains(s, pat)
    ensures |ReplaceAll(s, pat, "")| < |s|
    decreases |s|
  {
    var i :| 0 <= i <= |s| - |pat| && OccursAt(s, pat, i);
    if StartsWith(s, pat) {
      ReplaceNoLonger(s[|pat|..], pat);
    } else {
      assert i > 0;
      assert OccursAt(s[1..], pat, i - 1) by {
        assert s[1..][i - 1..i - 1 + |pat|] == s[i..i + |pat|];
      }
      ReplaceShrinks(s[1..], pat);
    }
  }

  lemma {:induction false} ReplaceNoLonger(s: string, pat: string)
    requires pat != []
    ensures |ReplaceAll(s, pat, "")| <= |s|
    decreases |s|
  {
    if s != [] {
      if StartsWith(s, pat) {
        ReplaceNoLonger(s[|pat|..], pat);
      } else {
        ReplaceNoLonger(s[1..], pat);
      }
    }
  }
}
