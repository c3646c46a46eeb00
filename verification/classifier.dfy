/**
 The line classifier of `ScriptSpider.is_character`: decides whether one
 bolded line of a screenplay is a character cue (the name above a speech)
 rather than a scene heading, a transition, a page number or other text.
 */
module Classifier {
  import opened Text

  /** Scene headings. */
  const SceneHeadings: seq<string> := ["INT.", "EXT."]

  /** Transitions. */
  const Transitions: seq<string> := [" DISSOLVE ", " FADE ", " SMASH ", " CUT TO", " TO BLACK"]

  /** Punctuation no cue carries. */
  const Symbols: seq<string> := ["?", "!", ":"]

  /** End markers and omitted scenes. */
  const Misc: seq<string> := ["THE END", "OMITTED", " OMIT "]

  /** Every substring whose presence rejects a line. */
  const RejectedPhrases: seq<string> := SceneHeadings + Transitions + Symbols + Misc

  /** `a in line or b in line or ...` over `subs`. */
  function ContainsAny(line: string, subs: seq<string>): (b: bool)
    ensures b <==> exists p :: p in subs && Contains(line, p)
  {
    if subs == [] then false
    else Contains(line, subs[0]) || ContainsAny(line, subs[1..])
  }

  /** No rejected substring occurs in `line`. */
  predicate NoRejectedPhrase(line: string) {
    forall p :: p in RejectedPhrases ==> !Contains(line, p)
  }

  /** `is_character(line)`, rule by rule in the order of the source. An
      empty `line.strip()` and an empty `''.join(line.split())` raise
      `IndexError`, which the source turns into a rejection. A line is a cue
      exactly when it holds none of the rejected substrings, is not all
      whitespace, its last non-whitespace character is not a full stop, and
      its first non-whitespace character is neither a digit nor an opening
      parenthesis. */
  predicate IsCharacter(line: string)
    ensures IsCharacter(line) <==>
      && NoRejectedPhrase(line)
      && Strip(line) != []
      && Strip(line)[|Strip(line)| - 1] != '.'
      && !IsDigit(Strip(line)[0])
      && Strip(line)[0] != '('
  {
    ConcatSplitFirst(line);
    RejectedPhrasesByGroup(line);
    if ContainsAny(line, SceneHeadings) then false
    else if ContainsAny(line, Transitions) then false
    else
      var stripped := Strip(line);
      if stripped == [] then false
      else if stripped[|stripped| - 1] == '.' then false
      else
        var joined := Concat(Split(line));
        if joined == [] then false
        else if IsDigit(joined[0]) || joined[0] == '(' then false
        else if ContainsAny(line, Symbols) then false
        else if ContainsAny(line, Misc) then false
        else true
  }

  // ---------------------------------------------------------------------
  // Properties

  /** The rejected substrings are the four groups together. */
  lemma RejectedPhrasesByGroup(line: string)
    ensures NoRejectedPhrase(line) <==>
      && !ContainsAny(line, SceneHeadings) && !ContainsAny(line, Transitions)
      && !ContainsAny(line, Symbols) && !ContainsAny(line, Misc)
  {
    assert forall p :: p in RejectedPhrases <==>
      p in SceneHeadings || p in Transitions || p in Symbols || p in Misc;
  }

  /** Each rejected substring on its own rejects the line. */
  lemma RejectedPhraseRejects(line: string, p: string)
    requires p in RejectedPhrases && Contains(line, p)
    ensures !IsCharacter(line)
  {
  }

  /** Blank lines and lines ending in a full stop are not cues. */
  lemma BlankOrSentenceRejected(line: string)
    requires Strip(line) == [] || Strip(line)[|Strip(line)| - 1] == '.'
    ensures !IsCharacter(line)
  {
  }

  /** Page numbers and lines opening with a parenthetical are not cues, the
      first character being read past any leading whitespace. */
  lemma NumberOrParenthesisRejected(line: string)
    requires LeadingSpaces(line) < |line|
    requires IsDigit(line[LeadingSpaces(line)]) || line[LeadingSpaces(line)] == '('
    ensures !IsCharacter(line)
  {
    ConcatSplitFirst(line);
    assert TrimLeft(line)[0] == line[LeadingSpaces(line)];
  }

  /** A typical cue is accepted and a typical scene heading is not. */
  lemma ClassifierExamples(cue: string, heading: string)
    requires cue == "JACK" && heading == "INT. HOUSE - DAY"
    ensures IsCharacter(cue)
    ensures !IsCharacter(heading)
  {
    assert OccursAt(heading, "INT.", 0);
    assert "INT." in RejectedPhrases;
    CueHasNoRejectedPhrase(cue);
    assert LeadingSpaces(cue) == 0;
    assert TrailingSpaces(cue) == 0;
  }

  lemma CueHasNoRejectedPhrase(cue: string)
    requires cue == "JACK"
    ensures NoRejectedPhrase(cue)
  {
    forall p | p in RejectedPhrases ensures !Contains(cue, p) {
      forall i | 0 <= i <= |cue| - |p| ensures !OccursAt(cue, p, i) {
        assert cue[i..i + |p|][0] == cue[i];
        assert cue[i] in cue;
      }
    }
  }
}
