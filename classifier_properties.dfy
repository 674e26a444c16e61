/**
 * What `is_backchannel_only` guarantees: blank text never counts as a
 * backchannel, a command word anywhere overrides everything, case does not
 * matter, any utterance made only of backchannel words is accepted, and the
 * substring command check agrees with a classifier that looks at whole words.
 */
module BackchannelProperties {
  import opened PyStr
  import opened InterruptConfig

  // ---------------------------------------------------------------------------
  // From the normalized text to the word list
  // ---------------------------------------------------------------------------

  /** A piece of text without whitespace or punctuation marks that occurs in the
      normalized text ends up inside one of the words. */
  lemma PieceReachesWords(text: string, m: string, p: nat)
    requires m != [] && NoSpace(m) && NoPunctuation(m)
    requires OccursAt(Normalize(text), m, p)
    ensures SomeContains(Words(text), m)
  {
    var s0 := Normalize(text);
    var s1 := RemoveChar(s0, ',');
    var s2 := RemoveChar(s1, '.');
    var s3 := RemoveChar(s2, '!');
    var s4 := RemoveChar(s3, '?');
    RemoveCharKeepsOccurrence(s0, ',', m, p);
    var p1 := |RemoveChar(s0[..p], ',')|;
    RemoveCharKeepsOccurrence(s1, '.', m, p1);
    var p2 := |RemoveChar(s1[..p1], '.')|;
    RemoveCharKeepsOccurrence(s2, '!', m, p2);
    var p3 := |RemoveChar(s2[..p2], '!')|;
    RemoveCharKeepsOccurrence(s3, '?', m, p3);
    var p4 := |RemoveChar(s3[..p3], '?')|;
    assert s4 == RemovePunctuation(s0);
    SplitKeepsPiece(s4, m, p4);
  }

  /** When a command word occurs in the normalized text, some word of the word
      list is not a backchannel word. */
  lemma CommandSpoilsWords(text: string)
    requires MentionsCommand(Normalize(text))
    ensures !AllBackchannel(Words(text))
  {
    var cmd :| cmd in COMMAND_WORDS && Contains(Normalize(text), cmd);
    var p: nat :| p <= |Normalize(text)| && OccursAt(Normalize(text), cmd, p);
    WordListsPlain();
    PlainWordFacts(cmd);
    PieceReachesWords(text, cmd, p);
    var k :| 0 <= k < |Words(text)| && Contains(Words(text)[k], cmd);
    if Words(text)[k] in BACKCHANNEL_WORDS {
      NoCommandInsideBackchannel(Words(text)[k], cmd);
    }
  }

  // ---------------------------------------------------------------------------
  // The classifier decided by its word list alone
  // ---------------------------------------------------------------------------

  /** The text is a backchannel exactly when its word list is non-empty and
      holds only backchannel words: the substring command check never changes
      the outcome, because no backchannel word contains a command word. */
  lemma BackchannelIffAllWordsBackchannel(text: string)
    ensures IsBackchannelOnly(text) <==> AllBackchannel(Words(text))
  {
    if AllBackchannel(Words(text)) {
      if MentionsCommand(Normalize(text)) {
        CommandSpoilsWords(text);
      }
    }
  }

  /** The outcome of a classifier that looks only at whole words. */
  datatype Category = Backchannel | CommandOrSubstantive

  /** Some word of the list is a command word. */
  predicate HasCommandWord(words: seq<string>) {
    exists k :: 0 <= k < |words| && words[k] in COMMAND_WORDS
  }

  /** Classification by whole words: a command word among the words wins,
      otherwise a non-empty list of backchannel words is a backchannel, and
      anything else is substantive. */
  function ClassifyWords(words: seq<string>): (c: Category)
    ensures c == Backchannel <==> AllBackchannel(words)
  {
    WordListsDisjoint();
    if HasCommandWord(words) then
      assert !AllBackchannel(words) by {
        var k :| 0 <= k < |words| && words[k] in COMMAND_WORDS;
      }
      CommandOrSubstantive
    else if AllBackchannel(words) then Backchannel
    else CommandOrSubstantive
  }

  /** The substring-based classifier and the whole-word classifier agree on
      every text. */
  lemma AgreesWithWordClassifier(text: string)
    ensures IsBackchannelOnly(text) <==> ClassifyWords(Words(text)) == Backchannel
  {
    BackchannelIffAllWordsBackchannel(text);
  }

  /** Soundness: an accepted text has a non-empty word list of backchannel words
      and holds no command word, even before stripping. */
  lemma Soundness(text: string)
    requires IsBackchannelOnly(text)
    ensures |Words(text)| > 0
    ensures forall k :: 0 <= k < |Words(text)| ==> Words(text)[k] in BACKCHANNEL_WORDS
    ensures forall cmd :: cmd in COMMAND_WORDS ==> !Contains(Lower(text), cmd)
  {
    forall cmd | cmd in COMMAND_WORDS
      ensures !Contains(Lower(text), cmd)
    {
      if Contains(Lower(text), cmd) {
        var p: nat :| p <= |Lower(text)| && OccursAt(Lower(text), cmd, p);
        WordListsPlain();
        PlainWordFacts(cmd);
        StripKeepsOccurrence(Lower(text), cmd, p);
        assert false;
      }
    }
  }

  /** Completeness: a text whose word list is non-empty and holds only
      backchannel words is accepted; no separate check for command words is
      needed. */
  lemma Completeness(text: string)
    requires |Words(text)| > 0
    requires forall k :: 0 <= k < |Words(text)| ==> Words(text)[k] in BACKCHANNEL_WORDS
    ensures IsBackchannelOnly(text)
  {
    BackchannelIffAllWordsBackchannel(text);
  }

  // ---------------------------------------------------------------------------
  // Blank text
  // ---------------------------------------------------------------------------

  /** Whitespace or one of the four marks. */
  predicate IsBlank(c: char) {
    IsSpace(c) || IsPunctuation(c)
  }

  predicate AllBlank(s: string) {
    forall i :: 0 <= i < |s| ==> IsBlank(s[i])
  }

  /** Lower-casing keeps text blank. */
  lemma LowerKeepsBlank(text: string)
    requires AllBlank(text)
    ensures AllBlank(Lower(text))
  {
    var lower := Lower(text);
    forall i | 0 <= i < |lower|
      ensures IsBlank(lower[i])
    {
      assert lower[i] == LowerChar(text[i]);
    }
  }

  /** Stripping keeps text blank. */
  lemma StripKeepsBlank(s: string)
    requires AllBlank(s)
    ensures AllBlank(Strip(s))
  {
    var r := Strip(s);
    forall i | 0 <= i < |r|
      ensures IsBlank(r[i])
    {
      assert r[i] == s[StripStart(s) + i];
    }
  }

  /** Deleting the four marks from blank text leaves only whitespace. */
  lemma BlankLosesMarks(s: string)
    requires AllBlank(s)
    ensures AllSpace(RemovePunctuation(s))
  {
    var r := RemovePunctuation(s);
    forall i | 0 <= i < |r|
      ensures IsSpace(r[i])
    {
      assert r[i] in multiset(r);
      assert r[i] in multiset(s);
      var j :| 0 <= j < |s| && s[j] == r[i];
      assert IsBlank(s[j]);
    }
  }

  /** Text made only of whitespace and the four marks stays so through
      lower-casing, stripping and punctuation removal, and splits into nothing. */
  lemma BlankGivesNoWords(text: string)
    requires AllBlank(text)
    ensures Words(text) == []
  {
    LowerKeepsBlank(text);
    StripKeepsBlank(Lower(text));
    BlankLosesMarks(Normalize(text));
  }

  /** A character that is neither whitespace nor one of the four marks is still
      neither after lower-casing. */
  lemma LowerKeepsNonBlank(c: char)
    requires !IsBlank(c)
    ensures !IsBlank(LowerChar(c))
  {
  }

  /** Text with any character other than whitespace and the four marks yields
      at least one word. */
  lemma NonBlankGivesWords(text: string, i: nat)
    requires i < |text| && !IsBlank(text[i])
    ensures Words(text) != []
  {
    var lower := Lower(text);
    LowerKeepsNonBlank(text[i]);
    var m := [lower[i]];
    assert OccursAt(lower, m, i);
    StripKeepsOccurrence(lower, m, i);
    PieceReachesWords(text, m, i - StripStart(lower));
  }

  /** The word list is empty exactly when the text is made only of whitespace
      and the four marks (the empty text included). */
  lemma NoWordsIffBlank(text: string)
    ensures Words(text) == [] <==> AllBlank(text)
  {
    if AllBlank(text) {
      BlankGivesNoWords(text);
    } else {
      var i :| 0 <= i < |text| && !IsBlank(text[i]);
      NonBlankGivesWords(text, i);
    }
  }

  /** Empty text, whitespace and bare punctuation are never backchannels. */
  lemma BlankRejected(text: string)
    requires AllBlank(text)
    ensures !IsBackchannelOnly(text)
  {
    BlankGivesNoWords(text);
  }

  // ---------------------------------------------------------------------------
  // Command override
  // ---------------------------------------------------------------------------

  /** A command word, in any case, anywhere in the text (even inside a longer
      word) rejects the text, whatever surrounds it. */
  lemma CommandOverride(before: string, c: string, after: string)
    requires Lower(c) in COMMAND_WORDS
    ensures !IsBackchannelOnly(before + c + after)
  {
    var text := before + c + after;
    var cmd := Lower(c);
    LowerAppend(before + c, after);
    LowerAppend(before, c);
    var lower := Lower(text);
    assert lower == Lower(before) + cmd + Lower(after);
    assert lower[|before|..|before| + |cmd|] == cmd;
    WordListsPlain();
    PlainWordFacts(cmd);
    StripKeepsOccurrence(lower, cmd, |before|);
    assert Contains(Normalize(text), cmd);
  }

  // ---------------------------------------------------------------------------
  // Case
  // ---------------------------------------------------------------------------

  /** Texts that agree once lower-cased are classified alike. */
  lemma CaseInsensitive(t: string, u: string)
    requires Lower(t) == Lower(u)
    ensures IsBackchannelOnly(t) == IsBackchannelOnly(u)
  {
    assert |t| == |Lower(t)| == |u|;
  }

  /** Lower-casing the text first does not change the outcome. */
  lemma LowerFirst(t: string)
    ensures IsBackchannelOnly(Lower(t)) == IsBackchannelOnly(t)
  {
    LowerIdempotent(t);
    CaseInsensitive(Lower(t), t);
  }

  // ---------------------------------------------------------------------------
  // Utterances made of backchannel words
  // ---------------------------------------------------------------------------

  /** Text that lower-casing, stripping and punctuation removal leave alone
      is split as it stands. */
  lemma NormalizedWords(text: string)
    requires NoUpper(text) && NoPunctuation(text)
    requires text == [] || (!IsSpace(text[0]) && !IsSpace(text[|text| - 1]))
    ensures Words(text) == Split(text)
  {
    LowerNoUpper(text);
    StripUntrimmed(text);
    RemovePunctuationAbsent(text);
  }

  /** A plain word on its own is its own word list. */
  lemma PlainWordAlone(w: string)
    requires w != [] && NoUpper(w) && NoSpace(w) && NoPunctuation(w)
    ensures Words(w) == [w]
  {
    NormalizedWords(w);
    SplitWord(w);
  }

  /** Any other single word without capitals, whitespace or the four marks is
      rejected. */
  lemma OtherWordRejected(w: string)
    requires w != [] && NoUpper(w) && NoSpace(w) && NoPunctuation(w)
    requires w !in BACKCHANNEL_WORDS
    ensures !IsBackchannelOnly(w)
  {
    PlainWordAlone(w);
    assert Words(w)[0] == w;
    BackchannelIffAllWordsBackchannel(w);
  }

  /** Each backchannel word on its own is a backchannel. */
  lemma SingleBackchannelWord(w: string)
    requires w in BACKCHANNEL_WORDS
    ensures IsBackchannelOnly(w)
  {
    BackchannelWordPlain(w);
    PlainWordFacts(w);
    PlainWordAlone(w);
    OneWordAccepted(w);
  }

  lemma BackchannelWordPlain(w: string)
    requires w in BACKCHANNEL_WORDS
    ensures PlainWord(w)
  {
    WordListsPlain();
  }

  /** A backchannel word that is its own word list is accepted. */
  lemma OneWordAccepted(w: string)
    requires Words(w) == [w] && w in BACKCHANNEL_WORDS
    ensures IsBackchannelOnly(w)
  {
    assert AllBackchannel(Words(w));
    BackchannelIffAllWordsBackchannel(w);
  }

  /** Backchannel words joined by single spaces form a backchannel utterance
      ("yeah okay", "uh-huh right sure"). */
  lemma BackchannelPhrase(words: seq<string>)
    requires |words| > 0
    requires forall k :: 0 <= k < |words| ==> words[k] in BACKCHANNEL_WORDS
    ensures IsBackchannelOnly(Join(words))
  {
    WordListsPlain();
    JoinPlain(words);
    JoinAlone(words);
    Completeness(Join(words));
  }

  /** Joined plain words are their own word list. */
  lemma JoinAlone(words: seq<string>)
    requires AreWords(words) && words != []
    requires NoUpper(Join(words)) && NoPunctuation(Join(words))
    ensures Words(Join(words)) == words
  {
    NormalizedWords(Join(words));
    SplitJoin(words);
  }

  /** Joined plain words have no capitals or punctuation marks. */
  lemma {:induction false} JoinPlain(words: seq<string>)
    requires forall k :: 0 <= k < |words| ==> PlainWord(words[k])
    ensures NoUpper(Join(words)) && NoPunctuation(Join(words))
    ensures AreWords(words)
  {
    if |words| > 1 {
      JoinPlain(words[1..]);
    }
    if words != [] {
      PlainWordFacts(words[0]);
    }
  }

  // ---------------------------------------------------------------------------
  // Typical utterances
  // ---------------------------------------------------------------------------

  /** A backchannel word followed by a command word ("yeah but", "okay wait")
      is rejected. */
  lemma BackchannelThenCommand(b: string, cmd: string)
    requires b in BACKCHANNEL_WORDS && cmd in COMMAND_WORDS
    ensures !IsBackchannelOnly(b + [' '] + cmd)
  {
    WordListsPlain();
    PlainWordFacts(cmd);
    LowerNoUpper(cmd);
    CommandOverride(b + [' '], cmd, []);
    assert b + [' '] + cmd + [] == b + [' '] + cmd;
  }

  /** A backchannel word in any mix of upper and lower case ("Yeah", "YEAH")
      is a backchannel. */
  lemma BackchannelWordAnyCase(t: string, w: string)
    requires w in BACKCHANNEL_WORDS && Lower(t) == w
    ensures IsBackchannelOnly(t)
  {
    WordListsPlain();
    PlainWordFacts(w);
    LowerNoUpper(w);
    SingleBackchannelWord(w);
    CaseInsensitive(t, w);
  }

  /** Only `, . ! ?` are removed: any other mark that is not a letter, hyphen
      or whitespace stays part of the word, so "yeah;" or "okay:" is not a
      backchannel. */
  lemma OtherMarkKept(w: string, c: char)
    requires w in BACKCHANNEL_WORDS
    requires !('a' <= c <= 'z') && c != '-' && !IsUpper(c) && !IsSpace(c) && !IsPunctuation(c)
    ensures !IsBackchannelOnly(w + [c])
  {
    WordListsPlain();
    PlainWordFacts(w);
    var t := w + [c];
    assert t[|w|] == c;
    assert !PlainWord(t);
    assert forall i :: 0 <= i < |w| ==> t[i] == w[i];
    OtherWordRejected(t);
  }

  /** A lower-case command word inside any text rejects it. */
  lemma CommandInside(before: string, cmd: string, after: string)
    requires cmd in COMMAND_WORDS
    ensures !IsBackchannelOnly(before + cmd + after)
  {
    WordListsPlain();
    PlainWordFacts(cmd);
    LowerNoUpper(cmd);
    CommandOverride(before, cmd, after);
  }

  /** The command check is a substring test: any text with the ordinary word
      "know" in it ("I know", "you know what") is rejected, because "know"
      contains "no". */
  lemma KnowRejected(before: string, after: string)
    ensures !IsBackchannelOnly(before + "know" + after)
  {
    assert before + "know" + after == before + "k" + "no" + ("w" + after);
    CommandInside(before + "k", "no", "w" + after);
  }

  /** Likewise "button" is rejected wherever it appears, because it contains
      "but". */
  lemma ButtonRejected(before: string, after: string)
    ensures !IsBackchannelOnly(before + "button" + after)
  {
    assert before + "button" + after == before + "but" + ("ton" + after);
    CommandInside(before, "but", "ton" + after);
  }
}
