/**
 * The lexical part of intelligent interruption: the two word lists and the
 * predicate `is_backchannel_only`, which decides whether a transcribed user
 * utterance is only a passive acknowledgement ("yeah", "uh-huh") that should
 * not interrupt the speaking agent.
 */
module InterruptConfig {
  import opened PyStr

  /** Words that should not interrupt the agent while it is speaking. */
  const BACKCHANNEL_WORDS: set<string> := {
    "yeah", "ok", "okay", "hmm", "right", "uh-huh",
    "aha", "mhm", "gotcha", "understood", "yep",
    "sure", "alright", "yup", "uh", "mhmm"
  }

  /** Words that always cause an interruption. */
  const COMMAND_WORDS: set<string> := {
    "wait", "stop", "no", "hold", "but",
    "however", "actually", "listen", "hang"
  }

  /** The four marks the classifier deletes before splitting. */
  predicate IsPunctuation(c: char) {
    c == ',' || c == '.' || c == '!' || c == '?'
  }

  predicate NoPunctuation(s: string) {
    forall i :: 0 <= i < |s| ==> !IsPunctuation(s[i])
  }

  /** `s.replace(',', '').replace('.', '').replace('!', '').replace('?', '')`:
      the four marks are gone, every other character is kept. */
  function RemovePunctuation(s: string): (r: string)
    ensures NoPunctuation(r)
    ensures multiset(r) == multiset(s)[',' := 0]['.' := 0]['!' := 0]['?' := 0]
  {
    var s1 := RemoveChar(s, ',');
    var s2 := RemoveChar(s1, '.');
    var s3 := RemoveChar(s2, '!');
    RemoveCharKeepsAbsence(s1, '.', ',');
    RemoveCharKeepsAbsence(s2, '!', ',');
    RemoveCharKeepsAbsence(s2, '!', '.');
    RemoveCharKeepsAbsence(s3, '?', ',');
    RemoveCharKeepsAbsence(s3, '?', '.');
    RemoveCharKeepsAbsence(s3, '?', '!');
    RemoveChar(s3, '?')
  }

  /** Text without the four marks is left alone. */
  lemma RemovePunctuationAbsent(s: string)
    requires NoPunctuation(s)
    ensures RemovePunctuation(s) == s
  {
    RemoveCharAbsent(s, ',');
    RemoveCharAbsent(s, '.');
    RemoveCharAbsent(s, '!');
    RemoveCharAbsent(s, '?');
  }

  /** Removing the four marks adds no capital. */
  lemma RemovePunctuationKeepsNoUpper(s: string)
    requires NoUpper(s)
    ensures NoUpper(RemovePunctuation(s))
  {
    var r := RemovePunctuation(s);
    forall i | 0 <= i < |r|
      ensures !IsUpper(r[i])
    {
      assert r[i] in multiset(r);
      assert r[i] in multiset(s);
    }
  }

  /** `text.lower().strip()`: the text the command check runs on. It has no
      capital, neither starts nor ends with whitespace, and is empty exactly
      when the text is all whitespace. */
  function Normalize(text: string): (r: string)
    ensures NoUpper(r)
    ensures r == [] || (!IsSpace(r[0]) && !IsSpace(r[|r| - 1]))
    ensures r == [] <==> AllSpace(text)
  {
    LowerStripNoUpper(text);
    LowerStripEmpty(text);
    Strip(Lower(text))
  }

  /** The pieces of a text without capitals or marks have none either. */
  lemma PlainPieces(s: string)
    requires NoUpper(s) && NoPunctuation(s)
    ensures forall k :: 0 <= k < |Split(s)| ==> NoUpper(Split(s)[k]) && NoPunctuation(Split(s)[k])
  {
    SplitRuns(s);
    forall k | 0 <= k < |Split(s)|
      ensures NoUpper(Split(s)[k]) && NoPunctuation(Split(s)[k])
    {
      var p, w := SplitStarts(s)[k], Split(s)[k];
      assert RunAt(s, p, w);
      assert forall i :: 0 <= i < |w| ==> w[i] == s[p + i];
    }
  }

  /** The word list the classifier builds from the normalized text: non-empty
      words without whitespace, capitals or any of the four marks. */
  function Words(text: string): (ws: seq<string>)
    ensures AreWords(ws)
    ensures forall k :: 0 <= k < |ws| ==> NoUpper(ws[k]) && NoPunctuation(ws[k])
  {
    RemovePunctuationKeepsNoUpper(Normalize(text));
    PlainPieces(RemovePunctuation(Normalize(text)));
    Split(RemovePunctuation(Normalize(text)))
  }

  /** Some command word occurs anywhere in `t`, as a substring: `t` is some
      text, a command word, and some more text. */
  function MentionsCommand(t: string): (r: bool)
    ensures r <==> exists a, cmd, b :: cmd in COMMAND_WORDS && t == a + cmd + b
  {
    exists cmd :: cmd in COMMAND_WORDS && Contains(t, cmd)
  }

  /** The command loop, visiting the words in the order `cmds`: it stops with
      a hit at the first word that occurs in `t`, and finds one exactly when
      some word of `cmds` occurs. */
  function ScanCommands(t: string, cmds: seq<string>): (found: bool)
    ensures found <==> exists k :: 0 <= k < |cmds| && Contains(t, cmds[k])
  {
    if cmds == [] then false
    else if Contains(t, cmds[0]) then true
    else
      var rest := ScanCommands(t, cmds[1..]);
      assert forall k :: 1 <= k < |cmds| ==> cmds[k] == cmds[1..][k - 1];
      rest
  }

  /** A set is visited in an order Python does not fix (string hashes change
      from run to run). Whatever the order, the loop finds a command word
      exactly when some command word occurs. */
  lemma AnyOrderFindsCommand(t: string, cmds: seq<string>)
    requires forall c :: c in cmds <==> c in COMMAND_WORDS
    ensures ScanCommands(t, cmds) == MentionsCommand(t)
  {
    if MentionsCommand(t) {
      var cmd :| cmd in COMMAND_WORDS && Contains(t, cmd);
      var k :| 0 <= k < |cmds| && cmds[k] == cmd;
    }
  }

  /** A non-empty word list made only of backchannel words. */
  predicate AllBackchannel(words: seq<string>) {
    |words| > 0 && forall k :: 0 <= k < |words| ==> words[k] in BACKCHANNEL_WORDS
  }

  /** `is_backchannel_only(text)`: empty text is rejected; a command word found
      anywhere in the lower-cased, stripped text rejects; otherwise the text
      must yield at least one word and only backchannel words. */
  function IsBackchannelOnly(text: string): (r: bool)
    ensures r ==> text != [] && !MentionsCommand(Normalize(text))
    ensures r ==> AllBackchannel(Words(text))
  {
    if text == [] then false
    else
      var textLower := Normalize(text);
      if MentionsCommand(textLower) then false
      else
        var words := Words(text);
        if |words| == 0 then false
        else forall k :: 0 <= k < |words| ==> words[k] in BACKCHANNEL_WORDS
  }

  // ---------------------------------------------------------------------------
  // Facts about the two word lists
  // ---------------------------------------------------------------------------

  /** A non-empty word of lower-case ASCII letters and hyphens. */
  predicate PlainWord(w: string) {
    w != [] && forall i :: 0 <= i < |w| ==> ('a' <= w[i] <= 'z' || w[i] == '-')
  }

  /** A plain word has no capitals, no whitespace and none of the four marks. */
  lemma PlainWordFacts(w: string)
    requires PlainWord(w)
    ensures NoUpper(w) && NoSpace(w) && NoPunctuation(w)
  {
  }

  /** Every listed word is plain. */
  lemma WordListsPlain()
    ensures forall w :: w in BACKCHANNEL_WORDS ==> PlainWord(w)
    ensures forall w :: w in COMMAND_WORDS ==> PlainWord(w)
  {
  }

  /** No word is both a backchannel word and a command word. */
  lemma WordListsDisjoint()
    ensures BACKCHANNEL_WORDS * COMMAND_WORDS == {}
  {
  }

  /** A backchannel-free pair of adjacent letters for each command word:
      `wa` (wait), `op` (stop), `no`, `ho` (hold, however), `bu` (but),
      `ac` (actually), `li` (listen), `an` (hang). No backchannel word has
      that pair anywhere. */
  predicate NoBackchannelPair(x: char, y: char) {
    forall b :: b in BACKCHANNEL_WORDS ==> !HasPair(b, x, y)
  }

  lemma WaitPairAbsent() ensures NoBackchannelPair('w', 'a') {}
  lemma StopPairAbsent() ensures NoBackchannelPair('o', 'p') {}
  lemma NoPairAbsent() ensures NoBackchannelPair('n', 'o') {}
  lemma HoldPairAbsent() ensures NoBackchannelPair('h', 'o') {}
  lemma ButPairAbsent() ensures NoBackchannelPair('b', 'u') {}
  lemma ActuallyPairAbsent() ensures NoBackchannelPair('a', 'c') {}
  lemma ListenPairAbsent() ensures NoBackchannelPair('l', 'i') {}
  lemma HangPairAbsent() ensures NoBackchannelPair('a', 'n') {}

  /** A word that contains `cmd` has every adjacent pair of `cmd`; so if one
      of them is backchannel-free, no backchannel word contains `cmd`. */
  lemma PairKeepsCommandOut(b: string, cmd: string, j: nat)
    requires b in BACKCHANNEL_WORDS && j + 1 < |cmd| && NoBackchannelPair(cmd[j], cmd[j + 1])
    ensures !Contains(b, cmd)
  {
    if Contains(b, cmd) {
      ContainsPair(b, cmd, j);
    }
  }

  /** No backchannel word contains a command word, not even as a substring. */
  lemma NoCommandInsideBackchannel(b: string, cmd: string)
    requires b in BACKCHANNEL_WORDS && cmd in COMMAND_WORDS
    ensures !Contains(b, cmd)
  {
    if cmd == "wait" {
      WaitPairAbsent(); PairKeepsCommandOut(b, cmd, 0);
    } else if cmd == "stop" {
      StopPairAbsent(); PairKeepsCommandOut(b, cmd, 2);
    } else if cmd == "no" {
      NoPairAbsent(); PairKeepsCommandOut(b, cmd, 0);
    } else if cmd == "hold" || cmd == "however" {
      HoldPairAbsent(); PairKeepsCommandOut(b, cmd, 0);
    } else if cmd == "but" {
      ButPairAbsent(); PairKeepsCommandOut(b, cmd, 0);
    } else if cmd == "actually" {
      ActuallyPairAbsent(); PairKeepsCommandOut(b, cmd, 0);
    } else if cmd == "listen" {
      ListenPairAbsent(); PairKeepsCommandOut(b, cmd, 0);
    } else {
      HangPairAbsent(); PairKeepsCommandOut(b, cmd, 1);
    }
  }
}
