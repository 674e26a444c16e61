# Backchannel classifier of the intelligent-interruption feature

When a voice agent is speaking and the user says something, the agent has to
decide whether the speech is a passive acknowledgement that should not
interrupt it ("yeah", "uh-huh", "okay") or a real turn ("wait", "stop", a
question). The lexical part of that decision is the predicate
`is_backchannel_only(text)` and its two constant word sets,
`BACKCHANNEL_WORDS` and `COMMAND_WORDS`, in
`livekit-agents/livekit/agents/voice/interrupt_config.py`. This project models
that predicate and proves what it guarantees.

The predicate is pure, so the model is made of functions and lemmas:

- `py_str.dfy` (module `PyStr`) models the Python string operations it
  relies on, on `seq<char>`:
  - `str.lower()`, restricted to ASCII;
  - `str.strip()` and `str.split()` with no arguments, using the exact set of
    characters Python's `str.isspace()` accepts;
  - `str.replace(c, '')`;
  - `needle in haystack` for strings.

  Each comes with the facts the proofs need, for example that splitting
  `' '.join(words)` gives `words` back.
- `interrupt_config.dfy` (module `InterruptConfig`) holds:
  - the two word sets, exactly as in the source;
  - the normalization steps;
  - `IsBackchannelOnly`, branch for branch as in the source;
  - facts about the word sets, above all that no backchannel word contains a
    command word, not even as a substring.
- `classifier_properties.dfy` (module `BackchannelProperties`) holds the
  properties of the classifier:
  - blank text is rejected;
  - a command word anywhere overrides everything;
  - case does not matter;
  - every backchannel word, and every phrase of backchannel words, is
    accepted;
  - the substring-based classifier agrees with a classifier that looks only at
    whole words.

The command check is a substring test on the lower-cased, stripped text
(`cmd in text_lower`), not a lookup among the tokens. A text that contains a
command word inside a longer word ("I know", "button") is therefore rejected
by the check. Such a text always has some token that is not a backchannel
word, though, because no backchannel word contains a command word.
`BackchannelIffAllWordsBackchannel` and `AgreesWithWordClassifier` show that
a whole-word classifier returns the same result on every text. Only `,` `.`
`!` `?` are removed before splitting; `OtherMarkKept` records the
consequence.

Calling the predicate has no effect on the word sets. Two calls with the same
text give the same result. Both hold by construction: the sets are constants
and the predicate is a Dafny function.

## Model

| member | source | states |
|---|---|---|
| `InterruptConfig.IsBackchannelOnly` | livekit-agents/livekit/agents/voice/interrupt_config.py:20-52 | A text is accepted only if it is non-empty, no command word occurs anywhere in its lower-cased, stripped form, and its word list is non-empty and made only of backchannel words |
| `InterruptConfig.Normalize` | livekit-agents/livekit/agents/voice/interrupt_config.py:36 | The lower-cased, stripped text has no capital, neither starts nor ends with whitespace, and is empty exactly when the text is all whitespace |
| `InterruptConfig.MentionsCommand` | livekit-agents/livekit/agents/voice/interrupt_config.py:39-41 | Some command word occurs in the text: the text is some prefix, a command word and some suffix |
| `InterruptConfig.ScanCommands` | livekit-agents/livekit/agents/voice/interrupt_config.py:39-41 | The loop over the command words, in a given visiting order, finds a hit exactly when one of the visited words occurs in the text |
| `InterruptConfig.AnyOrderFindsCommand` | livekit-agents/livekit/agents/voice/interrupt_config.py:39-41 | Whatever order the set of command words is visited in, the loop finds a hit exactly when some command word occurs |
| `InterruptConfig.Words` | livekit-agents/livekit/agents/voice/interrupt_config.py:44 | The word list holds non-empty words without whitespace, capitals or `, . ! ?` |
| `InterruptConfig.RemovePunctuation` | livekit-agents/livekit/agents/voice/interrupt_config.py:44 | After the four `replace` calls none of `, . ! ?` is left, and every other character is kept as often as it occurred |
| `InterruptConfig.WordListsPlain` | livekit-agents/livekit/agents/voice/interrupt_config.py:7-17 | Every listed word is non-empty lower-case ASCII letters and hyphens, so lower-casing, stripping and punctuation removal leave it unchanged |
| `InterruptConfig.WordListsDisjoint` | livekit-agents/livekit/agents/voice/interrupt_config.py:7-17 | No word is both a backchannel word and a command word |
| `InterruptConfig.NoCommandInsideBackchannel` | livekit-agents/livekit/agents/voice/interrupt_config.py:7-17 | No backchannel word contains any command word as a substring, so the substring command check can never reject a lone backchannel word |
| `PyStr.Lower` | livekit-agents/livekit/agents/voice/interrupt_config.py:36 | `lower()` keeps the length, lower-cases each character in place and leaves no capital letter |
| `PyStr.LowerIdempotent` | livekit-agents/livekit/agents/voice/interrupt_config.py:36 | Lower-casing twice is lower-casing once |
| `PyStr.Strip` | livekit-agents/livekit/agents/voice/interrupt_config.py:36 | `strip()` returns the text with a leading and a trailing run of whitespace cut off: the text is those two runs around the result, the result neither starts nor ends with whitespace, and it is empty exactly when the text is all whitespace |
| `PyStr.StripKeepsOccurrence` | livekit-agents/livekit/agents/voice/interrupt_config.py:36 | A piece of text without whitespace that occurs in the text still occurs, shifted, after `strip()` |
| `PyStr.Contains` | livekit-agents/livekit/agents/voice/interrupt_config.py:40 | `needle in haystack` holds exactly when the haystack is some prefix, the needle and some suffix |
| `PyStr.RemoveChar` | livekit-agents/livekit/agents/voice/interrupt_config.py:44 | `replace(c, '')` removes every `c` and keeps every other character as often as it occurred |
| `PyStr.RemoveCharKeepsOccurrence` | livekit-agents/livekit/agents/voice/interrupt_config.py:44 | A piece of text without `c` that occurs in the text still occurs after every `c` is removed |
| `PyStr.Split` | livekit-agents/livekit/agents/voice/interrupt_config.py:44 | Every piece of `split()` is non-empty and holds no whitespace, and there are no pieces exactly when the text is all whitespace |
| `PyStr.SplitRuns` | livekit-agents/livekit/agents/voice/interrupt_config.py:44 | Each piece of `split()` occurs in the text as a whole run (preceded by the start or whitespace, followed by the end or whitespace), and the pieces are taken left to right with whitespace between neighbours |
| `PyStr.SplitCovers` | livekit-agents/livekit/agents/voice/interrupt_config.py:44 | No run is dropped by `split()`: every non-whitespace character lies inside the piece that starts at or before it, so with `SplitRuns` the pieces are exactly the maximal runs of the text, in order |
| `PyStr.SplitKeepsPiece` | livekit-agents/livekit/agents/voice/interrupt_config.py:44 | A whitespace-free piece of the text lies inside one of the pieces of `split()` |
| `PyStr.SplitJoin` | livekit-agents/livekit/agents/voice/interrupt_config.py:44 | `split()` of non-empty whitespace-free words joined by single spaces gives the words back |
| `BackchannelProperties.CommandSpoilsWords` | livekit-agents/livekit/agents/voice/interrupt_config.py:39-50 | If a command word occurs in the normalized text, some token is not a backchannel word |
| `BackchannelProperties.BackchannelIffAllWordsBackchannel` | livekit-agents/livekit/agents/voice/interrupt_config.py:33-50 | The result is true exactly when the token list is non-empty and holds only backchannel words, in both directions |
| `BackchannelProperties.ClassifyWords` | livekit-agents/livekit/agents/voice/interrupt_config.py:39-50 | A reference classifier over whole tokens, with command tokens as an absolute override, says backchannel exactly when the tokens are non-empty and all backchannel words |
| `BackchannelProperties.AgreesWithWordClassifier` | livekit-agents/livekit/agents/voice/interrupt_config.py:39-50 | The substring-based predicate and the whole-token classifier agree on every text |
| `BackchannelProperties.Soundness` | livekit-agents/livekit/agents/voice/interrupt_config.py:39-50 | An accepted text has a non-empty token list of backchannel words, and no command word occurs in its lower-cased form |
| `BackchannelProperties.Completeness` | livekit-agents/livekit/agents/voice/interrupt_config.py:39-50 | A text whose token list is non-empty and holds only backchannel words is accepted |
| `BackchannelProperties.NoWordsIffBlank` | livekit-agents/livekit/agents/voice/interrupt_config.py:44-47 | The token list is empty exactly when the text is made only of whitespace and `, . ! ?` |
| `BackchannelProperties.BlankRejected` | livekit-agents/livekit/agents/voice/interrupt_config.py:33-47 | The empty text, whitespace and bare punctuation are never backchannels |
| `BackchannelProperties.CommandOverride` | livekit-agents/livekit/agents/voice/interrupt_config.py:39-41 | A command word in any case, anywhere in the text (even inside a longer word), rejects the text whatever surrounds it |
| `BackchannelProperties.CommandInside` | livekit-agents/livekit/agents/voice/interrupt_config.py:39-41 | A lower-case command word anywhere in the text rejects it |
| `BackchannelProperties.BackchannelThenCommand` | livekit-agents/livekit/agents/voice/interrupt_config.py:39-41 | A backchannel word followed by a command word ("yeah but", "okay wait") is rejected |
| `BackchannelProperties.KnowRejected` | livekit-agents/livekit/agents/voice/interrupt_config.py:39-41 | Any text containing "know" is rejected, because "know" contains "no" |
| `BackchannelProperties.ButtonRejected` | livekit-agents/livekit/agents/voice/interrupt_config.py:39-41 | Any text containing "button" is rejected, because it contains "but" |
| `BackchannelProperties.CaseInsensitive` | livekit-agents/livekit/agents/voice/interrupt_config.py:36 | Texts with the same lower-case form are classified alike |
| `BackchannelProperties.LowerFirst` | livekit-agents/livekit/agents/voice/interrupt_config.py:36 | Lower-casing the text first does not change the result |
| `BackchannelProperties.BackchannelWordAnyCase` | livekit-agents/livekit/agents/voice/interrupt_config.py:36 | A backchannel word in any mix of cases ("Yeah", "YEAH") is accepted |
| `BackchannelProperties.PlainWordAlone` | livekit-agents/livekit/agents/voice/interrupt_config.py:36-44 | A word without capitals, whitespace or `, . ! ?` is its own token list |
| `BackchannelProperties.SingleBackchannelWord` | livekit-agents/livekit/agents/voice/interrupt_config.py:7-50 | Every backchannel word on its own is accepted |
| `BackchannelProperties.OtherWordRejected` | livekit-agents/livekit/agents/voice/interrupt_config.py:44-50 | A single plain word that is not a backchannel word is rejected |
| `BackchannelProperties.BackchannelPhrase` | livekit-agents/livekit/agents/voice/interrupt_config.py:44-50 | Backchannel words joined by single spaces ("yeah okay", "uh-huh right sure") are accepted |
| `BackchannelProperties.OtherMarkKept` | livekit-agents/livekit/agents/voice/interrupt_config.py:44 | A backchannel word followed by a mark other than `, . ! ?` ("yeah;") is rejected, because the mark stays part of the token |

## Left out

- The two debug `print` calls to standard error (`interrupt_config.py:31` and `:51`): output with no effect on the result.
- PyStr.Lower: only ASCII capitals are lower-cased. Python's `str.lower()` also maps non-ASCII letters (and a few to more than one character); the model does not. For example U+212A KELVIN SIGN lower-cases to `k` in Python, so "o\u212A" and "o\u212Aay" are accepted by `is_backchannel_only` and rejected by the model.
- PyStr.Split and PyStr.Strip use Python's `str.isspace()` set of whitespace characters. Dafny's `char` is a Unicode scalar value, so lone surrogates, which a Python `str` may hold, are not modelled.
- The example voice agent `basic_agent.py` is not part of this model. It wires sessions, speech-to-text, text-to-speech and language-model services together and has no decision logic of its own.
- The interruption coordinator, which uses the classifier at its checkpoints (paused playback, the false-interruption timer, the flag carried between checkpoints), is not part of this model: its source is not among the files modelled.
- Concurrency between the speech, voice-activity and turn-detection events that call the classifier is out of scope.
