/**
 * The Python `str` operations that the backchannel classifier relies on:
 * `str.lower()`, `str.strip()`, `str.replace(c, '')`, `str.split()` and the
 * substring test `needle in haystack`, each modelled on `seq<char>` together
 * with the facts about it that the classifier's proofs need.
 */
module PyStr {

  // ---------------------------------------------------------------------------
  // Whitespace
  // ---------------------------------------------------------------------------

  /** The characters that `str.split()` and `str.strip()` without arguments treat
      as whitespace (Python's `str.isspace()`): TAB, LF, VT, FF, CR, the four
      information separators U+001C..U+001F, SPACE, NEL, NO-BREAK SPACE and the
      Unicode space and line/paragraph separators. */
  const SPACES: set<char> := {
    '\t', '\n', '\U{000B}', '\U{000C}', '\r',
    '\U{001C}', '\U{001D}', '\U{001E}', '\U{001F}', ' ',
    '\U{0085}', '\U{00A0}', '\U{1680}',
    '\U{2000}', '\U{2001}', '\U{2002}', '\U{2003}', '\U{2004}', '\U{2005}',
    '\U{2006}', '\U{2007}', '\U{2008}', '\U{2009}', '\U{200A}',
    '\U{2028}', '\U{2029}', '\U{202F}', '\U{205F}', '\U{3000}'
  }

  predicate IsSpace(c: char) {
    c in SPACES
  }

  predicate AllSpace(s: string) {
    forall i :: 0 <= i < |s| ==> IsSpace(s[i])
  }

  predicate NoSpace(s: string) {
    forall i :: 0 <= i < |s| ==> !IsSpace(s[i])
  }

  // ---------------------------------------------------------------------------
  // str.lower(), restricted to ASCII
  // ---------------------------------------------------------------------------

  predicate IsUpper(c: char) {
    'A' <= c <= 'Z'
  }

  predicate NoUpper(s: string) {
    forall i :: 0 <= i < |s| ==> !IsUpper(s[i])
  }

  /** Lower-cases one character: only the ASCII capitals change. */
  function LowerChar(c: char): (d: char)
    ensures !IsUpper(d)
    ensures IsUpper(c) || d == c
  {
    if IsUpper(c) then (c as int - 'A' as int + 'a' as int) as char else c
  }

  /** `s.lower()`: the same length, each character lower-cased in place. */
  function Lower(s: string): (r: string)
    ensures |r| == |s|
    ensures forall i :: 0 <= i < |s| ==> r[i] == LowerChar(s[i])
    ensures NoUpper(r)
  {
    if s == [] then [] else [LowerChar(s[0])] + Lower(s[1..])
  }

  /** Lower-casing twice is lower-casing once. */
  lemma LowerIdempotent(s: string)
    ensures Lower(Lower(s)) == Lower(s)
  {
  }

  /** A string without capitals is its own lower case. */
  lemma LowerNoUpper(s: string)
    requires NoUpper(s)
    ensures Lower(s) == s
  {
  }

  /** Lower-casing turns no character into whitespace and no whitespace into
      anything else, so a text is all whitespace exactly when its lower case is. */
  lemma LowerKeepsSpace(s: string)
    ensures AllSpace(Lower(s)) <==> AllSpace(s)
  {
    forall i | 0 <= i < |s|
      ensures IsSpace(Lower(s)[i]) <==> IsSpace(s[i])
    {
      LowerCharKeepsSpace(s[i]);
    }
  }

  /** No capital is whitespace, and no lower-case letter is either. */
  lemma LowerCharKeepsSpace(c: char)
    ensures IsSpace(LowerChar(c)) <==> IsSpace(c)
  {
    if IsUpper(c) {
      assert !IsSpace(c);
      assert 'a' <= LowerChar(c) <= 'z';
    }
  }

  /** Lower-casing works character by character, so it distributes over `+`. */
  lemma LowerAppend(a: string, b: string)
    ensures Lower(a + b) == Lower(a) + Lower(b)
  {
  }

  // ---------------------------------------------------------------------------
  // str.strip()
  // ---------------------------------------------------------------------------

  /** The first position at or after `i` that does not hold whitespace, or
      `|s|` when there is none. */
  function SkipSpace(s: string, i: nat): (j: nat)
    requires i <= |s|
    ensures i <= j <= |s|
    decreases |s| - i
  {
    if i < |s| && IsSpace(s[i]) then SkipSpace(s, i + 1) else i
  }

  /** What `SkipSpace` skips is whitespace, and it stops at the end or at a
      character that is not. */
  lemma {:induction false} SkipSpaceFacts(s: string, i: nat)
    requires i <= |s|
    ensures forall k :: i <= k < SkipSpace(s, i) ==> IsSpace(s[k])
    ensures SkipSpace(s, i) == |s| || !IsSpace(s[SkipSpace(s, i)])
    decreases |s| - i
  {
    if i < |s| && IsSpace(s[i]) {
      SkipSpaceFacts(s, i + 1);
    }
  }

  /** Scanning back from `j` towards `lo`: the end of the text once trailing
      whitespace after `lo` is dropped. */
  function SkipSpaceBack(s: string, lo: nat, j: nat): (e: nat)
    requires lo <= j <= |s|
    ensures lo <= e <= j
    ensures forall k :: e <= k < j ==> IsSpace(s[k])
    ensures e == lo || !IsSpace(s[e - 1])
    decreases j
  {
    if lo < j && IsSpace(s[j - 1]) then SkipSpaceBack(s, lo, j - 1) else j
  }

  function StripStart(s: string): nat {
    SkipSpace(s, 0)
  }

  function StripEnd(s: string): (e: nat)
    ensures StripStart(s) <= e <= |s|
  {
    SkipSpaceBack(s, StripStart(s), |s|)
  }

  /** `s.strip()`: the slice of `s` whose cut-off ends are all whitespace and
      which itself neither starts nor ends with whitespace. */
  function Strip(s: string): (r: string)
    ensures forall k :: 0 <= k < StripStart(s) ==> IsSpace(s[k])
    ensures forall k :: StripEnd(s) <= k < |s| ==> IsSpace(s[k])
    ensures r == [] || (!IsSpace(r[0]) && !IsSpace(r[|r| - 1]))
    ensures r == [] <==> AllSpace(s)
    ensures s == s[..StripStart(s)] + r + s[StripEnd(s)..]
  {
    SkipSpaceFacts(s, 0);
    s[StripStart(s)..StripEnd(s)]
  }

  /** `strip()` only cuts, so it adds no capital. */
  lemma StripKeepsNoUpper(s: string)
    requires NoUpper(s)
    ensures NoUpper(Strip(s))
  {
    SliceNoUpper(s, StripStart(s), StripEnd(s));
  }

  lemma SliceNoUpper(s: string, a: nat, b: nat)
    requires NoUpper(s) && a <= b <= |s|
    ensures NoUpper(s[a..b])
  {
    assert forall k :: 0 <= k < b - a ==> s[a..b][k] == s[a + k];
  }

  /** `s.lower().strip()` has no capital. */
  lemma LowerStripNoUpper(s: string)
    ensures NoUpper(Strip(Lower(s)))
  {
    StripKeepsNoUpper(Lower(s));
  }

  /** `s.lower().strip()` is empty exactly when `s` is all whitespace. */
  lemma LowerStripEmpty(s: string)
    ensures Strip(Lower(s)) == [] <==> AllSpace(s)
  {
    LowerKeepsSpace(s);
  }

  /** Text that neither starts nor ends with whitespace is left alone. */
  lemma StripUntrimmed(s: string)
    requires s == [] || (!IsSpace(s[0]) && !IsSpace(s[|s| - 1]))
    ensures Strip(s) == s
  {
  }

  /** Every character of `s` that is not whitespace survives `strip()`, at the
      same place relative to the start of the stripped text. */
  lemma StripKeeps(s: string, k: nat)
    requires k < |s| && !IsSpace(s[k])
    ensures StripStart(s) <= k < StripEnd(s)
    ensures Strip(s)[k - StripStart(s)] == s[k]
  {
    SkipSpaceFacts(s, 0);
  }

  /** A whitespace-free piece of text that occurs in `s` occurs, shifted, in
      `s.strip()`. */
  lemma StripKeepsOccurrence(s: string, m: string, p: nat)
    requires m != [] && NoSpace(m)
    requires OccursAt(s, m, p)
    ensures StripStart(s) <= p
    ensures OccursAt(Strip(s), m, p - StripStart(s))
  {
    var st, en := StripStart(s), StripEnd(s);
    assert s[p] == s[p..p + |m|][0];
    assert s[p + |m| - 1] == s[p..p + |m|][|m| - 1];
    StripKeeps(s, p);
    StripKeeps(s, p + |m| - 1);
    var q := p - st;
    SliceOfSlice(s, st, en, q, q + |m|);
    assert Strip(s) == s[st..en];
  }

  // ---------------------------------------------------------------------------
  // str.replace(c, '')
  // ---------------------------------------------------------------------------

  /** `s.replace(c, '')`: every occurrence of `c` removed, the rest kept. */
  function RemoveChar(s: string, c: char): (r: string)
    ensures multiset(r) == multiset(s)[c := 0]
    ensures forall i :: 0 <= i < |r| ==> r[i] != c
  {
    if s == [] then []
    else
      assert s == [s[0]] + s[1..];
      if s[0] == c then RemoveChar(s[1..], c)
      else [s[0]] + RemoveChar(s[1..], c)
  }

  /** Removal keeps the order of what is left: it distributes over `+`. */
  lemma {:induction false} RemoveCharAppend(a: string, b: string, c: char)
    ensures RemoveChar(a + b, c) == RemoveChar(a, c) + RemoveChar(b, c)
  {
    if a != [] {
      assert (a + b)[0] == a[0];
      assert (a + b)[1..] == a[1..] + b;
      RemoveCharAppend(a[1..], b, c);
    } else {
      assert a + b == b;
    }
  }

  /** A piece of text without `c` that occurs in `s` still occurs once every
      `c` is removed from `s`. */
  lemma RemoveCharKeepsOccurrence(s: string, c: char, m: string, p: nat)
    requires forall i :: 0 <= i < |m| ==> m[i] != c
    requires OccursAt(s, m, p)
    ensures OccursAt(RemoveChar(s, c), m, |RemoveChar(s[..p], c)|)
  {
    var x, y := s[..p], s[p + |m|..];
    assert s == x + m + y;
    RemoveCharAppend(x + m, y, c);
    RemoveCharAppend(x, m, c);
    RemoveCharAbsent(m, c);
    var r := RemoveChar(s, c);
    assert r == RemoveChar(x, c) + m + RemoveChar(y, c);
    assert r[|RemoveChar(x, c)|..|RemoveChar(x, c)| + |m|] == m;
  }

  /** Removal adds no character: one absent before is absent after. */
  lemma RemoveCharKeepsAbsence(s: string, c: char, d: char)
    requires forall i :: 0 <= i < |s| ==> s[i] != d
    ensures forall i :: 0 <= i < |RemoveChar(s, c)| ==> RemoveChar(s, c)[i] != d
  {
    var r := RemoveChar(s, c);
    assert d !in multiset(s);
    forall i | 0 <= i < |r|
      ensures r[i] != d
    {
      assert r[i] in multiset(r);
    }
  }

  /** Removing a character that does not occur changes nothing. */
  lemma {:induction false} RemoveCharAbsent(s: string, c: char)
    requires forall i :: 0 <= i < |s| ==> s[i] != c
    ensures RemoveChar(s, c) == s
  {
    if s != [] {
      RemoveCharAbsent(s[1..], c);
    }
  }

  // ---------------------------------------------------------------------------
  // str.split()
  // ---------------------------------------------------------------------------

  /** The end of the run of non-whitespace characters that starts at `i`. */
  function WordEnd(s: string, i: nat): (e: nat)
    requires i <= |s|
    ensures i <= e <= |s|
    decreases |s| - i
  {
    if i < |s| && !IsSpace(s[i]) then WordEnd(s, i + 1) else i
  }

  /** The run that ends at `WordEnd` holds no whitespace, and it stops at the
      end or at whitespace. */
  lemma {:induction false} WordEndFacts(s: string, i: nat)
    requires i <= |s|
    ensures forall k :: i <= k < WordEnd(s, i) ==> !IsSpace(s[k])
    ensures WordEnd(s, i) == |s| || IsSpace(s[WordEnd(s, i)])
    decreases |s| - i
  {
    if i < |s| && !IsSpace(s[i]) {
      WordEndFacts(s, i + 1);
    }
  }

  /** The pieces of `s.split()` that start at or after position `i`: skip the
      whitespace, take the run of non-whitespace characters, go on after it. */
  function SplitFrom(s: string, i: nat): seq<string>
    requires i <= |s|
    decreases |s| - i
  {
    var j := SkipSpace(s, i);
    if j == |s| then []
    else
      var e := WordEnd(s, j);
      [s[j..e]] + SplitFrom(s, e)
  }

  /** `s.split()`: the maximal runs of non-whitespace characters, in order.
      Every piece is non-empty and free of whitespace, and there is none
      exactly when the text is all whitespace. */
  function Split(s: string): (r: seq<string>)
    ensures AreWords(r)
    ensures r == [] <==> AllSpace(s)
  {
    SplitFromWords(s, 0);
    SplitFromEmpty(s, 0);
    SplitFrom(s, 0)
  }

  /** Non-empty pieces of text without whitespace. */
  predicate AreWords(words: seq<string>) {
    forall k :: 0 <= k < |words| ==> words[k] != [] && NoSpace(words[k])
  }

  /** `' '.join(words)`: the words with one space between neighbours. Joining
      non-empty words without whitespace gives text that neither starts nor
      ends with whitespace. */
  function Join(words: seq<string>): (r: string)
    ensures AreWords(words) && words != [] ==> r != [] && !IsSpace(r[0]) && !IsSpace(r[|r| - 1])
  {
    if words == [] then []
    else if |words| == 1 then words[0]
    else words[0] + ([' '] + Join(words[1..]))
  }

  /** Every piece of a split is non-empty and holds no whitespace. */
  lemma {:induction false} SplitFromWords(s: string, i: nat)
    requires i <= |s|
    ensures AreWords(SplitFrom(s, i))
    decreases |s| - i
  {
    var j := SkipSpace(s, i);
    SkipSpaceFacts(s, i);
    if j < |s| {
      var e := WordEnd(s, j);
      WordEndFacts(s, j);
      SplitFromWords(s, e);
      assert forall k :: 0 <= k < e - j ==> s[j..e][k] == s[j + k];
      assert AreWords([s[j..e]]);
    }
  }

  /** The split from `i` is empty exactly when nothing but whitespace follows. */
  lemma SplitFromEmpty(s: string, i: nat)
    requires i <= |s|
    ensures SplitFrom(s, i) == [] <==> forall k :: i <= k < |s| ==> IsSpace(s[k])
  {
    SkipSpaceFacts(s, i);
  }

  /** Where the pieces of `SplitFrom(s, i)` start in `s`. */
  function SplitStartsFrom(s: string, i: nat): seq<nat>
    requires i <= |s|
    decreases |s| - i
  {
    var j := SkipSpace(s, i);
    if j == |s| then [] else [j] + SplitStartsFrom(s, WordEnd(s, j))
  }

  /** `w` occurs at `p` in `s` as a whole run: it is preceded by the start of
      `s` or by whitespace, and followed by the end of `s` or by whitespace. */
  predicate RunAt(s: string, p: nat, w: string) {
    OccursAt(s, w, p) && (p == 0 || IsSpace(s[p - 1])) &&
    (p + |w| == |s| || IsSpace(s[p + |w|]))
  }

  /** Each piece of the split from `i` is a whole run of `s` at the matching
      start, no piece starts before the first non-whitespace character, and
      the pieces come in order with whitespace between neighbours. */
  lemma {:induction false} SplitFromRuns(s: string, i: nat)
    requires i <= |s| && (i == 0 || i == |s| || IsSpace(s[i]))
    ensures |SplitStartsFrom(s, i)| == |SplitFrom(s, i)|
    ensures forall k :: 0 <= k < |SplitFrom(s, i)| ==>
      SkipSpace(s, i) <= SplitStartsFrom(s, i)[k] &&
      RunAt(s, SplitStartsFrom(s, i)[k], SplitFrom(s, i)[k])
    ensures forall k, l :: 0 <= k < l < |SplitFrom(s, i)| ==>
      SplitStartsFrom(s, i)[k] + |SplitFrom(s, i)[k]| < SplitStartsFrom(s, i)[l]
    decreases |s| - i
  {
    var j := SkipSpace(s, i);
    SkipSpaceFacts(s, i);
    if j < |s| {
      var e := WordEnd(s, j);
      WordEndFacts(s, j);
      SplitFromRuns(s, e);
      if e < |s| {
        assert SkipSpace(s, e) == SkipSpace(s, e + 1);
      }
      assert j == 0 || IsSpace(s[j - 1]);
      assert RunAt(s, j, s[j..e]);
      assert SplitFrom(s, i) == [s[j..e]] + SplitFrom(s, e);
      assert SplitStartsFrom(s, i) == [j] + SplitStartsFrom(s, e);
    }
  }

  /** Every non-whitespace character at or after `i` lies inside one of the
      pieces of the split from `i`, at that piece's place. */
  lemma {:induction false} SplitFromCovers(s: string, i: nat, p: nat)
    requires i <= p < |s| && !IsSpace(s[p])
    ensures exists k :: 0 <= k < |SplitFrom(s, i)| && k < |SplitStartsFrom(s, i)| &&
              SplitStartsFrom(s, i)[k] <= p < SplitStartsFrom(s, i)[k] + |SplitFrom(s, i)[k]|
    decreases |s| - i
  {
    var j := SkipSpace(s, i);
    SkipSpaceFacts(s, i);
    assert j <= p;
    var e := WordEnd(s, j);
    assert SplitFrom(s, i) == [s[j..e]] + SplitFrom(s, e);
    assert SplitStartsFrom(s, i) == [j] + SplitStartsFrom(s, e);
    if p >= e {
      SplitFromCovers(s, e, p);
      var k :| 0 <= k < |SplitFrom(s, e)| && k < |SplitStartsFrom(s, e)| &&
        SplitStartsFrom(s, e)[k] <= p < SplitStartsFrom(s, e)[k] + |SplitFrom(s, e)[k]|;
      assert SplitFrom(s, i)[k + 1] == SplitFrom(s, e)[k];
      assert SplitStartsFrom(s, i)[k + 1] == SplitStartsFrom(s, e)[k];
    } else {
      assert SplitStartsFrom(s, i)[0] == j;
      assert |SplitFrom(s, i)[0]| == e - j;
    }
  }

  /** Where the pieces of `s.split()` start in `s`. */
  function SplitStarts(s: string): seq<nat> {
    SplitStartsFrom(s, 0)
  }

  /** The pieces of `s.split()` are whole runs of `s`, one per start, taken
      left to right with whitespace between neighbours. */
  lemma SplitRuns(s: string)
    ensures |SplitStarts(s)| == |Split(s)|
    ensures forall k :: 0 <= k < |Split(s)| ==> RunAt(s, SplitStarts(s)[k], Split(s)[k])
    ensures forall k, l :: 0 <= k < l < |Split(s)| ==>
      SplitStarts(s)[k] + |Split(s)[k]| < SplitStarts(s)[l]
  {
    SplitFromRuns(s, 0);
  }

  /** No run of `s` is dropped: every non-whitespace character of `s` lies
      inside the piece of `s.split()` that starts at or before it. */
  lemma SplitCovers(s: string, p: nat)
    requires p < |s| && !IsSpace(s[p])
    ensures exists k :: 0 <= k < |Split(s)| && k < |SplitStarts(s)| &&
              SplitStarts(s)[k] <= p < SplitStarts(s)[k] + |Split(s)[k]|
  {
    SplitFromCovers(s, 0, p);
    var k :| 0 <= k < |SplitFrom(s, 0)| && k < |SplitStartsFrom(s, 0)| &&
      SplitStartsFrom(s, 0)[k] <= p < SplitStartsFrom(s, 0)[k] + |SplitFrom(s, 0)[k]|;
    assert Split(s)[k] == SplitFrom(s, 0)[k];
  }

  /** `b` sits at offset `off` of `s` and runs to its end. */
  predicate TailAt(s: string, off: nat, b: string) {
    |s| == off + |b| && forall k :: 0 <= k < |b| ==> s[off + k] == b[k]
  }

  /** Skipping whitespace in a tail of `s` is skipping it in `s`, shifted. */
  lemma {:induction false} SkipSpaceShift(s: string, off: nat, b: string, i: nat)
    requires TailAt(s, off, b) && i <= |b|
    ensures SkipSpace(s, off + i) == off + SkipSpace(b, i)
    decreases |b| - i
  {
    if i < |b| {
      SkipSpaceShift(s, off, b, i + 1);
    }
  }

  lemma {:induction false} WordEndShift(s: string, off: nat, b: string, i: nat)
    requires TailAt(s, off, b) && i <= |b|
    ensures WordEnd(s, off + i) == off + WordEnd(b, i)
    decreases |b| - i
  {
    if i < |b| {
      WordEndShift(s, off, b, i + 1);
    }
  }

  /** A slice of a slice is a slice. */
  lemma SliceOfSlice(s: string, a: nat, b: nat, c: nat, d: nat)
    requires a <= b <= |s| && c <= d <= b - a
    ensures s[a..b][c..d] == s[a + c..a + d]
  {
    forall k | 0 <= k < d - c
      ensures s[a..b][c..d][k] == s[a + c..a + d][k]
    {
      assert s[a..b][c + k] == s[a + c + k];
    }
  }

  lemma SliceShift(s: string, off: nat, b: string, j: nat, e: nat)
    requires TailAt(s, off, b) && j <= e <= |b|
    ensures s[off + j..off + e] == b[j..e]
  {
  }

  /** Splitting a tail of `s` from `i` is splitting `s` from `off + i`. */
  lemma {:induction false} SplitFromShift(s: string, off: nat, b: string, i: nat)
    requires TailAt(s, off, b) && i <= |b|
    ensures SplitFrom(s, off + i) == SplitFrom(b, i)
    decreases |b| - i
  {
    SkipSpaceShift(s, off, b, i);
    var j := SkipSpace(b, i);
    if j < |b| {
      WordEndShift(s, off, b, j);
      var e := WordEnd(b, j);
      SplitFromShift(s, off, b, e);
      SliceShift(s, off, b, j, e);
    }
  }

  /** Whitespace at `i` does not change the split from `i`. */
  lemma SplitFromSkip(s: string, i: nat)
    requires i < |s| && IsSpace(s[i])
    ensures SplitFrom(s, i) == SplitFrom(s, i + 1)
  {
    assert SkipSpace(s, i) == SkipSpace(s, i + 1);
  }

  /** A whitespace-free word at the start of `s` is the first piece. */
  lemma SplitFirstWord(s: string, w: string)
    requires w != [] && NoSpace(w)
    requires |w| <= |s| && s[..|w|] == w
    requires |w| == |s| || IsSpace(s[|w|])
    ensures SplitFrom(s, 0) == [w] + SplitFrom(s, |w|)
  {
    assert s == w + s[|w|..];
    WordEndOf(w, s[|w|..]);
    assert s[0] == w[0];
    assert SkipSpace(s, 0) == 0;
  }

  /** A word followed by a space becomes the first piece, and the split goes
      on with what follows the space. */
  lemma SplitWordSpace(w: string, tail: string)
    requires w != [] && NoSpace(w)
    ensures Split(w + ([' '] + tail)) == [w] + Split(tail)
  {
    var s := w + ([' '] + tail);
    assert s[..|w|] == w;
    assert s[|w|] == ' ';
    assert TailAt(s, |w| + 1, tail);
    SplitWordSpaceAt(s, w, tail);
  }

  lemma SplitWordSpaceAt(s: string, w: string, tail: string)
    requires w != [] && NoSpace(w)
    requires |w| < |s| && s[..|w|] == w && s[|w|] == ' '
    requires TailAt(s, |w| + 1, tail)
    ensures Split(s) == [w] + Split(tail)
  {
    SplitFirstWord(s, w);
    SplitFromSkip(s, |w|);
    SplitFromShift(s, |w| + 1, tail, 0);
  }

  /** The run that starts a text `w + rest` is `w` when `rest` starts with
      whitespace or is empty. */
  lemma WordEndOf(w: string, rest: string)
    requires NoSpace(w)
    requires rest == [] || IsSpace(rest[0])
    ensures WordEnd(w + rest, 0) == |w|
  {
    var s := w + rest;
    assert forall k :: 0 <= k < |w| ==> s[k] == w[k];
    assert rest != [] ==> s[|w|] == rest[0];
    WordEndAt(s, 0, |w|);
  }

  /** A run of non-whitespace from `i` to `x` ends at or after `x`. */
  lemma {:induction false} WordEndPast(s: string, i: nat, x: nat)
    requires i <= x <= |s|
    requires forall k :: i <= k < x ==> !IsSpace(s[k])
    ensures x <= WordEnd(s, i)
    decreases x - i
  {
    if i < x {
      WordEndPast(s, i + 1, x);
    }
  }

  /** `WordEnd` from `i` is the first whitespace position at or after `i`. */
  lemma {:induction false} WordEndAt(s: string, i: nat, e: nat)
    requires i <= e <= |s|
    requires forall k :: i <= k < e ==> !IsSpace(s[k])
    requires e == |s| || IsSpace(s[e])
    ensures WordEnd(s, i) == e
    decreases e - i
  {
    if i < e {
      WordEndAt(s, i + 1, e);
    }
  }

  /** A single non-empty word without whitespace splits into itself. */
  lemma SplitWord(w: string)
    requires w != [] && NoSpace(w)
    ensures Split(w) == [w]
  {
    SplitFirstWord(w, w);
    SplitFromEmpty(w, |w|);
  }

  /** Splitting joined words gives the words back, provided each is non-empty
      and holds no whitespace. */
  lemma {:induction false} SplitJoin(words: seq<string>)
    requires AreWords(words)
    ensures Split(Join(words)) == words
  {
    if |words| == 1 {
      SplitWord(words[0]);
    } else if |words| > 1 {
      SplitWordSpace(words[0], Join(words[1..]));
      SplitJoin(words[1..]);
      assert words == [words[0]] + words[1..];
    }
  }

  // ---------------------------------------------------------------------------
  // Substring test: `needle in haystack`
  // ---------------------------------------------------------------------------

  predicate OccursAt(haystack: string, needle: string, i: nat) {
    i + |needle| <= |haystack| && haystack[i..i + |needle|] == needle
  }

  /** `needle in haystack`: the needle occurs at some position, that is, the
      haystack is some text, then the needle, then some more text. */
  predicate Contains(haystack: string, needle: string)
    ensures Contains(haystack, needle) <==> exists a, b :: haystack == a + needle + b
  {
    OccursIffConcat(haystack, needle);
    exists i: nat :: i <= |haystack| && OccursAt(haystack, needle, i)
  }

  /** An occurrence at a position is a split of the haystack around the
      needle, and back. */
  lemma OccursIffConcat(haystack: string, needle: string)
    ensures (exists i: nat :: i <= |haystack| && OccursAt(haystack, needle, i)) <==>
            exists a, b :: haystack == a + needle + b
  {
    if i: nat :| i <= |haystack| && OccursAt(haystack, needle, i) {
      assert haystack == haystack[..i] + needle + haystack[i + |needle|..];
    }
    if a, b :| haystack == a + needle + b {
      assert OccursAt(haystack, needle, |a|);
    }
  }

  /** Two adjacent characters of `h` equal `x` and `y`. */
  predicate HasPair(h: string, x: char, y: char) {
    exists i: nat :: i + 1 < |h| && h[i] == x && h[i + 1] == y
  }

  /** A text containing a needle contains each adjacent character pair of the
      needle; a text lacking one of those pairs cannot contain it. */
  lemma ContainsPair(haystack: string, needle: string, j: nat)
    requires Contains(haystack, needle)
    requires j + 1 < |needle|
    ensures HasPair(haystack, needle[j], needle[j + 1])
  {
    var i: nat :| i <= |haystack| && OccursAt(haystack, needle, i);
    assert haystack[i + j] == haystack[i..i + |needle|][j];
    assert haystack[i + j + 1] == haystack[i..i + |needle|][j + 1];
  }

  /** Some piece of `words` contains `m`. */
  predicate SomeContains(words: seq<string>, m: string) {
    exists k :: 0 <= k < |words| && Contains(words[k], m)
  }

  lemma SomeContainsCons(w: string, words: seq<string>, m: string)
    requires SomeContains(words, m)
    ensures SomeContains([w] + words, m)
  {
    var k :| 0 <= k < |words| && Contains(words[k], m);
    assert ([w] + words)[k + 1] == words[k];
  }

  /** A whitespace-free piece of text that occurs in `s` at or after `i` lies
      inside one of the pieces of the split from `i`. */
  lemma {:induction false} SplitFromKeepsPiece(s: string, i: nat, m: string, p: nat)
    requires i <= p && m != [] && NoSpace(m)
    requires OccursAt(s, m, p)
    ensures SomeContains(SplitFrom(s, i), m)
    decreases |s| - i
  {
    assert s[p] == s[p..p + |m|][0];
    var j := SkipSpace(s, i);
    var e := WordEnd(s, j);
    SkipSpaceFacts(s, i);
    WordEndFacts(s, j);
    if p < e {
      forall k | j <= k < p + |m|
        ensures !IsSpace(s[k])
      {
        if k >= p {
          assert s[k] == s[p..p + |m|][k - p];
        }
      }
      WordEndPast(s, j, p + |m|);
      SliceOfSlice(s, j, e, p - j, p - j + |m|);
      assert OccursAt(s[j..e], m, p - j);
      assert SplitFrom(s, i)[0] == s[j..e];
    } else {
      SplitFromKeepsPiece(s, e, m, p);
      SomeContainsCons(s[j..e], SplitFrom(s, e), m);
    }
  }

  lemma SplitKeepsPiece(s: string, m: string, p: nat)
    requires m != [] && NoSpace(m)
    requires OccursAt(s, m, p)
    ensures SomeContains(Split(s), m)
  {
    SplitFromKeepsPiece(s, 0, m, p);
  }
}
