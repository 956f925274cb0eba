/** The single-tier bot of `filter.js`: banned words from a comma-separated
    setting, a seven-entry normaliser, an unanchored loose pattern built from
    per-character classes, and a notice posted when any word matches either
    by pattern or by plain containment in the normalised text. */
module FilterBot {
  import opened Text
  import opened Seqs
  import opened Normalize
  import opened LooseGrammar
  import opened Events

  /** The substitution table of `normalizeText`. Unlike the two-tier bot it
      has no entry for `4`, and `*` (mapped to the empty string) falls back
      to itself and is stripped. */
  const Substitutions: Table := map[
    '@' := "a", '!' := "i", '1' := "i", '$' := "s", '0' := "o", '3' := "e", '*' := ""]

  lemma SubstitutionsWellFormed()
    ensures WellFormedTable(Substitutions)
  {
  }

  /** `normalizeText`. */
  function NormalizeText(text: String): String {
    NormalizeWith(Substitutions, text)
  }

  /** The normal form is over `a`-`z` only, and normalising it again changes
      nothing. */
  lemma NormalizeTextAlphabetAndIdempotent(text: String)
    ensures AllLowerLetters(NormalizeText(text))
    ensures NormalizeText(NormalizeText(text)) == NormalizeText(text)
  {
    SubstitutionsWellFormed();
    NormalizeIdempotent(Substitutions, text);
  }

  /** What the table does to single characters. */
  lemma NormalizeTextChar(c: char)
    ensures NormalizeText([c]) ==
      if c in Substitutions then Substitutions[c]
      else if IsLowerLetter(LowerChar(c)) then [LowerChar(c)]
      else []
    ensures c == '@' ==> NormalizeText([c]) == "a"
    ensures c == '!' || c == '1' ==> NormalizeText([c]) == "i"
    ensures c == '$' ==> NormalizeText([c]) == "s"
    ensures c == '0' ==> NormalizeText([c]) == "o"
    ensures c == '3' ==> NormalizeText([c]) == "e"
    ensures c == '4' || c == '*' || c == '#' || c == '|' ==> NormalizeText([c]) == []
  {
    SubstitutionsWellFormed();
    NormalizeChar(Substitutions, c);
  }

  /** The character classes of `buildLooseRegex`. */
  const Classes: map<char, String> := map[
    'a' := "a@", 'i' := "i!1", 's' := "s$", 'o' := "o0", 'e' := "e3",
    'c' := "c(", 'k' := "k", 'h' := "h#", 'n' := "n", 'l' := "l1|!"]

  /** `substitutions[char] || char`: the class written between the brackets
      for one character of the word; it always starts with that character. */
  function ClassOf(ch: char): (r: String)
    ensures |r| >= 1 && r[0] == ch
  {
    if ch in Classes && Classes[ch] != [] then Classes[ch] else [ch]
  }

  /** Text character `x` is matched by `[ClassOf(ch)]` under the `i` flag. */
  predicate InClass(x: char, ch: char) {
    exists k | 0 <= k < |ClassOf(ch)| :: SameIgnoringCase(x, ClassOf(ch)[k])
  }

  /** A word whose characters, pasted between brackets, read as themselves:
      no `]` (closes the class), `\` (escapes) or `^` (negates a class of
      one character). */
  predicate RegexSafe(word: String) {
    forall k :: 0 <= k < |word| ==> word[k] != ']' && word[k] != '\\' && word[k] != '^'
  }

  /** The pattern for `word` matches `text[i..j]`. */
  predicate MatchAt(word: String, text: String, i: int, j: int) {
    0 <= i <= j <= |text| && Runs(word, text[i..j], InClass, IsJsSpace)
  }

  /** `buildLooseRegex(word).test(text)`: the pattern is
      `[C1]+\s*[C2]+\s*...[Ck]+\s*` with the `i` flag and no anchors, for
      Ci the class of the i-th character of the raw word, and `test`
      succeeds when it matches anywhere in `text`. */
  predicate LooseTest(word: String, text: String) {
    exists i, j | 0 <= i <= j <= |text| :: MatchAt(word, text, i, j)
  }

  /** The pattern is unanchored: any word whose characters read as
      themselves inside brackets matches wherever it occurs verbatim in the
      text. */
  lemma ContainedWordMatches(word: String, text: String)
    requires RegexSafe(word)
    requires Contains(text, word)
    ensures LooseTest(word, text)
  {
    var i :| 0 <= i <= |text| - |word| && OccursAt(text, word, i);
    forall k | 0 <= k < |word|
      ensures InClass(word[k], word[k])
    {
      assert SameIgnoringCase(word[k], ClassOf(word[k])[0]);
    }
    ExpandOnes(word);
    assert PositiveCounts(word, Ones(|word|));
    ExpandRuns(word, word, Ones(|word|), InClass, IsJsSpace);
    assert MatchAt(word, text, i, i + |word|);
  }

  /** A match needs at least one text character per word character. */
  lemma MatchNeedsLength(word: String, text: String)
    requires LooseTest(word, text)
    ensures |text| >= |word|
  {
    var i, j :| 0 <= i <= j <= |text| && MatchAt(word, text, i, j);
    RunsLength(word, text[i..j], InClass, IsJsSpace);
  }

  /** A match of a non-empty word starts at a text character in the class of
      the word's first character. */
  lemma MatchNeedsStandIn(word: String, text: String)
    requires |word| > 0 && LooseTest(word, text)
    ensures exists k :: 0 <= k < |text| && InClass(text[k], word[0])
  {
    var i, j :| 0 <= i <= j <= |text| && MatchAt(word, text, i, j);
    assert UnitRun(word[0], word[1..], text[i..j], InClass, IsJsSpace);
    assert text[i..j][0] == text[i];
  }

  /** Patterns reject: "hello" does not match the shorter "help", and "cat"
      does not match a text with no `c` or `(` in it. */
  lemma RejectionExamples(text: String)
    requires text == "dog dog dog"
    ensures !LooseTest("hello", "help")
    ensures !LooseTest("cat", text)
  {
    if LooseTest("hello", "help") {
      MatchNeedsLength("hello", "help");
    }
    if LooseTest("cat", text) {
      MatchNeedsStandIn("cat", text);
    }
  }

  /** Look-alike characters and surrounding text are tolerated: "hello"
      matches "say h3ll0 there". */
  lemma LookAlikeExample(word: String, q: String, text: String)
    requires word == "hello" && q == "h3ll0" && text == "say h3ll0 there"
    ensures LooseTest(word, text)
  {
    assert SameIgnoringCase(q[1], ClassOf(word[1])[1]);
    assert SameIgnoringCase(q[4], ClassOf(word[4])[1]);
    forall k | 0 <= k < |word|
      ensures InClass(q[k], word[k])
    {
      if k == 1 || k == 4 {
        assert SameIgnoringCase(q[k], ClassOf(word[k])[1]);
      } else {
        assert SameIgnoringCase(q[k], ClassOf(word[k])[0]);
      }
    }
    ExpandOnes(q);
    assert PositiveCounts(word, Ones(|q|));
    ExpandRuns(word, q, Ones(|q|), InClass, IsJsSpace);
    assert text[4..9] == q;
    assert MatchAt(word, text, 4, 9);
  }

  /** The empty word gives the empty pattern, which matches every text; and
      every text includes the empty string. */
  lemma EmptyWordMatchesEverything(text: String)
    ensures LooseTest([], text)
    ensures Contains(NormalizeText(text), [])
  {
    assert text[0..0] == [];
    assert MatchAt([], text, 0, 0);
    ContainsEmpty(NormalizeText(text));
  }

  /** The `includes` branch can only succeed for a word of `a`-`z` letters
      (or the empty word), since the normalised text has nothing else. */
  lemma IncludesNeedsLetters(word: String, text: String)
    requires Contains(NormalizeText(text), word)
    ensures AllLowerLetters(word)
  {
    var n := NormalizeText(text);
    var i :| 0 <= i <= |n| - |word| && OccursAt(n, word, i);
    assert forall k :: 0 <= k < |word| ==> word[k] == n[i + k];
  }

  /** `BANNED_WORDS`: unset or empty gives no words; otherwise every piece
      between commas, trimmed and lower-cased, with empty pieces kept. */
  function ParseBannedWords(setting: Option<String>): (r: seq<String>)
    ensures !Truthy(setting) ==> r == []
    ensures Truthy(setting) ==> |r| == |Split(setting.value, ',')|
    ensures forall k :: 0 <= k < |r| ==> IsTrimmed(r[k]) && Lower(r[k]) == r[k]
    ensures Truthy(setting) ==> forall k :: 0 <= k < |r| ==> r[k] == TrimLower(Split(setting.value, ',')[k])
  {
    if Truthy(setting) then Map(Split(setting.value, ','), TrimLower) else []
  }

  /** A setting without commas is one word: itself, trimmed and
      lower-cased, even when that leaves it empty. */
  lemma ParseBannedWordsPiece(a: String)
    requires a != [] && ',' !in a
    ensures ParseBannedWords(Some(a)) == [TrimLower(a)]
  {
    SplitNoSeparator(a, ',');
  }

  /** Words keep the order of the setting. */
  lemma ParseBannedWordsConcat(a: String, b: String)
    requires a != [] && b != []
    ensures ParseBannedWords(Some(a + "," + b)) == ParseBannedWords(Some(a)) + ParseBannedWords(Some(b))
  {
    SplitConcat(a, b, ',');
    MapAppend(Split(a, ','), Split(b, ','), TrimLower);
  }

  /** A trailing comma leaves an empty word in the list. */
  lemma TrailingCommaKeepsEmptyWord(a: String)
    requires ',' !in a
    ensures [] in ParseBannedWords(Some(a + ","))
  {
    SplitConcat(a, [], ',');
    assert a + "," == a + [','] + [];
    assert Split([], ',') == [[]];
    var r := ParseBannedWords(Some(a + ","));
    SplitNoSeparator(a, ',');
    assert r[1] == TrimLower([]);
  }

  /** The `filter` callback: the pattern accepts the lower-cased text, or the
      normalised text contains the word. */
  predicate WordMatches(word: String, text: String) {
    LooseTest(word, text) || Contains(NormalizeText(text), word)
  }

  /** `matchedWords`: the banned words, in order, that match the lower-cased
      message text. */
  function MatchedWords(words: seq<String>, rawText: String): (r: seq<String>)
    requires forall k :: 0 <= k < |words| ==> RegexSafe(words[k])
    ensures |r| <= |words|
    ensures forall k :: 0 <= k < |r| ==> r[k] in words && WordMatches(r[k], Lower(rawText))
    ensures forall k :: 0 <= k < |words| && WordMatches(words[k], Lower(rawText)) ==> words[k] in r
  {
    var text := Lower(rawText);
    Filter(words, w => WordMatches(w, text))
  }

  /** The matched words keep the order and the repeats of the banned words:
      matching distributes over concatenation of the word list. */
  lemma MatchedWordsAppend(a: seq<String>, b: seq<String>, rawText: String)
    requires forall k :: 0 <= k < |a| ==> RegexSafe(a[k])
    requires forall k :: 0 <= k < |b| ==> RegexSafe(b[k])
    ensures forall k :: 0 <= k < |a + b| ==> RegexSafe((a + b)[k])
    ensures MatchedWords(a + b, rawText) == MatchedWords(a, rawText) + MatchedWords(b, rawText)
  {
    var text := Lower(rawText);
    FilterAppend(a, b, w => WordMatches(w, text));
  }

  /** A notice is due exactly when some banned word matches. */
  lemma MatchedWordsNonEmpty(words: seq<String>, rawText: String)
    requires forall k :: 0 <= k < |words| ==> RegexSafe(words[k])
    ensures |MatchedWords(words, rawText)| > 0 <==>
      exists k :: 0 <= k < |words| && WordMatches(words[k], Lower(rawText))
  {
    var r := MatchedWords(words, rawText);
    if |r| > 0 {
      assert r[0] in words && WordMatches(r[0], Lower(rawText));
      var k :| 0 <= k < |words| && words[k] == r[0];
    }
  }

  /** The `/slack/events` handler of `filter.js`: whether it posts the
      "profanity detected" notice. Only plain messages not sent by the bot
      itself are looked at, with a missing text read as the empty string. */
  function Notifies(setting: Option<String>, botUserId: Option<String>, event: Option<Event>): (notify: bool)
    requires forall k :: 0 <= k < |ParseBannedWords(setting)| ==> RegexSafe(ParseBannedWords(setting)[k])
    ensures notify <==>
      && event.Some?
      && IsPlainMessage(event.value)
      && event.value.user != botUserId
      && exists k :: 0 <= k < |ParseBannedWords(setting)|
           && WordMatches(ParseBannedWords(setting)[k], Lower(OrEmpty(event.value.text)))
  {
    match event
    case None => false
    case Some(ev) =>
      if IsPlainMessage(ev) && ev.user != botUserId then
        var words := ParseBannedWords(setting);
        var matched := MatchedWords(words, OrEmpty(ev.text));
        MatchedWordsNonEmpty(words, OrEmpty(ev.text));
        |matched| > 0
      else false
  }

  /** With `BANNED_WORDS` unset, nothing is ever reported. */
  lemma UnsetNeverNotifies(botUserId: Option<String>, event: Option<Event>)
    ensures !Notifies(None, botUserId, event)
  {
  }

  /** An empty banned word (a blank piece of the setting) reports every
      message that reaches the check, empty ones included. */
  lemma EmptyWordReportsEverything(setting: Option<String>, botUserId: Option<String>, event: Option<Event>)
    requires forall k :: 0 <= k < |ParseBannedWords(setting)| ==> RegexSafe(ParseBannedWords(setting)[k])
    requires [] in ParseBannedWords(setting)
    requires event.Some? && IsPlainMessage(event.value) && event.value.user != botUserId
    ensures Notifies(setting, botUserId, event)
  {
    EmptyWordMatchesEverything(Lower(OrEmpty(event.value.text)));
  }
}
