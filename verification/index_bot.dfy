/** The two-tier bot of `index.js`: phrase lists read from two files, a
    normaliser with a twenty-entry substitution table, a word-boundary
    anchored loose pattern per phrase tested against the normalised message,
    and a hard tier (auto-delete) that takes precedence over the soft tier
    (flag for review). */
module IndexBot {
  import opened Text
  import opened Seqs
  import opened Normalize
  import opened LooseGrammar
  import opened Events

  /** The substitution table of `normalizeChar`. */
  const Substitutions: Table := map[
    '@' := "a", '!' := "i", '1' := "i", '$' := "s", '0' := "o", '3' := "e", '4' := "a",
    '*' := "", '#' := "h", '|' := "i", '+' := "", '^' := "", '%' := "", '&' := "",
    '(' := "", ')' := "", '_' := "", '=' := "", '`' := "", '~' := ""]

  lemma SubstitutionsWellFormed()
    ensures WellFormedTable(Substitutions)
  {
  }

  /** `normalizeText`. */
  function NormalizeText(text: String): String {
    NormalizeWith(Substitutions, text)
  }

  /** The normal form is over `a`-`z` only, and normalising it again changes
      nothing. */
  lemma NormalizeTextAlphabetAndIdempotent(text: String)
    ensures AllLowerLetters(NormalizeText(text))
    ensures NormalizeText(NormalizeText(text)) == NormalizeText(text)
  {
    SubstitutionsWellFormed();
    NormalizeIdempotent(Substitutions, text);
  }

  /** What normalisation does to one character: a key of the table becomes
      its entry (so `@` and `4` become `a`, and a key mapped to the empty
      string, which falls back to itself and is then stripped, disappears),
      a letter is lower-cased, anything else disappears. */
  lemma NormalizeTextChar(c: char)
    ensures NormalizeText([c]) ==
      if c in Substitutions then Substitutions[c]
      else if IsLowerLetter(LowerChar(c)) then [LowerChar(c)]
      else []
  {
    SubstitutionsWellFormed();
    NormalizeChar(Substitutions, c);
  }

  /** `[^a-zA-Z0-9]`, the separator class of the loose pattern. */
  predicate IsSeparator(x: char) { !IsAlnum(x) }

  /** `\b` holds at position `i` of `t`: exactly one of the characters on
      either side is a word character. */
  predicate IsBoundary(t: String, i: int)
    requires 0 <= i <= |t|
  {
    (i > 0 && IsWordChar(t[i - 1])) != (i < |t| && IsWordChar(t[i]))
  }

  /** The pattern for normal form `p` matches `t[i..j]`, with `\b` holding at
      both ends. */
  predicate MatchAt(p: String, t: String, i: int, j: int) {
    && 0 <= i <= j <= |t|
    && IsBoundary(t, i)
    && IsBoundary(t, j)
    && Runs(p, t[i..j], SameIgnoringCase, IsSeparator)
  }

  /** `buildLooseRegex(phrase).test(t)`: the pattern is
      `\b c1+[^a-zA-Z0-9]* ... ck+[^a-zA-Z0-9]* \b` with the `i` flag, for
      c1 ... ck the normal form of the phrase, and `test` succeeds when it
      matches anywhere in `t`. */
  predicate LooseTest(phrase: String, t: String) {
    var p := NormalizeText(phrase);
    exists i, j | 0 <= i <= j <= |t| :: MatchAt(p, t, i, j)
  }

  /** In a text of letters only, `\b` holds only at the two ends, and never
      in the empty text. */
  lemma BoundaryOnLetters(t: String, i: int)
    requires AllLowerLetters(t)
    requires 0 <= i <= |t|
    ensures IsBoundary(t, i) <==> |t| > 0 && (i == 0 || i == |t|)
  {
  }

  /** Nothing matches the empty text. */
  lemma NothingMatchesEmptyText(phrase: String)
    ensures !LooseTest(phrase, [])
  {
  }

  /** The independent description of a match on normalised text: the text is
      c1^n1 c2^n2 ... ck^nk with every ni at least one, for c1 ... ck the
      normal form of the phrase; a phrase whose normal form is empty gives
      the pattern `\b\b`, which accepts any non-empty text. */
  ghost predicate Accepts(phrase: String, t: String) {
    var p := NormalizeText(phrase);
    if |p| == 0 then |t| > 0
    else exists ns :: PositiveCounts(p, ns) && t == Expand(p, ns)
  }

  /** On letters-only text the anchored pattern is a whole-string match. */
  lemma {:induction false} WholeStringMatch(phrase: String, t: String)
    requires AllLowerLetters(t)
    requires |NormalizeText(phrase)| >= 1
    ensures LooseTest(phrase, t) <==> Runs(NormalizeText(phrase), t, SameIgnoringCase, IsSeparator)
  {
    var p := NormalizeText(phrase);
    if LooseTest(phrase, t) {
      var i, j :| 0 <= i <= j <= |t| && MatchAt(p, t, i, j);
      BoundaryOnLetters(t, i);
      BoundaryOnLetters(t, j);
      if i == j {
        RunsLength(p, t[i..j], SameIgnoringCase, IsSeparator);
        assert false;
      }
      assert t[i..j] == t;
    }
    if Runs(p, t, SameIgnoringCase, IsSeparator) {
      RunsLength(p, t, SameIgnoringCase, IsSeparator);
      BoundaryOnLetters(t, 0);
      BoundaryOnLetters(t, |t|);
      assert t[0..|t|] == t;
      assert MatchAt(p, t, 0, |t|);
    }
  }

  /** `buildLooseRegex(phrase).test(t)` on normalised text is exactly
      `Accepts`: a run-length stretch of the phrase's normal form, or any
      non-empty text when that normal form is empty. */
  lemma {:induction false} LooseTestIsAccepts(phrase: String, t: String)
    requires AllLowerLetters(t)
    ensures LooseTest(phrase, t) <==> Accepts(phrase, t)
  {
    var p := NormalizeText(phrase);
    NormalizeTextAlphabetAndIdempotent(phrase);
    if |p| == 0 {
      if LooseTest(phrase, t) {
        var i, j :| 0 <= i <= j <= |t| && MatchAt(p, t, i, j);
        BoundaryOnLetters(t, i);
      }
      if |t| > 0 {
        BoundaryOnLetters(t, 0);
        assert t[0..0] == [];
        assert MatchAt(p, t, 0, 0);
      }
    } else {
      WholeStringMatch(phrase, t);
      if Runs(p, t, SameIgnoringCase, IsSeparator) {
        var ns := RunsExpand(p, t, SameIgnoringCase, IsSeparator);
      }
      if exists ns :: PositiveCounts(p, ns) && t == Expand(p, ns) {
        var ns :| PositiveCounts(p, ns) && t == Expand(p, ns);
        ExpandRuns(p, p, ns, SameIgnoringCase, IsSeparator);
      }
    }
  }

  /** A phrase with at least one letter after normalisation matches its own
      normal form. */
  lemma PhraseMatchesOwnNormalForm(phrase: String)
    requires |NormalizeText(phrase)| >= 1
    ensures LooseTest(phrase, NormalizeText(phrase))
  {
    var p := NormalizeText(phrase);
    NormalizeTextAlphabetAndIdempotent(phrase);
    ExpandOnes(p);
    assert PositiveCounts(p, Ones(|p|));
    LooseTestIsAccepts(phrase, p);
  }

  lemma SpamExpansion(q: String, ns: seq<nat>)
    requires q == "spam" && ns == [3, 1, 4, 1]
    ensures Expand(q, ns) == "ssspaaaam"
  {
    assert Expand(q[3..], ns[3..]) == "m";
    assert Expand(q[2..], ns[2..]) == "aaaa" + "m";
    assert Expand(q[1..], ns[1..]) == "p" + "aaaam";
  }

  /** Repeated letters still match. */
  lemma RepeatedLettersExample(phrase: String, t: String)
    requires phrase == "spam" && t == "ssspaaaam"
    ensures LooseTest(phrase, t)
  {
    SubstitutionsWellFormed();
    NormalizeFixesLetters(Substitutions, phrase);
    var ns: seq<nat> := [3, 1, 4, 1];
    SpamExpansion(phrase, ns);
    assert PositiveCounts(NormalizeText(phrase), ns);
    LooseTestIsAccepts(phrase, t);
  }

  /** Because of the anchoring, a longer word that merely contains the
      phrase does not match. */
  lemma AnchoringExample(phrase: String, t: String)
    requires (phrase == "spam" && t == "thisisspam") || (phrase == "ok" && t == "smoker")
    ensures !LooseTest(phrase, t)
  {
    SubstitutionsWellFormed();
    NormalizeFixesLetters(Substitutions, phrase);
    WholeStringMatch(phrase, t);
    assert !SameIgnoringCase(t[0], phrase[0]);
    assert !UnitRun(phrase[0], phrase[1..], t, SameIgnoringCase, IsSeparator);
  }

  // Phrase-list files

  /** `line.length > 0 && !line.startsWith('#')`. */
  predicate IsPhraseLine(entry: String) {
    |entry| > 0 && entry[0] != '#'
  }

  /** Reading `.profanitylist` or `.slurlist`: split on `'\n'`, clean each
      line, keep the non-empty lines that are not comments. */
  function ParsePhraseList(contents: String): (r: seq<String>)
    ensures forall k :: 0 <= k < |r| ==> IsPhraseLine(r[k]) && IsTrimmed(r[k]) && Lower(r[k]) == r[k]
    ensures |r| <= |Split(contents, '\n')|
  {
    Filter(Map(Split(contents, '\n'), TrimLower), IsPhraseLine)
  }

  /** Entries keep the order of their lines: the list of a file is the list
      of its first line followed by the list of the rest. */
  lemma ParsePhraseListConcat(a: String, b: String)
    ensures ParsePhraseList(a + "\n" + b) == ParsePhraseList(a) + ParsePhraseList(b)
  {
    SplitConcat(a, b, '\n');
    MapAppend(Split(a, '\n'), Split(b, '\n'), TrimLower);
    FilterAppend(Map(Split(a, '\n'), TrimLower), Map(Split(b, '\n'), TrimLower), IsPhraseLine);
  }

  /** A single line contributes its cleaned form, unless that is empty or a
      comment. */
  lemma ParsePhraseListLine(line: String)
    requires '\n' !in line
    ensures ParsePhraseList(line) ==
      if IsPhraseLine(TrimLower(line)) then [TrimLower(line)] else []
  {
    SplitNoSeparator(line, '\n');
    assert Map([line], TrimLower) == [TrimLower(line)];
  }

  // Tier selection

  predicate AllNonEmpty(phrases: seq<String>) {
    forall k :: 0 <= k < |phrases| ==> phrases[k] != []
  }

  /** `phrases.find(phrase => buildLooseRegex(phrase).test(t))`: the first
      phrase in list order whose pattern accepts `t`. */
  function FirstMatch(phrases: seq<String>, t: String): (r: Option<String>)
    ensures r.None? <==> forall k :: 0 <= k < |phrases| ==> !LooseTest(phrases[k], t)
    ensures r.Some? ==>
      exists k :: 0 <= k < |phrases| && phrases[k] == r.value && LooseTest(phrases[k], t)
        && forall j :: 0 <= j < k ==> !LooseTest(phrases[j], t)
  {
    Find(phrases, phrase => LooseTest(phrase, t))
  }

  datatype Action = AutoDelete(phrase: String) | FlagForReview(phrase: String) | NoAction

  /** The branch taken for a message: `if (hardMatch) … else if (softMatch)
      …`, where each match is truthy only when it is a non-empty phrase. The
      hard tier is looked at first, and the soft branch is only reachable
      when the hard lookup found nothing truthy. */
  function Decide(hard: seq<String>, soft: seq<String>, rawText: String): (a: Action)
    ensures a.AutoDelete? ==> a.phrase != [] && FirstMatch(hard, NormalizeText(Lower(rawText))) == Some(a.phrase)
    ensures a.FlagForReview? ==>
      && a.phrase != []
      && FirstMatch(soft, NormalizeText(Lower(rawText))) == Some(a.phrase)
      && !Truthy(FirstMatch(hard, NormalizeText(Lower(rawText))))
    ensures a.NoAction? ==>
      && !Truthy(FirstMatch(hard, NormalizeText(Lower(rawText))))
      && !Truthy(FirstMatch(soft, NormalizeText(Lower(rawText))))
  {
    var t := NormalizeText(Lower(rawText));
    var hardMatch := FirstMatch(hard, t);
    var softMatch := FirstMatch(soft, t);
    if Truthy(hardMatch) then AutoDelete(hardMatch.value)
    else if Truthy(softMatch) then FlagForReview(softMatch.value)
    else NoAction
  }

  /** For lists of non-empty phrases (as the files yield), the decision in
      terms of `Accepts` on the normalised message: delete when some hard
      phrase accepts, flag when no hard phrase accepts and some soft phrase
      does, otherwise nothing. */
  lemma {:induction false} DecideByAccepts(hard: seq<String>, soft: seq<String>, rawText: String)
    requires AllNonEmpty(hard) && AllNonEmpty(soft)
    ensures Decide(hard, soft, rawText).AutoDelete? <==>
      exists k :: 0 <= k < |hard| && Accepts(hard[k], NormalizeText(Lower(rawText)))
    ensures Decide(hard, soft, rawText).FlagForReview? <==>
      && (forall k :: 0 <= k < |hard| ==> !Accepts(hard[k], NormalizeText(Lower(rawText))))
      && exists k :: 0 <= k < |soft| && Accepts(soft[k], NormalizeText(Lower(rawText)))
  {
    var t := NormalizeText(Lower(rawText));
    NormalizeTextAlphabetAndIdempotent(Lower(rawText));
    forall phrase: String
      ensures LooseTest(phrase, t) <==> Accepts(phrase, t)
    {
      LooseTestIsAccepts(phrase, t);
    }
    var h := FirstMatch(hard, t);
    var s := FirstMatch(soft, t);
    assert h.Some? ==> h.value in hard;
    assert s.Some? ==> s.value in soft;
  }

  /** Hard precedence: when some hard phrase matches, the message is
      auto-deleted, whatever the soft tier says. */
  lemma HardTakesPrecedence(hard: seq<String>, soft: seq<String>, rawText: String, k: nat)
    requires AllNonEmpty(hard)
    requires k < |hard| && LooseTest(hard[k], NormalizeText(Lower(rawText)))
    ensures Decide(hard, soft, rawText).AutoDelete?
  {
    var h := FirstMatch(hard, NormalizeText(Lower(rawText)));
    assert h.Some? && h.value in hard;
  }

  /** The `/slack/events` handler of `index.js` for one event: only plain
      messages not sent by the bot itself are looked at, with a missing text
      read as the empty string. */
  function HandleEvent(hardFile: String, softFile: String, botUserId: Option<String>, event: Option<Event>): (a: Action)
    ensures event.None? ==> a.NoAction?
    ensures event.Some? && event.value.user == botUserId ==> a.NoAction?
    ensures event.Some? && !IsPlainMessage(event.value) ==> a.NoAction?
    ensures event.Some? && IsPlainMessage(event.value) && event.value.user != botUserId ==>
      a == Decide(ParsePhraseList(hardFile), ParsePhraseList(softFile), OrEmpty(event.value.text))
  {
    match event
    case None => NoAction
    case Some(ev) =>
      if IsPlainMessage(ev) && ev.user != botUserId then
        Decide(ParsePhraseList(hardFile), ParsePhraseList(softFile), OrEmpty(ev.text))
      else NoAction
  }
}
