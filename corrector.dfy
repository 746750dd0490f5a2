/**
 * The backend correction service: the rule-based fallback corrector
 * (`improveEnglishLocal`, `analyzeCorrectionsLocal`, `extractVocabularyLocal`,
 * `categorizeSentenceLocal`), the normalisation of a parsed model reply into a
 * correction result, and the choice between the model's reply and the local
 * fallback in `correctEnglish`. The model call itself is a parameter.
 */
module Corrector {
  import opened JsStrings
  import opened Wrappers

  datatype VocabEntry = VocabEntry(expression: string, meaning: string, example: string)

  datatype CorrectionResult = CorrectionResult(
    correctedSentence: string,
    explanation: seq<string>,
    vocabulary: seq<VocabEntry>,
    tags: seq<string>)

  // ---- improveEnglishLocal ----

  /** The four case-insensitive whole-word capitalisations, applied in order. */
  function CapitaliseNames(s: string): (r: string)
    ensures |r| >= |s|
  {
    var s1 := ReplaceWords(s, "london", "London");
    ReplaceWordsGrows(s, "london", "London", 0);
    var s2 := ReplaceWords(s1, "chuchu", "Chuchu");
    ReplaceWordsGrows(s1, "chuchu", "Chuchu", 0);
    var s3 := ReplaceWords(s2, "newyork", "New York");
    ReplaceWordsGrows(s2, "newyork", "New York", 0);
    ReplaceWordsGrows(s3, "seattle", "Seattle", 0);
    ReplaceWords(s3, "seattle", "Seattle")
  }

  /** The article rule: a bare "london snack" gets "a " in front of its first occurrence. */
  function AddArticle(s: string): (r: string)
    ensures NeedsArticle(s) ==> |r| == |s| + 2
    ensures !NeedsArticle(s) ==> r == s
  {
    if NeedsArticle(s) then ReplaceFirst(s, "london snack", "a London snack") else s
  }

  predicate NeedsArticle(s: string) {
    Includes(s, "london snack") && !Includes(s, "a london snack") && !Includes(s, "the london snack")
  }

  function CapitaliseBuyer(s: string): (r: string)
    ensures |r| == |s|
  {
    ReplaceFirst(s, "snack that chuchu bought", "snack that Chuchu bought")
  }

  /**
   * The local correction of the learner's sentence. The Korean sentence is
   * accepted but plays no part: its only test guards an empty block.
   */
  function ImproveEnglishLocal(korean: string, userEnglish: string): (r: string)
    ensures |r| >= |userEnglish|
  {
    CapitaliseBuyer(AddArticle(CapitaliseNames(userEnglish)))
  }

  // ---- analyzeCorrectionsLocal ----

  /** The explanations the local analysis can give, in the order its rules run. */
  datatype Note = CityCapitalised | NameCapitalised | ArticleAdded | PastTenseMatched | GoodJob

  /** The wording of each explanation. */
  function NoteText(n: Note): (t: string)
    ensures |t| > 0
  {
    match n
    case CityCapitalised =>
      "Proper nouns like city names should be " + "capitalized: \"london\" → \"London\""
    case NameCapitalised => "Names should be capitalized: " + "\"chuchu\" → \"Chuchu\""
    case ArticleAdded => "Added article \"a\" before countable " + "nouns for natural English"
    case PastTenseMatched => "Used past tense \"ate\" correctly to " + "match Korean past tense \"먹었다\""
    case GoodJob =>
      "Good job! Your English is grammatically" + " correct. Here are some" + " style suggestions."
  }

  function NoteRank(n: Note): nat
  {
    match n
    case CityCapitalised => 0
    case NameCapitalised => 1
    case ArticleAdded => 2
    case PastTenseMatched => 3
    case GoodJob => 4
  }

  predicate FixesCity(userEnglish: string, corrected: string) {
    userEnglish != corrected && Includes(userEnglish, "london") && Includes(corrected, "London")
  }

  predicate FixesName(userEnglish: string, corrected: string) {
    userEnglish != corrected && Includes(userEnglish, "chuchu") && Includes(corrected, "Chuchu")
  }

  predicate AddsArticle(userEnglish: string, corrected: string) {
    userEnglish != corrected && !Includes(userEnglish, "a ") && Includes(corrected, "a ")
  }

  predicate MatchesPastTense(korean: string, userEnglish: string, corrected: string) {
    userEnglish != corrected && Includes(korean, "먹었다")
  }

  predicate Ascending(notes: seq<Note>) {
    forall i, j :: 0 <= i < j < |notes| ==> NoteRank(notes[i]) < NoteRank(notes[j])
  }

  /** Whether the rule behind an explanation fires. */
  predicate Fires(n: Note, korean: string, userEnglish: string, corrected: string) {
    match n
    case CityCapitalised => FixesCity(userEnglish, corrected)
    case NameCapitalised => FixesName(userEnglish, corrected)
    case ArticleAdded => AddsArticle(userEnglish, corrected)
    case PastTenseMatched => MatchesPastTense(korean, userEnglish, corrected)
    case GoodJob => false
  }

  /** The explanations of the rules in `rules` that fire, in the order of `rules`. */
  function Fired(rules: seq<Note>, korean: string, userEnglish: string, corrected: string): (r: seq<Note>)
    ensures |r| <= |rules|
    ensures forall m :: m in r <==> m in rules && Fires(m, korean, userEnglish, corrected)
  {
    if rules == [] then []
    else
      (if Fires(rules[0], korean, userEnglish, corrected) then [rules[0]] else [])
      + Fired(rules[1..], korean, userEnglish, corrected)
  }

  /** Keeping some rules keeps their order. */
  lemma {:induction false} FiredAscending(rules: seq<Note>, korean: string, userEnglish: string, corrected: string)
    requires Ascending(rules)
    ensures Ascending(Fired(rules, korean, userEnglish, corrected))
  {
    if rules != [] {
      var tail := Fired(rules[1..], korean, userEnglish, corrected);
      FiredAscending(rules[1..], korean, userEnglish, corrected);
      forall m | m in tail
        ensures NoteRank(rules[0]) < NoteRank(m)
      {
        var j :| 0 <= j < |rules[1..]| && rules[1..][j] == m;
        assert rules[j + 1] == m;
      }
      var head := if Fires(rules[0], korean, userEnglish, corrected) then [rules[0]] else [];
      assert Fired(rules, korean, userEnglish, corrected) == head + tail;
      forall i, j | 0 <= i < j < |head + tail|
        ensures NoteRank((head + tail)[i]) < NoteRank((head + tail)[j])
      {
        if i < |head| {
          assert (head + tail)[j] in tail;
        }
      }
    }
  }

  /**
   * The explanations of a correction: one per rule that fired, in rule order,
   * or the single encouragement when none did (in particular when nothing
   * was corrected).
   */
  function AnalyzeCorrectionsLocal(korean: string, userEnglish: string, corrected: string): (r: seq<Note>)
    ensures 1 <= |r| <= 4 && Ascending(r)
    ensures userEnglish == corrected ==> r == [GoodJob]
    ensures CityCapitalised in r <==> FixesCity(userEnglish, corrected)
    ensures NameCapitalised in r <==> FixesName(userEnglish, corrected)
    ensures ArticleAdded in r <==> AddsArticle(userEnglish, corrected)
    ensures PastTenseMatched in r <==> MatchesPastTense(korean, userEnglish, corrected)
    ensures GoodJob in r <==> r == [GoodJob]
    ensures r == [GoodJob] <==>
      !FixesCity(userEnglish, corrected) && !FixesName(userEnglish, corrected)
      && !AddsArticle(userEnglish, corrected) && !MatchesPastTense(korean, userEnglish, corrected)
  {
    var rules := [CityCapitalised, NameCapitalised, ArticleAdded, PastTenseMatched];
    var notes := Fired(rules, korean, userEnglish, corrected);
    FiredAscending(rules, korean, userEnglish, corrected);
    assert CityCapitalised in rules && NameCapitalised in rules;
    assert ArticleAdded in rules && PastTenseMatched in rules;
    if notes == [] then [GoodJob]
    else
      assert notes[0] in notes && Fires(notes[0], korean, userEnglish, corrected);
      notes
  }

  function NoteTexts(notes: seq<Note>): (r: seq<string>)
    ensures |r| == |notes|
    ensures forall i :: 0 <= i < |notes| ==> r[i] == NoteText(notes[i])
  {
    seq(|notes|, i requires 0 <= i < |notes| => NoteText(notes[i]))
  }

  /** Different explanations have different wordings: already their first characters differ. */
  lemma NoteTextInjective(a: Note, b: Note)
    requires NoteText(a) == NoteText(b)
    ensures a == b
  {
    NoteInitials(a);
    NoteInitials(b);
  }

  lemma NoteInitials(n: Note)
    ensures |NoteText(n)| > 1
    ensures NoteText(n)[0] == match n
      case CityCapitalised => 'P'
      case NameCapitalised => 'N'
      case ArticleAdded => 'A'
      case PastTenseMatched => 'U'
      case GoodJob => 'G'
    ensures NoteText(n)[1] != 'I'
  {
    match n
    case CityCapitalised =>
    case NameCapitalised =>
    case ArticleAdded =>
    case PastTenseMatched =>
    case GoodJob =>
  }

  // ---- extractVocabularyLocal ----

  const SnackEntry := VocabEntry("snack", "간식, 스넥", "I bought some snacks for the movie.")
  const BoughtEntry := VocabEntry("bought", "사다 (과거형)", "She bought a present for her friend.")
  const LondonEntry := VocabEntry("London", "런던 (영국의 수도)", "London is famous for its red buses "
    + "and Big Ben.")

  predicate MentionsSnack(korean: string, userEnglish: string) {
    Includes(korean, "스넥") || Includes(userEnglish, "snack")
  }

  predicate MentionsBought(korean: string, userEnglish: string) {
    Includes(korean, "사온") || Includes(userEnglish, "bought")
  }

  predicate MentionsLondon(korean: string, userEnglish: string) {
    Includes(korean, "런던") || Includes(userEnglish, "ondon")
  }

  function EntryRank(e: VocabEntry): nat
  {
    if e == SnackEntry then 0 else if e == BoughtEntry then 1 else 2
  }

  lemma EntryRanks()
    ensures SnackEntry != BoughtEntry && SnackEntry != LondonEntry && BoughtEntry != LondonEntry
    ensures EntryRank(SnackEntry) == 0 && EntryRank(BoughtEntry) == 1 && EntryRank(LondonEntry) == 2
  {
    assert SnackEntry.expression[0] == 's' && BoughtEntry.expression[0] == 'b' && LondonEntry.expression[0] == 'L';
  }

  /** Keeping some of three entries, in their order. */
  lemma ThreePicks(x: VocabEntry, y: VocabEntry, z: VocabEntry, px: bool, py: bool, pz: bool)
    requires x != y && x != z && y != z && EntryRank(x) < EntryRank(y) < EntryRank(z)
    ensures var r := (if px then [x] else []) + (if py then [y] else []) + (if pz then [z] else []);
      && |r| <= 3
      && (forall i :: 0 <= i < |r| ==> r[i] in {x, y, z})
      && (x in r <==> px) && (y in r <==> py) && (z in r <==> pz)
      && (forall i, j :: 0 <= i < j < |r| ==> EntryRank(r[i]) < EntryRank(r[j]))
  {
  }

  /** The glossary entries whose trigger words occur, in the order snack, bought, London. */
  function ExtractVocabularyLocal(korean: string, userEnglish: string): (r: seq<VocabEntry>)
    ensures |r| <= 3
    ensures forall i :: 0 <= i < |r| ==> r[i] in {SnackEntry, BoughtEntry, LondonEntry}
    ensures SnackEntry in r <==> MentionsSnack(korean, userEnglish)
    ensures BoughtEntry in r <==> MentionsBought(korean, userEnglish)
    ensures LondonEntry in r <==> MentionsLondon(korean, userEnglish)
    ensures forall i, j :: 0 <= i < j < |r| ==> EntryRank(r[i]) < EntryRank(r[j])
  {
    EntryRanks();
    ThreePicks(SnackEntry, BoughtEntry, LondonEntry,
      MentionsSnack(korean, userEnglish), MentionsBought(korean, userEnglish), MentionsLondon(korean, userEnglish));
    (if MentionsSnack(korean, userEnglish) then [SnackEntry] else [])
    + (if MentionsBought(korean, userEnglish) then [BoughtEntry] else [])
    + (if MentionsLondon(korean, userEnglish) then [LondonEntry] else [])
  }

  // ---- categorizeSentenceLocal ----

  const Technology := "IT/기술"
  const Business := "비즈니스"
  const Food := "음식"
  const Shopping := "쇼핑"
  const Travel := "여행"
  const DailyLife := "일상대화"
  const PastTense := "과거시제"

  /** Some key occurs as a substring of `s`. */
  predicate AnyIncluded(s: string, keys: seq<string>) {
    exists i :: 0 <= i < |keys| && Includes(s, keys[i])
  }

  /** Some key occurs as a whole word of `s`. */
  predicate AnyWord(s: string, keys: seq<string>) {
    exists i :: 0 <= i < |keys| && |keys[i]| > 0 && ContainsWordFrom(s, keys[i], 0)
  }

  predicate AboutTechnology(lowerKorean: string, lowerEnglish: string) {
    || AnyIncluded(lowerKorean, ["컴퓨터", "프로그램", "앱", "소프트웨어", "웹사이트", "서버"])
    || AnyIncluded(lowerEnglish, ["computer", "program", "app", "software", "website", "server", "code", "database", "algorithm"])
  }

  predicate AboutBusiness(lowerKorean: string, lowerEnglish: string) {
    AnyIncluded(lowerKorean, ["회사", "업무", "회의"]) || AnyIncluded(lowerEnglish, ["company", "business", "meeting"])
  }

  predicate AboutFood(lowerKorean: string, lowerEnglish: string) {
    AnyIncluded(lowerKorean, ["먹었다", "음식", "레스토랑"]) || AnyIncluded(lowerEnglish, ["ate", "food", "restaurant"])
  }

  predicate AboutShopping(lowerKorean: string, lowerEnglish: string) {
    AnyIncluded(lowerKorean, ["사온", "쇼핑", "구매"]) || AnyIncluded(lowerEnglish, ["bought", "shopping", "purchase"])
  }

  predicate AboutTravel(lowerKorean: string, lowerEnglish: string) {
    AnyIncluded(lowerKorean, ["런던", "여행", "공항"]) || AnyIncluded(lowerEnglish, ["london", "travel", "airport"])
  }

  /**
   * The past-tense test. The source's `/\b(was|were|had|did)\b/` is
   * case-sensitive but runs on the lower-cased sentence, where the
   * case-insensitive whole-word test gives the same answer.
   */
  predicate InPastTense(lowerKorean: string, lowerEnglish: string) {
    || AnyIncluded(lowerKorean, ["었다", "았다"])
    || Includes(lowerEnglish, "ed")
    || AnyWord(lowerEnglish, ["was", "were", "had", "did"])
  }

  function Topic(lowerKorean: string, lowerEnglish: string): string
  {
    if AboutTechnology(lowerKorean, lowerEnglish) then Technology
    else if AboutBusiness(lowerKorean, lowerEnglish) then Business
    else if AboutFood(lowerKorean, lowerEnglish) then Food
    else if AboutShopping(lowerKorean, lowerEnglish) then Shopping
    else if AboutTravel(lowerKorean, lowerEnglish) then Travel
    else DailyLife
  }

  /**
   * The tags of a sentence: the first topic in the priority order
   * technology, business, food, shopping, travel whose keywords occur (daily
   * life when none do), followed by the past-tense tag when a past-tense
   * marker occurs.
   */
  function CategorizeSentenceLocal(korean: string, userEnglish: string): (r: seq<string>)
    ensures 1 <= |r| <= 2
    ensures var k, e := Lower(korean), Lower(userEnglish);
      && (r[0] == Technology <==> AboutTechnology(k, e))
      && (r[0] == Business <==> !AboutTechnology(k, e) && AboutBusiness(k, e))
      && (r[0] == Food <==> !AboutTechnology(k, e) && !AboutBusiness(k, e) && AboutFood(k, e))
      && (r[0] == Shopping <==>
            !AboutTechnology(k, e) && !AboutBusiness(k, e) && !AboutFood(k, e) && AboutShopping(k, e))
      && (r[0] == Travel <==>
            !AboutTechnology(k, e) && !AboutBusiness(k, e) && !AboutFood(k, e) && !AboutShopping(k, e)
            && AboutTravel(k, e))
      && (r[0] == DailyLife <==>
            !AboutTechnology(k, e) && !AboutBusiness(k, e) && !AboutFood(k, e) && !AboutShopping(k, e)
            && !AboutTravel(k, e))
      && (|r| == 2 <==> InPastTense(k, e))
    ensures |r| == 2 ==> r[1] == PastTense
  {
    var k, e := Lower(korean), Lower(userEnglish);
    [Topic(k, e)] + (if InPastTense(k, e) then [PastTense] else [])
  }

  // ---- the local composition and the model reply ----

  /** The result built from the four local rules alone. */
  function LocalCorrection(korean: string, userEnglish: string): (r: CorrectionResult)
    ensures r.correctedSentence == ImproveEnglishLocal(korean, userEnglish)
    ensures r.explanation == NoteTexts(AnalyzeCorrectionsLocal(korean, userEnglish, r.correctedSentence))
    ensures r.vocabulary == ExtractVocabularyLocal(korean, userEnglish)
    ensures r.tags == CategorizeSentenceLocal(korean, userEnglish)
    ensures |r.explanation| >= 1 && |r.vocabulary| <= 3 && 1 <= |r.tags| <= 2
  {
    var corrected := ImproveEnglishLocal(korean, userEnglish);
    CorrectionResult(
      corrected,
      NoteTexts(AnalyzeCorrectionsLocal(korean, userEnglish, corrected)),
      ExtractVocabularyLocal(korean, userEnglish),
      CategorizeSentenceLocal(korean, userEnglish))
  }

  /**
   * A field of the parsed reply as `x || default` sees it: `None` is a missing
   * or `null` field; the empty string is falsy too.
   */
  function OrDefault(x: Option<string>, default: string): (r: string)
    ensures x.Some? && x.value != "" ==> r == x.value
    ensures !(x.Some? && x.value != "") ==> r == default
  {
    if x.Some? && x.value != "" then x.value else default
  }

  /** A field that `Array.isArray` either accepts or rejects. */
  datatype JsList<T> = NotArray | Array(items: seq<T>)

  /** A vocabulary element of the reply: `null`/`undefined`, or an object with optional fields. */
  datatype RawVocab = NullItem | RawVocab(word: Option<string>, meaning: Option<string>, usage: Option<string>)

  /** The object `JSON.parse` produced from the model's reply, as a record of optional fields. */
  datatype ParsedReply = ParsedReply(
    correctedEnglish: Option<string>,
    improvements: JsList<string>,
    vocabulary: JsList<RawVocab>,
    category: Option<string>)

  predicate HasNullItem(items: seq<RawVocab>) {
    exists i :: 0 <= i < |items| && items[i].NullItem?
  }

  function VocabFrom(v: RawVocab): VocabEntry
    requires v.RawVocab?
  {
    VocabEntry(OrDefault(v.word, ""), OrDefault(v.meaning, ""), OrDefault(v.usage, ""))
  }

  function MapVocab(items: seq<RawVocab>): (r: seq<VocabEntry>)
    requires !HasNullItem(items)
    ensures |r| == |items|
    ensures forall i :: 0 <= i < |items| ==> r[i] == VocabFrom(items[i])
  {
    if items == [] then [] else [VocabFrom(items[0])] + MapVocab(items[1..])
  }

  /**
   * The correction result built from a parsed reply. Reading a field of a
   * `null` vocabulary element throws, which the service treats like a parse
   * failure: `None`.
   */
  function NormalizeReply(p: ParsedReply, englishText: string): (r: Option<CorrectionResult>)
    ensures r.None? <==> p.vocabulary.Array? && HasNullItem(p.vocabulary.items)
    ensures r.Some? ==> |r.value.tags| == 1 && r.value.tags[0] == OrDefault(p.category, "기타")
    ensures r.Some? && (p.correctedEnglish.None? || p.correctedEnglish.value == "") ==>
      r.value.correctedSentence == englishText
    ensures r.Some? && p.correctedEnglish.Some? && p.correctedEnglish.value != "" ==>
      r.value.correctedSentence == p.correctedEnglish.value
    ensures r.Some? ==> r.value.explanation == if p.improvements.Array? then p.improvements.items else []
    ensures r.Some? && p.vocabulary.NotArray? ==> r.value.vocabulary == []
    ensures r.Some? && p.vocabulary.Array? ==>
      |r.value.vocabulary| == |p.vocabulary.items|
      && forall i :: 0 <= i < |p.vocabulary.items| ==>
        r.value.vocabulary[i].expression == OrDefault(p.vocabulary.items[i].word, "")
        && r.value.vocabulary[i].meaning == OrDefault(p.vocabulary.items[i].meaning, "")
        && r.value.vocabulary[i].example == OrDefault(p.vocabulary.items[i].usage, "")
  {
    if p.vocabulary.Array? && HasNullItem(p.vocabulary.items) then None
    else
      Some(CorrectionResult(
        OrDefault(p.correctedEnglish, englishText),
        if p.improvements.Array? then p.improvements.items else [],
        if p.vocabulary.Array? then MapVocab(p.vocabulary.items) else [],
        [OrDefault(p.category, "기타")]))
  }

  /**
   * What the model call produced: an exception (no reply, a network error),
   * a reply without a parsable JSON object, or the parsed object.
   */
  datatype ModelOutcome = CallFailed | NoJson | Replied(parsed: ParsedReply)

  /** `correctEnglishWithOpenAI`: the normalised reply, or the local result on every failure. */
  function CorrectWithModel(korean: string, englishText: string, outcome: ModelOutcome): (r: CorrectionResult)
    ensures outcome.Replied? && NormalizeReply(outcome.parsed, englishText).Some? ==>
      r == NormalizeReply(outcome.parsed, englishText).value
    ensures !(outcome.Replied? && NormalizeReply(outcome.parsed, englishText).Some?) ==>
      r == LocalCorrection(korean, englishText)
  {
    if outcome.Replied? then
      match NormalizeReply(outcome.parsed, englishText)
      case Some(result) => result
      case None => LocalCorrection(korean, englishText)
    else LocalCorrection(korean, englishText)
  }

  const ServiceErrorNote := "AI 서비스에 일시적인 문제가 발생했습니다."
    + " 잠시 후 다시 시도해주세요."

  /** The API key is set and not blank. */
  predicate KeyUsable(apiKey: Option<string>) {
    apiKey.Some? && Trim(apiKey.value) != ""
  }

  /** A model result is kept unless its first explanation is the service-error notice. */
  predicate Accepted(result: CorrectionResult) {
    |result.explanation| == 0 || result.explanation[0] != ServiceErrorNote
  }

  /**
   * `correctEnglish`: the model's result when a key is configured and the
   * result is not the service-error notice, the local result otherwise.
   */
  function CorrectEnglish(korean: string, userEnglish: string, apiKey: Option<string>, outcome: ModelOutcome): (r: CorrectionResult)
    ensures !KeyUsable(apiKey) ==> r == LocalCorrection(korean, userEnglish)
    ensures KeyUsable(apiKey) && Accepted(CorrectWithModel(korean, userEnglish, outcome)) ==>
      r == CorrectWithModel(korean, userEnglish, outcome)
    ensures KeyUsable(apiKey) && !Accepted(CorrectWithModel(korean, userEnglish, outcome)) ==>
      r == LocalCorrection(korean, userEnglish)
    ensures Accepted(r)
  {
    var local := LocalCorrection(korean, userEnglish);
    LocalAccepted(korean, userEnglish);
    if KeyUsable(apiKey) then
      var result := CorrectWithModel(korean, userEnglish, outcome);
      if Accepted(result) then result else local
    else local
  }

  /** No local explanation reads like the service-error notice. */
  lemma NoteNotServiceError(n: Note)
    ensures NoteText(n) != ServiceErrorNote
  {
    assert ServiceErrorNote[1] == 'I';
    NoteInitials(n);
  }

  /** The local result never opens with the service-error notice. */
  lemma LocalAccepted(korean: string, userEnglish: string)
    ensures Accepted(LocalCorrection(korean, userEnglish))
  {
    var notes := AnalyzeCorrectionsLocal(korean, userEnglish, ImproveEnglishLocal(korean, userEnglish));
    NoteNotServiceError(notes[0]);
  }
}

/** Properties of the local corrector that relate several calls or concrete inputs. */
module CorrectorProperties {
  import opened JsStrings
  import opened Corrector

  /** No case-insensitive whole-word occurrence of `w` anywhere in `s`. */
  ghost predicate NoWholeWord(s: string, w: string) {
    forall q: nat :: !WordAt(s, q, w)
  }

  /** The Korean argument does not influence the corrected sentence. */
  lemma ImproveIgnoresKorean(korean1: string, korean2: string, userEnglish: string)
    ensures ImproveEnglishLocal(korean1, userEnglish) == ImproveEnglishLocal(korean2, userEnglish)
  {
  }

  /** A sentence none of whose rules apply is returned unchanged. */
  lemma ImproveLeavesCleanText(korean: string, userEnglish: string)
    requires NoWholeWord(userEnglish, "london") && NoWholeWord(userEnglish, "chuchu")
    requires NoWholeWord(userEnglish, "newyork") && NoWholeWord(userEnglish, "seattle")
    requires !Includes(userEnglish, "london snack") && !Includes(userEnglish, "snack that chuchu bought")
    ensures ImproveEnglishLocal(korean, userEnglish) == userEnglish
  {
    var s := userEnglish;
    ReplaceWordsNoMatch(s, "london", "London", 0);
    ReplaceWordsNoMatch(s, "chuchu", "Chuchu", 0);
    ReplaceWordsNoMatch(s, "newyork", "New York", 0);
    ReplaceWordsNoMatch(s, "seattle", "Seattle", 0);
    assert CapitaliseNames(s) == s;
  }

  /** The capitalisations leave a sentence without any of the four words unchanged. */
  lemma CapitaliseNamesClean(s: string)
    requires NoWholeWord(s, "london") && NoWholeWord(s, "chuchu")
    requires NoWholeWord(s, "newyork") && NoWholeWord(s, "seattle")
    ensures CapitaliseNames(s) == s
  {
    ReplaceWordsNoMatch(s, "london", "London", 0);
    ReplaceWordsNoMatch(s, "chuchu", "Chuchu", 0);
    ReplaceWordsNoMatch(s, "newyork", "New York", 0);
    ReplaceWordsNoMatch(s, "seattle", "Seattle", 0);
  }

  /** A whole word starts with the lower-cased first letter of the word and follows a non-word character. */
  lemma WordAtStart(s: string, q: nat, w: string)
    requires |w| > 0
    ensures WordAt(s, q, w) ==> q < |s| && LowerChar(s[q]) == w[0] && (q == 0 || !IsWordChar(s[q - 1]))
  {
    if WordAt(s, q, w) {
      assert LowerChar(s[q + 0]) == w[0];
    }
  }

  const Glued := "xlondon snack"

  /**
   * `w` has no whole-word occurrence in `s` when every place its first letter
   * is found is too close to the end, follows a word character, or is not
   * followed by the word's second letter.
   */
  lemma NoWholeWordByStarts(s: string, w: string)
    requires |w| > 1 && 'a' <= w[0] <= 'z'
    requires forall q {:trigger s[q]} :: 0 <= q < |s| && (s[q] == w[0] || s[q] as int == w[0] as int - 32) ==>
      q + |w| > |s| || (q > 0 && IsWordChar(s[q - 1])) || LowerChar(s[q + 1]) != w[1]
    ensures NoWholeWord(s, w)
  {
    forall q: nat ensures !WordAt(s, q, w) {
      WordAtStart(s, q, w);
    }
  }

  lemma GluedFindsSnack()
    ensures IndexOfFrom(Glued, "london snack", 0) == 1
  {
    assert Glued[0..12][0] == 'x';
    assert Glued[1..13] == "london snack";
  }

  lemma GluedNeedsArticle()
    ensures NeedsArticle(Glued)
  {
    GluedFindsSnack();
  }

  lemma GluedGetsArticle()
    ensures AddArticle(Glued) == "x" + "a London snack"
  {
    GluedNeedsArticle();
    GluedFindsSnack();
    assert Glued[..1] == "x";
    assert Glued[13..] == "";
  }

  /**
   * The article rule is not dead: a "london" glued to a preceding letter is
   * not a whole word, so the capitalisations leave it and the rule fires.
   */
  lemma ArticleRuleFires()
    ensures ImproveEnglishLocal("", Glued) == "x" + "a London snack"
  {
    PieceHasNoName(Glued, "london");
    PieceHasNoName(Glued, "chuchu");
    PieceHasNoName(Glued, "newyork");
    PieceHasNoName(Glued, "seattle");
    CapitaliseNamesClean(Glued);
    GluedGetsArticle();
  }

  // ---- a second run can change a corrected sentence again ----

  /** Splitting at a character foreign to `w`: a whole word of `a + b` is one of `a` or of `b`. */
  lemma WordAtAppend(a: string, b: string, q: nat, w: string)
    requires |w| > 0 && |b| > 0 && forall i :: 0 <= i < |w| ==> LowerChar(b[0]) != w[i]
    ensures WordAt(a + b, q, w) ==>
      (q + |w| <= |a| && WordAt(a, q, w)) || (q > |a| && WordAt(b, q - |a|, w))
  {
    var s := a + b;
    if q <= |a| < q + |w| {
      assert s[q + (|a| - q)] == b[0];
      assert LowerChar(s[q + (|a| - q)]) != w[|a| - q];
    } else if q + |w| <= |a| {
      assert q > 0 ==> s[q - 1] == a[q - 1];
      assert q + |w| < |a| ==> s[q + |w|] == a[q + |w|];
    } else if q + |w| <= |s| {
      assert s[q - 1] == b[q - |a| - 1];
      assert q + |w| < |s| ==> s[q + |w|] == b[q - |a| + |w|];
    }
  }

  lemma NoWholeWordAppend(a: string, b: string, w: string)
    requires |w| > 0 && |b| > 0 && forall i :: 0 <= i < |w| ==> LowerChar(b[0]) != w[i]
    requires NoWholeWord(a, w) && NoWholeWord(b, w)
    ensures NoWholeWord(a + b, w)
  {
    forall q: nat ensures !WordAt(a + b, q, w) {
      WordAtAppend(a, b, q, w);
    }
  }

  /** Splitting at a character foreign to `sub`: an occurrence in `a + b` is one in `a` or in `b`. */
  lemma SubstringAtAppend(a: string, b: string, q: nat, sub: string)
    requires |b| > 0 && b[0] !in sub
    ensures SubstringAt(a + b, q, sub) ==>
      (q + |sub| <= |a| && SubstringAt(a, q, sub)) || (q > |a| && SubstringAt(b, q - |a|, sub))
  {
    var s := a + b;
    if q <= |a| < q + |sub| {
      if q + |sub| <= |s| {
        assert s[q..q + |sub|][|a| - q] == b[0];
      }
    } else if q + |sub| <= |a| {
      assert s[q..q + |sub|] == a[q..q + |sub|];
    } else if q + |sub| <= |s| {
      assert s[q..q + |sub|] == b[q - |a|..q - |a| + |sub|];
    }
  }

  lemma NotIncludedAppend(a: string, b: string, sub: string)
    requires |b| > 0 && b[0] !in sub
    requires !Includes(a, sub) && !Includes(b, sub)
    ensures !Includes(a + b, sub)
  {
    forall q: nat ensures !SubstringAt(a + b, q, sub) {
      SubstringAtAppend(a, b, q, sub);
    }
  }

  /** `sub` does not occur when no place shows its first three characters. */
  lemma NotIncluded(s: string, sub: string)
    requires |sub| >= 3
    requires forall q :: 0 <= q && q + 3 <= |s| && s[q] == sub[0] ==> s[q + 1] != sub[1] || s[q + 2] != sub[2]
    ensures !Includes(s, sub)
  {
    forall q: nat ensures !SubstringAt(s, q, sub) {
      if q + |sub| <= |s| {
        assert s[q..q + |sub|][0] == s[q] && s[q..q + |sub|][1] == s[q + 1] && s[q..q + |sub|][2] == s[q + 2];
      }
    }
  }

  /** `sub` is found at `k` when it occurs there and its first character occurs nowhere before. */
  lemma FoundAt(s: string, sub: string, k: nat)
    requires |sub| > 0 && SubstringAt(s, k, sub)
    requires forall q :: 0 <= q < k ==> s[q] != sub[0]
    ensures IndexOfFrom(s, sub, 0) == k
  {
    var i := IndexOfFrom(s, sub, 0);
    assert i != -1;
    assert s[i..i + |sub|][0] == s[i];
  }

  /** A second "london snack", glued to an underscore. */
  const Tail := "_london snack"

  /** Two glued phrases: the article rule fixes only the first on each run. */
  const Twice := Glued + Tail

  /** The first run's result. */
  const Once := ("x" + "a London snack") + Tail

  /** The four words the capitalisations look for. */
  predicate IsName(w: string) {
    w == "london" || w == "chuchu" || w == "newyork" || w == "seattle"
  }

  /**
   * The pieces of the examples hold none of the four names as a whole word,
   * apart from the already capitalised "London" of the corrected piece.
   */
  lemma PieceHasNoName(s: string, w: string)
    requires s == Glued || s == Tail || (s == "x" + "a London snack" && w != "london")
    requires IsName(w)
    ensures NoWholeWord(s, w)
  {
    if s == Glued {
      assert Glued == ['x'] + "london snack";
      GluedHasNoName('x', w);
    } else if s == Tail {
      assert Tail == ['_'] + "london snack";
      GluedHasNoName('_', w);
    } else {
      NoWholeWordByStarts(s, w);
    }
  }

  /** After a word character, "london snack" holds none of the names as a whole word. */
  lemma GluedHasNoName(c: char, w: string)
    requires IsWordChar(c) && IsName(w)
    ensures NoWholeWord([c] + "london snack", w)
  {
    NoWholeWordByStarts([c] + "london snack", w);
  }

  lemma TailHasNoNames()
    ensures NoWholeWord(Tail, "london") && NoWholeWord(Tail, "chuchu")
    ensures NoWholeWord(Tail, "newyork") && NoWholeWord(Tail, "seattle")
  {
    PieceHasNoName(Tail, "london");
    PieceHasNoName(Tail, "chuchu");
    PieceHasNoName(Tail, "newyork");
    PieceHasNoName(Tail, "seattle");
  }


  lemma TwiceHasNoNames()
    ensures NoWholeWord(Twice, "london") && NoWholeWord(Twice, "chuchu")
    ensures NoWholeWord(Twice, "newyork") && NoWholeWord(Twice, "seattle")
  {
    PieceHasNoName(Glued, "london");
    PieceHasNoName(Glued, "chuchu");
    PieceHasNoName(Glued, "newyork");
    PieceHasNoName(Glued, "seattle");
    TailHasNoNames();
    NoWholeWordAppend(Glued, Tail, "london");
    NoWholeWordAppend(Glued, Tail, "chuchu");
    NoWholeWordAppend(Glued, Tail, "newyork");
    NoWholeWordAppend(Glued, Tail, "seattle");
  }

  lemma TwiceGetsOneArticle()
    ensures AddArticle(Twice) == Once
  {
    SliceAfter(Glued, Tail, 1, 13);
    assert Twice[1..13] == "london snack";
    FoundAt(Twice, "london snack", 1);
    NotIncludedAppend(Glued, Tail, "a london snack");
    NotIncludedAppend(Glued, Tail, "the london snack");
    SliceAfter(Glued, Tail, 0, 1);
    SliceAfter(Glued, Tail, 13, |Twice|);
    assert Twice[..1] == "x";
    assert Twice[13..] == Tail;
  }

  lemma FirstRun()
    ensures ImproveEnglishLocal("", Twice) == Once
  {
    TwiceHasNoNames();
    CapitaliseNamesClean(Twice);
    TwiceGetsOneArticle();
    NotIncludedAppend("x" + "a London snack", Tail, "snack that chuchu bought");
  }

  lemma FixedHasOnlyLondon(q: nat)
    ensures WordAt("x" + "a London snack", q, "london") ==> q == 3
  {
    WordAtStart("x" + "a London snack", q, "london");
  }

  lemma OnceKeepsLondon()
    ensures ReplaceWords(Once, "london", "London") == Once
  {
    TailHasNoNames();
    forall q: nat | WordAt(Once, q, "london")
      ensures Once[q..q + 6] == "London"
    {
      WordAtAppend("x" + "a London snack", Tail, q, "london");
      FixedHasOnlyLondon(q);
      SliceAfter("x" + "a London snack", Tail, 3, 9);
    }
    ReplaceWordsFixed(Once, "london", "London", 0);
  }

  lemma OnceKeepsOtherNames()
    ensures NoWholeWord(Once, "chuchu") && NoWholeWord(Once, "newyork") && NoWholeWord(Once, "seattle")
  {
    TailHasNoNames();
    PieceHasNoName("x" + "a London snack", "chuchu");
    PieceHasNoName("x" + "a London snack", "newyork");
    PieceHasNoName("x" + "a London snack", "seattle");
    NoWholeWordAppend("x" + "a London snack", Tail, "chuchu");
    NoWholeWordAppend("x" + "a London snack", Tail, "newyork");
    NoWholeWordAppend("x" + "a London snack", Tail, "seattle");
  }

  lemma OnceIncludesSnack()
    ensures Includes(Once, "london snack")
  {
    SliceAfter("x" + "a London snack", Tail, 16, 28);
    assert Once[16..28] == "london snack";
    assert SubstringAt(Once, 16, "london snack");
  }

  lemma OnceLacksArticles()
    ensures !Includes(Once, "a london snack") && !Includes(Once, "the london snack")
  {
    var a := "x" + "a London snack";
    assert a[1..][..3] == "a L";
    NotIncluded(a, "a london snack");
    NotIncludedAppend(a, Tail, "a london snack");
    NotIncludedAppend(a, Tail, "the london snack");
  }

  lemma OnceStillNeedsArticle()
    ensures NeedsArticle(Once)
  {
    OnceIncludesSnack();
    OnceLacksArticles();
  }

  /**
   * The correction is not idempotent: run on its own output it adds a second
   * article, so the sentence grows again.
   */
  lemma ImproveNotIdempotent()
    ensures ImproveEnglishLocal("", Twice) == Once
    ensures |ImproveEnglishLocal("", Once)| == |Once| + 2
    ensures ImproveEnglishLocal("", ImproveEnglishLocal("", Twice)) != ImproveEnglishLocal("", Twice)
  {
    FirstRun();
    OnceKeepsLondon();
    OnceKeepsOtherNames();
    ReplaceWordsNoMatch(Once, "chuchu", "Chuchu", 0);
    ReplaceWordsNoMatch(Once, "newyork", "New York", 0);
    ReplaceWordsNoMatch(Once, "seattle", "Seattle", 0);
    assert CapitaliseNames(Once) == Once;
    OnceStillNeedsArticle();
  }
}
