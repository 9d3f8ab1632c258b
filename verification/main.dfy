/**
 * The program's two phases. Acquisition (only when the staging file does
 * not exist): read the word list, look each word up in order, append the
 * first three example pairs of each word to the staging file, stop at the
 * first failed lookup, and close the browser session on both paths. Sync:
 * parse the staging file back into cards and add each card as a note
 * through AnkiConnect, counting successes and errors without stopping.
 *
 * Each word is looked up through `ReversoWrapper.GetContext`; what the
 * browser launch yields and what each URL loads are given as a `World`,
 * and the specification functions of the loop speak of the answers through
 * an oracle `lookup(i, word)` that `Describes` that world. The AnkiConnect
 * replies are outside the model: the reply to the i-th
 * card is `reply(i)`.
 */
module App {
  import opened Options
  import opened JsArray
  import opened JsString
  import opened Reverso

  const DeckName: string := "My english deck"
  const LanguageFrom: string := "english"
  const LanguageTo: string := "spanish"
  /** How many examples of one word are staged. */
  const ExamplesPerWord: nat := 3
  const NoteModel: string := "Basic"
  const NoteTags: seq<string> := ["reverso", "auto-generated"]

  // ---------------------------------------------------------------------
  // The word list
  // ---------------------------------------------------------------------

  /** The lines of `input.txt`, trimmed, blank ones dropped. */
  function InputWords(input: string): (words: seq<string>)
    ensures |words| <= |Split(input, "\n")|
    ensures forall k :: 0 <= k < |words| ==> words[k] != "" && IsTrimmed(words[k])
  {
    Filter(Map(Split(input, "\n"), Trim), NonEmpty)
  }

  /** The words keep the line order, and each non-blank trimmed line is a word exactly as often as it occurs. */
  lemma InputWordsInLineOrder(input: string, w: string)
    ensures IsSubsequence(InputWords(input), Map(Split(input, "\n"), Trim))
    ensures multiset(InputWords(input))[w] == if w != "" then multiset(Map(Split(input, "\n"), Trim))[w] else 0
  {
    FilterIsSubsequence(Map(Split(input, "\n"), Trim), NonEmpty);
    FilterMultiset(Map(Split(input, "\n"), Trim), NonEmpty, w);
  }

  // ---------------------------------------------------------------------
  // Staging records
  // ---------------------------------------------------------------------

  /** `examples.slice(0, 3)`. */
  function FirstExamples(examples: seq<Example>): (first: seq<Example>)
    ensures |first| == if |examples| < ExamplesPerWord then |examples| else ExamplesPerWord
    ensures first == examples[..|first|]
  {
    if |examples| < ExamplesPerWord then examples else examples[..ExamplesPerWord]
  }

  /** The record of one example: source line, target line, blank line. */
  function Record(e: Example): string {
    e.source + "\n" + e.target + "\n\n"
  }

  function Serialize(examples: seq<Example>): string {
    if examples == [] then "" else Record(examples[0]) + Serialize(examples[1..])
  }

  lemma {:induction false} SerializeConcat(a: seq<Example>, b: seq<Example>)
    ensures Serialize(a + b) == Serialize(a) + Serialize(b)
    decreases |a|
  {
    if a == [] {
      assert a + b == b;
    } else {
      assert (a + b)[1..] == a[1..] + b;
      SerializeConcat(a[1..], b);
    }
  }

  /** Whether a lookup failed, as the loop checks it (`!response.ok`). */
  predicate Failed(r: ContextResult) {
    r.Failure?
  }

  /**
   * What the lookups of one run meet: how launching a browser ends, what
   * each URL loads, and whether a browser was already running before the
   * first lookup.
   */
  datatype World = World(launch: Launch, fetch: string -> PageLoad, running: bool)

  /**
   * What `getContext(word, "english", "spanish")` returns as the `i`-th
   * lookup of the loop. The loop reaches lookup `i` only when every earlier
   * one succeeded, so the browser runs from the first successful lookup on
   * and only the first lookup can meet a failed launch.
   */
  function Respond(w: World, i: nat, word: string): (r: ContextResult)
    ensures r.Failure? ==> r.message != ""
    ensures r.Success? ==> r.text == word && r.source == LanguageFrom && r.target == LanguageTo
  {
    if i == 0 && !w.running && w.launch.LaunchFailed? then Failure(ErrorMessage(w.launch.error))
    else PageOutcome(word, LanguageFrom, LanguageTo, w.fetch(ContextUrl(word, LanguageFrom, LanguageTo)))
  }

  /** The lookups of a run as one oracle: the `i`-th lookup, of `word`. */
  function Lookup(w: World): (nat, string) -> ContextResult {
    (i: nat, word: string) => Respond(w, i, word)
  }

  /** `lookup` answers every lookup as the world does. */
  ghost predicate Describes(lookup: (nat, string) -> ContextResult, w: World) {
    forall i: nat, word: string {:trigger Respond(w, i, word)} :: lookup(i, word) == Respond(w, i, word)
  }

  /** `Lookup` is the oracle of its world. */
  lemma LookupDescribes(w: World)
    ensures Describes(Lookup(w), w)
  {
  }

  /** How many of the first `n` lookups succeed before the first failure. */
  function SucceededPrefix(lookup: (nat, string) -> ContextResult, words: seq<string>, n: nat): (k: nat)
    requires n <= |words|
    ensures k <= n
    ensures forall i :: 0 <= i < k ==> !Failed(lookup(i, words[i]))
    ensures k < n ==> Failed(lookup(k, words[k]))
  {
    if n == 0 then 0
    else
      var k := SucceededPrefix(lookup, words, n - 1);
      if k == n - 1 && !Failed(lookup(n - 1, words[n - 1])) then n else k
  }

  /** The success prefix is pinned down by where the first failure is. */
  lemma SucceededPrefixIs(lookup: (nat, string) -> ContextResult, words: seq<string>, n: nat, i: nat)
    requires i <= n <= |words|
    requires forall j :: 0 <= j < i ==> !Failed(lookup(j, words[j]))
    requires i < n ==> Failed(lookup(i, words[i]))
    ensures SucceededPrefix(lookup, words, n) == i
  {
  }

  /** The examples staged for the first `n` words: the first three of each successful lookup, word by word. */
  function StagedExamples(lookup: (nat, string) -> ContextResult, words: seq<string>, n: nat): seq<Example>
    requires n <= |words|
  {
    if n == 0 then []
    else
      var r := lookup(n - 1, words[n - 1]);
      StagedExamples(lookup, words, n - 1) + (if r.Success? then FirstExamples(r.examples) else [])
  }

  /** No word contributes more than three examples. */
  lemma {:induction false} StagedAtMostThreePerWord(lookup: (nat, string) -> ContextResult, words: seq<string>, n: nat)
    requires n <= |words|
    ensures |StagedExamples(lookup, words, n)| <= ExamplesPerWord * n
  {
    if n > 0 {
      StagedAtMostThreePerWord(lookup, words, n - 1);
    }
  }

  /** A successful lookup adds its first three examples after the ones staged before it. */
  lemma StagedStep(lookup: (nat, string) -> ContextResult, words: seq<string>, i: nat)
    requires i < |words| && lookup(i, words[i]).Success?
    ensures var batch := FirstExamples(lookup(i, words[i]).examples);
      && StagedExamples(lookup, words, i + 1) == StagedExamples(lookup, words, i) + batch
      && Serialize(StagedExamples(lookup, words, i + 1)) == Serialize(StagedExamples(lookup, words, i)) + Serialize(batch)
      && (StagedExamples(lookup, words, i + 1) != [] <==> StagedExamples(lookup, words, i) != [] || batch != [])
  {
    SerializeConcat(StagedExamples(lookup, words, i), FirstExamples(lookup(i, words[i]).examples));
  }

  /** The staging file: whether it exists and its text. Appending creates it. */
  class StagingFile {
    var present: bool
    var text: string

    ghost predicate Valid()
      reads this
    {
      !present ==> text == ""
    }

    constructor (present: bool, text: string)
      requires present || text == ""
      ensures Valid() && this.present == present && this.text == text
    {
      this.present, this.text := present, text;
    }

    /** `appendFileSync`: the text only grows. */
    method Append(chunk: string)
      requires Valid()
      modifies this
      ensures Valid() && present && text == old(text) + chunk
    {
      present := true;
      text := text + chunk;
    }
  }

  // ---------------------------------------------------------------------
  // Acquisition
  // ---------------------------------------------------------------------

  /** The inner loop: one record per example, appended in order. */
  method AppendRecords(staging: StagingFile, batch: seq<Example>)
    requires staging.Valid()
    modifies staging
    ensures staging.Valid()
    ensures staging.text == old(staging.text) + Serialize(batch)
    ensures staging.present == (old(staging.present) || batch != [])
  {
    for j := 0 to |batch|
      invariant staging.Valid()
      invariant staging.text == old(staging.text) + Serialize(batch[..j])
      invariant staging.present == (old(staging.present) || j > 0)
    {
      staging.Append(Record(batch[j]));
      SerializeConcat(batch[..j], [batch[j]]);
      assert batch[..j + 1] == batch[..j] + [batch[j]];
    }
    assert batch[..|batch|] == batch;
  }

  /** The staging file holds what it held before plus the records of the first `n` words. */
  ghost predicate HasStaged(staging: StagingFile, text0: string, present0: bool,
                           lookup: (nat, string) -> ContextResult, words: seq<string>, n: nat)
    requires n <= |words|
    reads staging
  {
    && staging.text == text0 + Serialize(StagedExamples(lookup, words, n))
    && staging.present == (present0 || StagedExamples(lookup, words, n) != [])
  }

  /** One iteration of the outer loop after a successful lookup: its first three examples are appended. */
  method StageWord(staging: StagingFile, response: ContextResult, ghost lookup: (nat, string) -> ContextResult,
                   words: seq<string>, i: nat, ghost text0: string, ghost present0: bool)
    requires i < |words| && response == lookup(i, words[i]) && response.Success?
    requires staging.Valid() && HasStaged(staging, text0, present0, lookup, words, i)
    modifies staging
    ensures staging.Valid() && HasStaged(staging, text0, present0, lookup, words, i + 1)
  {
    var batch := FirstExamples(response.examples);
    AppendRecords(staging, batch);
    StagedStep(lookup, words, i);
  }

  /**
   * The session after `n` successful lookups, starting from a session with
   * handle `browser0` and counters `launches0` and `openPages0`: the first
   * lookup started a browser if none ran, and every page was closed again.
   */
  ghost predicate SessionAfter(session: ReversoWrapper, w: World, browser0: Option<Browser>, launches0: nat, openPages0: nat, n: nat)
    reads session
  {
    && (n > 0 && browser0.None? ==> w.launch.Launched?)
    && session.browser == (if n > 0 && browser0.None? then Some(w.launch.browser) else browser0)
    && session.launches == launches0 + (if n > 0 && browser0.None? then 1 else 0)
    && session.openPages == openPages0
  }

  /**
   * One lookup of the loop, `getContext(word, LANGUAGE_FROM, LANGUAGE_TO)`.
   * On success the session is as after one more successful lookup; on
   * failure the browser runs only if the launch succeeded, and then the
   * page of the failed navigation is still open.
   */
  method LookUp(session: ReversoWrapper, w: World, ghost lookup: (nat, string) -> ContextResult,
                words: seq<string>, i: nat,
                ghost browser0: Option<Browser>, ghost launches0: nat, ghost openPages0: nat)
    returns (response: ContextResult)
    requires i < |words| && w.running == browser0.Some? && Describes(lookup, w)
    requires SessionAfter(session, w, browser0, launches0, openPages0, i)
    modifies session`browser, session`launches, session`openPages
    ensures response == lookup(i, words[i])
    ensures response.Success? ==> SessionAfter(session, w, browser0, launches0, openPages0, i + 1)
    ensures response.Failure? ==>
      && session.browser == (if browser0.Some? || w.launch.LaunchFailed? then browser0 else Some(w.launch.browser))
      && session.launches == launches0 + (if browser0.None? then 1 else 0)
      && session.openPages == openPages0 + (if session.browser.Some? then 1 else 0)
  {
    var settleMs;
    response, settleMs := session.GetContext(words[i], w.launch, w.fetch, LanguageFrom, LanguageTo);
    assert response == Respond(w, i, words[i]);
  }

  /**
   * One iteration of the outer loop: the lookup of word `i`, then, if it
   * succeeded, its first three examples are appended to the staging file.
   */
  method LookUpAndStage(session: ReversoWrapper, staging: StagingFile, w: World, ghost lookup: (nat, string) -> ContextResult,
                        words: seq<string>, i: nat, ghost text0: string, ghost present0: bool,
                        ghost browser0: Option<Browser>, ghost launches0: nat, ghost openPages0: nat)
    returns (response: ContextResult)
    requires i < |words| && w.running == browser0.Some? && Describes(lookup, w)
    requires staging.Valid() && HasStaged(staging, text0, present0, lookup, words, i)
    requires SessionAfter(session, w, browser0, launches0, openPages0, i)
    modifies session`browser, session`launches, session`openPages, staging
    ensures response == lookup(i, words[i])
    ensures staging.Valid()
    ensures response.Success? ==>
      HasStaged(staging, text0, present0, lookup, words, i + 1) && SessionAfter(session, w, browser0, launches0, openPages0, i + 1)
    ensures response.Failure? ==>
      && HasStaged(staging, text0, present0, lookup, words, i)
      && session.browser == (if browser0.Some? || w.launch.LaunchFailed? then browser0 else Some(w.launch.browser))
      && session.launches == launches0 + (if browser0.None? then 1 else 0)
      && session.openPages == openPages0 + (if session.browser.Some? then 1 else 0)
  {
    response := LookUp(session, w, lookup, words, i, browser0, launches0, openPages0);
    if response.Success? {
      StageWord(staging, response, lookup, words, i, text0, present0);
    }
  }

  /** The prefix one element longer is the prefix with that element appended. */
  lemma PrefixStep<T>(s: seq<T>, i: nat)
    requires i < |s|
    ensures s[..i + 1] == s[..i] + [s[i]]
  {
  }

  /**
   * The acquisition loop, up to closing the session: `queried` lists the
   * words passed to `getContext`, in order; `failure` is the message of the
   * lookup that stopped the loop.
   */
  method StageWords(words: seq<string>, w: World, ghost lookup: (nat, string) -> ContextResult,
                  session: ReversoWrapper, staging: StagingFile)
    returns (queried: seq<string>, failure: Option<string>)
    requires staging.Valid()
    requires w.running == session.browser.Some? && Describes(lookup, w)
    modifies session`browser, session`launches, session`openPages, staging
    ensures staging.Valid()
    ensures var k := SucceededPrefix(lookup, words, |words|);
      && queried == words[..if k < |words| then k + 1 else k]
      && (failure.None? <==> k == |words|)
      && (failure.Some? ==> failure.value == lookup(k, words[k]).message)
      && staging.text == old(staging.text) + Serialize(StagedExamples(lookup, words, k))
      && staging.present == (old(staging.present) || StagedExamples(lookup, words, k) != [])
    ensures session.browser ==
      if old(session.browser).Some? || words == [] || w.launch.LaunchFailed? then old(session.browser)
      else Some(w.launch.browser)
    ensures session.launches == old(session.launches) + (if old(session.browser).None? && words != [] then 1 else 0)
    ensures session.openPages == old(session.openPages) + (if failure.Some? && session.browser.Some? then 1 else 0)
  {
    queried, failure := [], None;
    ghost var text0, present0 := staging.text, staging.present;
    ghost var browser0, launches0, openPages0 := session.browser, session.launches, session.openPages;
    var i := 0;
    while i < |words|
      invariant 0 <= i <= |words|
      invariant queried == words[..i]
      invariant failure.None?
      invariant SucceededPrefix(lookup, words, i) == i
      invariant staging.Valid() && HasStaged(staging, text0, present0, lookup, words, i)
      invariant SessionAfter(session, w, browser0, launches0, openPages0, i)
    {
      PrefixStep(words, i);
      queried := queried + [words[i]];
      var response := LookUpAndStage(session, staging, w, lookup, words, i, text0, present0, browser0, launches0, openPages0);
      if Failed(response) {
        failure := Some(response.message);
        break;
      }
      i := i + 1;
    }
    SucceededPrefixIs(lookup, words, |words|, i);
    assert queried == words[..if i < |words| then i + 1 else i];
  }

  /**
   * The acquisition phase: the loop, then `close` on both the normal and
   * the abort path. Afterwards no browser runs and no page is left open,
   * unless pages were already open without a browser to close.
   */
  method Acquire(words: seq<string>, w: World, ghost lookup: (nat, string) -> ContextResult,
                  session: ReversoWrapper, staging: StagingFile)
    returns (queried: seq<string>, failure: Option<string>)
    requires staging.Valid()
    requires w.running == session.browser.Some? && Describes(lookup, w)
    modifies session`browser, session`launches, session`openPages, session`closeCalls, staging
    ensures staging.Valid()
    ensures var k := SucceededPrefix(lookup, words, |words|);
      && queried == words[..if k < |words| then k + 1 else k]
      && (failure.None? <==> k == |words|)
      && (failure.Some? ==> failure.value == lookup(k, words[k]).message)
      && staging.text == old(staging.text) + Serialize(StagedExamples(lookup, words, k))
      && staging.present == (old(staging.present) || StagedExamples(lookup, words, k) != [])
    ensures session.browser == None && session.closeCalls == old(session.closeCalls) + 1
    ensures session.launches == old(session.launches) + (if old(session.browser).None? && words != [] then 1 else 0)
    ensures session.openPages ==
      if old(session.browser).Some? || (words != [] && w.launch.Launched?) then 0 else old(session.openPages)
  {
    queried, failure := StageWords(words, w, lookup, session, staging);
    session.Close();
  }

  // ---------------------------------------------------------------------
  // The staging parser
  // ---------------------------------------------------------------------

  datatype Card = Card(face: string, back: string)

  /** `const [face, back] = pair.split("\n")`, each trimmed, a missing line giving "". */
  function BlockCard(block: string): Card {
    var lines := Split(block, "\n");
    Card(Trim(lines[0]), if |lines| > 1 then Trim(lines[1]) else "")
  }

  /** `card.face && card.back`. */
  predicate IsComplete(card: Card) {
    card.face != "" && card.back != ""
  }

  /** The card pipeline applied to the parts of the staging text. */
  function CardsOf(parts: seq<string>): seq<Card> {
    Filter(Map(Filter(Map(parts, Trim), NonEmpty), BlockCard), IsComplete)
  }

  /** The staging text as cards: split on blank lines, trim, drop empty blocks and incomplete cards. */
  function ParseStaging(text: string): (cards: seq<Card>)
    ensures forall k :: 0 <= k < |cards| ==> IsComplete(cards[k])
    ensures forall k :: 0 <= k < |cards| ==> IsTrimmed(cards[k].face) && IsTrimmed(cards[k].back)
  {
    CardsOf(Split(text, "\n\n"))
  }

  lemma CardsOfConcat(a: seq<string>, b: seq<string>)
    ensures CardsOf(a + b) == CardsOf(a) + CardsOf(b)
  {
    MapConcat(a, b, Trim);
    FilterConcat(Map(a, Trim), Map(b, Trim), NonEmpty);
    var ka, kb := Filter(Map(a, Trim), NonEmpty), Filter(Map(b, Trim), NonEmpty);
    MapConcat(ka, kb, BlockCard);
    FilterConcat(Map(ka, BlockCard), Map(kb, BlockCard), IsComplete);
  }

  /** An example text the staging format carries unchanged: trimmed, non-empty, on one line. */
  predicate IsLine(s: string) {
    s != [] && IsTrimmed(s) && '\n' !in s
  }

  predicate IsSerializable(e: Example) {
    IsLine(e.source) && IsLine(e.target)
  }

  function CardOf(e: Example): Card {
    Card(e.source, e.target)
  }

  /** Two one-line texts joined by a line feed split back into the two. */
  lemma SplitTwoLines(s: string, t: string)
    requires '\n' !in s && '\n' !in t
    ensures Split(s + "\n" + t, "\n") == [s, t]
  {
    forall i | 0 <= i < |s|
      ensures !IsPrefix("\n", (s + "\n" + t)[i..])
    {
      assert (s + "\n" + t)[i] == s[i];
    }
    SplitFirst(s, "\n", t);
    forall i | 0 <= i < |t|
      ensures !IsPrefix("\n", t[i..])
    {
      assert t[i] in t;
    }
    SplitFree(t, "\n");
  }

  /** The block of one record reads back as the card of that example. */
  lemma BlockCardOfRecord(e: Example)
    requires IsSerializable(e)
    ensures Trim(e.source + "\n" + e.target) == e.source + "\n" + e.target
    ensures BlockCard(e.source + "\n" + e.target) == CardOf(e)
  {
    var block := e.source + "\n" + e.target;
    assert block[0] == e.source[0] && block[|block| - 1] == e.target[|e.target| - 1];
    TrimOfTrimmed(block);
    SplitTwoLines(e.source, e.target);
    TrimOfTrimmed(e.source);
    TrimOfTrimmed(e.target);
  }

  /** A singleton list of strings maps and filters like its one element. */
  lemma SingletonPipeline(x: string)
    ensures Map([x], Trim) == [Trim(x)]
    ensures Filter([x], NonEmpty) == if x != "" then [x] else []
    ensures Map([x], BlockCard) == [BlockCard(x)]
  {
    assert [x][1..] == [];
  }

  lemma SingletonCards(c: Card)
    ensures Filter([c], IsComplete) == if IsComplete(c) then [c] else []
  {
    assert [c][1..] == [];
  }

  lemma CardsOfOne(block: string)
    requires Trim(block) == block && block != []
    ensures CardsOf([block]) == if IsComplete(BlockCard(block)) then [BlockCard(block)] else []
  {
    SingletonPipeline(block);
    SingletonCards(BlockCard(block));
  }

  /** The empty text after the last blank line yields no card. */
  lemma CardsOfEmpty()
    ensures CardsOf([""]) == []
  {
    assert Trim("") == "";
    SingletonPipeline("");
    assert Filter([""], NonEmpty) == [];
    assert Map([], BlockCard) == [];
  }

  /** The first blank line in a serialized record is the one that ends it. */
  lemma RecordEndsAtBlankLine(e: Example, rest: string)
    requires IsSerializable(e)
    ensures Split(Record(e) + rest, "\n\n") == [e.source + "\n" + e.target] + Split(rest, "\n\n")
  {
    var s, t := e.source, e.target;
    var a := s + "\n" + t;
    var whole := a + "\n\n" + rest;
    assert Record(e) + rest == whole;
    forall i | 0 <= i < |a|
      ensures !IsPrefix("\n\n", whole[i..])
    {
      if i < |s| {
        assert whole[i] == s[i];
        assert s[i] in s;
      } else if i == |s| {
        assert whole[i + 1] == t[0];
        assert t[0] in t;
      } else {
        assert whole[i] == t[i - |s| - 1];
        assert t[i - |s| - 1] in t;
      }
    }
    SplitFirst(a, "\n\n", rest);
  }

  /**
   * Round trip: the staging text written for a sequence of examples parses
   * back to exactly their (source, target) pairs, in order, provided every
   * text is trimmed, non-empty and on one line.
   */
  lemma {:induction false} StagingRoundTrip(examples: seq<Example>)
    requires forall k :: 0 <= k < |examples| ==> IsSerializable(examples[k])
    ensures ParseStaging(Serialize(examples)) == Map(examples, CardOf)
    decreases |examples|
  {
    if examples == [] {
      assert Split("", "\n\n") == [""];
      CardsOfEmpty();
    } else {
      var e, rest := examples[0], examples[1..];
      var block := e.source + "\n" + e.target;
      StagingRoundTrip(rest);
      assert Serialize(examples) == Record(e) + Serialize(rest);
      RecordEndsAtBlankLine(e, Serialize(rest));
      CardsOfConcat([block], Split(Serialize(rest), "\n\n"));
      assert ParseStaging(Serialize(examples)) == CardsOf([block]) + ParseStaging(Serialize(rest));
      BlockCardOfRecord(e);
      CardsOfOne(block);
      assert Map(examples, CardOf) == [CardOf(e)] + Map(rest, CardOf);
    }
  }

  /**
   * Why the round trip asks for one-line texts: a source sentence whose
   * text holds a line break is staged as three lines, and the card read
   * back pairs the two halves of the source; the target is lost.
   */
  lemma {:induction false} LineBreakInSourceSplitsCard(id: nat, s1: string, s2: string, t: string)
    requires IsLine(s1) && IsLine(s2) && IsLine(t)
    ensures ParseStaging(Serialize([Example(id, s1 + "\n" + s2, t)])) == [Card(s1, s2)]
  {
    var e := Example(id, s1 + "\n" + s2, t);
    var block := s1 + "\n" + s2 + "\n" + t;
    SerializeOne(e);
    assert Record(e) == block + "\n\n" + "";
    ThreeLinesEndAtBlankLine(s1, s2, t);
    ThreeLineCards(s1, s2, t);
    ParseBlockThenEmpty(Serialize([e]), block);
  }

  lemma SerializeOne(e: Example)
    ensures Serialize([e]) == Record(e)
  {
    assert [e][1..] == [];
  }

  /** A text that splits into one block and an empty tail parses as that block. */
  lemma ParseBlockThenEmpty(text: string, block: string)
    requires Split(text, "\n\n") == [block] + Split("", "\n\n")
    ensures ParseStaging(text) == CardsOf([block])
  {
    assert Split("", "\n\n") == [""];
    CardsOfEmpty();
    CardsOfConcat([block], [""]);
  }

  lemma ThreeLinesEndAtBlankLine(s1: string, s2: string, t: string)
    requires IsLine(s1) && IsLine(s2) && IsLine(t)
    ensures Split(s1 + "\n" + s2 + "\n" + t + "\n\n" + "", "\n\n") == [s1 + "\n" + s2 + "\n" + t] + Split("", "\n\n")
  {
    var a := s1 + "\n" + s2 + "\n" + t;
    var whole := a + "\n\n" + "";
    forall i | 0 <= i < |a|
      ensures !IsPrefix("\n\n", whole[i..])
    {
      if i < |s1| {
        assert whole[i] == s1[i] && s1[i] in s1;
      } else if i == |s1| {
        assert whole[i + 1] == s2[0] && s2[0] in s2;
      } else if i < |s1| + 1 + |s2| {
        assert whole[i] == s2[i - |s1| - 1] && s2[i - |s1| - 1] in s2;
      } else if i == |s1| + 1 + |s2| {
        assert whole[i + 1] == t[0] && t[0] in t;
      } else {
        assert whole[i] == t[i - |s1| - |s2| - 2] && t[i - |s1| - |s2| - 2] in t;
      }
    }
    SplitFirst(a, "\n\n", "");
  }

  lemma ThreeLineCards(s1: string, s2: string, t: string)
    requires IsLine(s1) && IsLine(s2) && IsLine(t)
    ensures CardsOf([s1 + "\n" + s2 + "\n" + t]) == [Card(s1, s2)]
  {
    var rest := s2 + "\n" + t;
    var block := s1 + "\n" + rest;
    assert block == s1 + "\n" + s2 + "\n" + t;
    assert block[0] == s1[0] && block[|block| - 1] == t[|t| - 1];
    TrimOfTrimmed(block);
    forall i | 0 <= i < |s1|
      ensures !IsPrefix("\n", block[i..])
    {
      assert block[i] == s1[i] && s1[i] in s1;
    }
    SplitFirst(s1, "\n", rest);
    SplitTwoLines(s2, t);
    TrimOfTrimmed(s1);
    TrimOfTrimmed(s2);
    assert BlockCard(block) == Card(s1, s2);
    CardsOfOne(block);
  }

  // ---------------------------------------------------------------------
  // Card sync
  // ---------------------------------------------------------------------

  /** The `addNote` request for one card (action "addNote", version 6). */
  datatype Note = Note(deckName: string, modelName: string, front: string, back: string, tags: seq<string>)

  function NoteFor(card: Card): Note {
    Note(DeckName, NoteModel, card.face, card.back, NoteTags)
  }

  /**
   * What AnkiConnect did with one request: the call threw (no connection,
   * or a body that is not JSON), the HTTP status was not ok, or it replied
   * with an `error` field (None for null).
   */
  datatype NoteResponse = Unreachable(message: string) | HttpError(status: int) | Replied(error: Option<string>)

  /** A card counts as added when the reply came with an ok status and a falsy `error`. */
  predicate Added(r: NoteResponse) {
    r.Replied? && (r.error.None? || r.error.value == "")
  }

  /**
   * The sync loop: one request per card, in order, whatever happened to
   * the previous ones; counts the cards added and the cards that failed.
   */
  method Sync(cards: seq<Card>, reply: nat -> NoteResponse)
    returns (sent: seq<Note>, successCount: nat, errorCount: nat)
    ensures |sent| == |cards| && forall i :: 0 <= i < |cards| ==> sent[i] == NoteFor(cards[i])
    ensures successCount == |set i | 0 <= i < |cards| && Added(reply(i))|
    ensures errorCount == |set i | 0 <= i < |cards| && !Added(reply(i))|
    ensures successCount + errorCount == |cards|
  {
    sent, successCount, errorCount := [], 0, 0;
    ghost var added: set<nat> := {};
    ghost var failed: set<nat> := {};
    for i := 0 to |cards|
      invariant |sent| == i && forall j :: 0 <= j < i ==> sent[j] == NoteFor(cards[j])
      invariant added == set j | 0 <= j < i && Added(reply(j))
      invariant failed == set j | 0 <= j < i && !Added(reply(j))
      invariant successCount == |added| && errorCount == |failed|
      invariant successCount + errorCount == i
    {
      sent := sent + [NoteFor(cards[i])];
      var response := reply(i);
      var ok := false;
      match response {
        case Replied(error) =>
          ok := !(error.Some? && error.value != "");
        case _ =>
      }
      assert ok == Added(response);
      CountStep(added, failed, i, reply);
      if ok {
        successCount := successCount + 1;
        added := added + {i};
      } else {
        errorCount := errorCount + 1;
        failed := failed + {i};
      }
    }
  }

  /** One more card lands in exactly one of the two tallies. */
  lemma CountStep(added: set<nat>, failed: set<nat>, i: nat, reply: nat -> NoteResponse)
    requires added == set j | 0 <= j < i && Added(reply(j))
    requires failed == set j | 0 <= j < i && !Added(reply(j))
    ensures i !in added && i !in failed
    ensures Added(reply(i)) ==> (set j | 0 <= j < i + 1 && Added(reply(j))) == added + {i}
    ensures Added(reply(i)) ==> (set j | 0 <= j < i + 1 && !Added(reply(j))) == failed
    ensures !Added(reply(i)) ==> (set j | 0 <= j < i + 1 && Added(reply(j))) == added
    ensures !Added(reply(i)) ==> (set j | 0 <= j < i + 1 && !Added(reply(j))) == failed + {i}
  {
  }

  // ---------------------------------------------------------------------
  // The whole run
  // ---------------------------------------------------------------------

  /**
   * How a run ends: aborted by a failed lookup (exit code 1), stopped
   * because there is no staging file to read (nothing was ever staged, so
   * reading it throws), or synced.
   */
  datatype RunOutcome =
    | Aborted(message: string)
    | StagingUnreadable
    | Synced(cards: seq<Card>, notes: seq<Note>, successCount: nat, errorCount: nat)

  /**
   * The whole script: the wrapper is created once (no browser yet), the
   * words are looked up and staged when there is no staging file, and the
   * staging file is then parsed and synced. `lookup` is the oracle of the
   * world the lookups meet (`Lookup` is one, by `LookupDescribes`).
   */
  method Run(input: string, staging: StagingFile, launch: Launch, fetch: string -> PageLoad,
             ghost lookup: (nat, string) -> ContextResult, reply: nat -> NoteResponse)
    returns (session: ReversoWrapper, queried: seq<string>, outcome: RunOutcome)
    requires staging.Valid() && Describes(lookup, World(launch, fetch, false))
    modifies staging
    ensures staging.Valid() && fresh(session)
    ensures old(staging.present) ==>
      && queried == [] && staging.present && staging.text == old(staging.text)
      && session.browser == None && session.launches == 0 && session.closeCalls == 0
    ensures !old(staging.present) ==>
      var words := InputWords(input);
      var k := SucceededPrefix(lookup, words, |words|);
      && queried == words[..if k < |words| then k + 1 else k]
      && staging.text == Serialize(StagedExamples(lookup, words, k))
      && session.browser == None && session.closeCalls == 1 && session.openPages == 0
      && session.launches == (if words == [] then 0 else 1)
      && (outcome.Aborted? <==> k < |words|)
      && (outcome.Aborted? ==> outcome.message == lookup(k, words[k]).message)
    ensures !outcome.Aborted? ==> (outcome.StagingUnreadable? <==> !staging.present)
    ensures outcome.Synced? ==>
      && outcome.cards == ParseStaging(staging.text)
      && outcome.notes == Map(outcome.cards, NoteFor)
      && outcome.successCount == |set i | 0 <= i < |outcome.cards| && Added(reply(i))|
      && outcome.successCount + outcome.errorCount == |outcome.cards|
    ensures !old(staging.present) && outcome.Synced? ==>
      var words := InputWords(input);
      var staged := StagedExamples(lookup, words, SucceededPrefix(lookup, words, |words|));
      (forall k :: 0 <= k < |staged| ==> IsSerializable(staged[k])) ==> outcome.cards == Map(staged, CardOf)
  {
    session := new ReversoWrapper();
    queried := [];
    if !staging.present {
      var words := InputWords(input);
      var failure;
      queried, failure := Acquire(words, World(launch, fetch, false), lookup, session, staging);
      if failure.Some? {
        outcome := Aborted(failure.value);
        return;
      }
      var staged := StagedExamples(lookup, words, |words|);
      if forall k :: 0 <= k < |staged| ==> IsSerializable(staged[k]) {
        StagingRoundTrip(staged);
      }
    }
    if !staging.present {
      outcome := StagingUnreadable;
      return;
    }
    var cards := ParseStaging(staging.text);
    var notes, added, failed := Sync(cards, reply);
    outcome := Synced(cards, notes, added, failed);
  }
}
