/**
 * The Reverso Context wrapper: a lazily started, explicitly closed browser
 * session, and the per-word lookup that loads the translation page, waits
 * out the anti-bot interstitial, and extracts translations and example
 * sentence pairs from the rendered document.
 *
 * The browser and the page are outside the model: launching a browser is a
 * `Launch` value, and loading a URL is a function `fetch` from the URL to
 * the rendered `Document` (or to the error navigation threw). The rendered
 * document is abstracted to its title, the text of each translation-panel
 * entry and, per example block, the text of its source and target nodes.
 */
module Reverso {
  import opened Options
  import opened JsArray
  import opened JsString
  import Uri

  const BaseUrl: string := "https://context.reverso.net/translation/"
  const DefaultSource: string := "english"
  const DefaultTarget: string := "russian"
  /** The title of the anti-bot interstitial page. */
  const ChallengeMarker: string := "Just a moment"
  /** The fixed wait after navigation, and the extra wait while the interstitial shows. */
  const SettleMs: nat := 3000
  const ChallengeWaitMs: nat := 10000
  const DefaultErrorMessage: string := "An error occurred"

  /** A running browser instance, known only by identity. */
  datatype Browser = Browser(id: nat)

  /** A thrown error; its `message` may be missing. */
  datatype Thrown = Thrown(message: Option<string>)

  /** What launching a browser yields. */
  datatype Launch = Launched(browser: Browser) | LaunchFailed(error: Thrown)

  /** One `.example` block: the text of its `.src .text` and `.trg .text` nodes, None when a node is absent. */
  datatype ExampleBlock = ExampleBlock(sourceText: Option<string>, targetText: Option<string>)

  /** The rendered page: its title, the translation-panel entries and the example blocks, in document order. */
  datatype Document = Document(title: string, translationPanel: seq<Option<string>>, exampleBlocks: seq<ExampleBlock>)

  /** What loading a URL yields. */
  datatype PageLoad = NavigationFailed(error: Thrown) | Rendered(doc: Document)

  datatype Example = Example(id: nat, source: string, target: string)

  /** The tagged result of a lookup: `ok: true` with the payload, or `ok: false` with a message. */
  datatype ContextResult =
    | Success(text: string, source: string, target: string, translations: seq<string>, examples: seq<Example>)
    | Failure(message: string)

  /**
   * The word segment of the URL: `encodeURIComponent(text)` with every
   * `%20` rewritten to `+`. It is the form-style encoding of the text,
   * so it holds no space and no `%20`.
   */
  function WordSegment(text: string): (seg: string)
    ensures seg == Uri.FormEncode(text)
    ensures ' ' !in seg && !Contains(seg, "%20")
  {
    Uri.PlusForSpaces(text);
    Uri.ReplacedHasNoPattern(Uri.EncodeURIComponent(text));
    Uri.FormEncodeHasNoSpace(text);
    ReplaceAll(Uri.EncodeURIComponent(text), "%20", "+")
  }

  function ContextUrl(text: string, source: string, target: string): (url: string)
    ensures url == BaseUrl + source + "-" + target + "/" + Uri.FormEncode(text)
  {
    BaseUrl + source + "-" + target + "/" + WordSegment(text)
  }

  /** For a fixed language pair, different words are looked up at different URLs. */
  lemma UrlDeterminesWord(a: string, b: string, source: string, target: string)
    requires ContextUrl(a, source, target) == ContextUrl(b, source, target)
    ensures a == b
  {
    var prefix := BaseUrl + source + "-" + target + "/";
    assert ContextUrl(a, source, target)[|prefix|..] == Uri.FormEncode(a);
    assert ContextUrl(b, source, target)[|prefix|..] == Uri.FormEncode(b);
    Uri.FormEncodeInjective(a, b);
  }

  /**
   * The total wait after navigation: the fixed settle delay, plus the
   * longer wait exactly when the page title contains the interstitial's
   * marker. The wait is not followed by a second check of the title.
   */
  function SettleDelay(title: string): (ms: nat)
    ensures ms == 3000 || ms == 13000
    ensures ms == 13000 <==> exists i :: OccursAt(title, ChallengeMarker, i)
  {
    ContainsOccurs(title, ChallengeMarker);
    SettleMs + (if Contains(title, ChallengeMarker) then ChallengeWaitMs else 0)
  }

  /** `node?.textContent?.trim() || ""`: the trimmed text, or "" for a missing node. */
  function TrimmedText(text: Option<string>): (r: string)
    ensures IsTrimmed(r)
    ensures text.None? ==> r == ""
  {
    match text
    case None => ""
    case Some(t) => Trim(t)
  }

  /** The translation candidates: trimmed entry texts, empty ones dropped. */
  function Translations(panel: seq<Option<string>>): (r: seq<string>)
    ensures |r| <= |panel|
    ensures forall k :: 0 <= k < |r| ==> r[k] != "" && IsTrimmed(r[k])
  {
    Filter(Map(panel, TrimmedText), NonEmpty)
  }

  /**
   * The translations keep document order, and each non-empty trimmed
   * entry text appears exactly as often as in the panel.
   */
  lemma TranslationsInDocumentOrder(panel: seq<Option<string>>, t: string)
    ensures IsSubsequence(Translations(panel), Map(panel, TrimmedText))
    ensures multiset(Translations(panel))[t] == if t != "" then multiset(Map(panel, TrimmedText))[t] else 0
  {
    FilterIsSubsequence(Map(panel, TrimmedText), NonEmpty);
    FilterMultiset(Map(panel, TrimmedText), NonEmpty, t);
  }

  /** One example per block, numbered by its zero-based position, a missing text node giving "". */
  function RawExamples(blocks: seq<ExampleBlock>): (raw: seq<Example>)
    ensures |raw| == |blocks|
    ensures forall i :: 0 <= i < |raw| ==> raw[i].id == i
    ensures forall i :: 0 <= i < |raw| ==> IsTrimmed(raw[i].source) && IsTrimmed(raw[i].target)
    ensures forall i :: 0 <= i < |raw| && blocks[i].sourceText.None? ==> raw[i].source == ""
    ensures forall i :: 0 <= i < |raw| && blocks[i].targetText.None? ==> raw[i].target == ""
  {
    seq(|blocks|, i requires 0 <= i < |blocks| =>
      Example(i, TrimmedText(blocks[i].sourceText), TrimmedText(blocks[i].targetText)))
  }

  /** `ex.source && ex.target`: both texts non-empty. */
  predicate IsUsable(e: Example) {
    e.source != "" && e.target != ""
  }

  predicate IdsIncreasing(examples: seq<Example>) {
    forall i, j :: 0 <= i < j < |examples| ==> examples[i].id < examples[j].id
  }

  /** Prepending an example whose id is below all others keeps ids increasing. */
  lemma ConsKeepsIdsIncreasing(x: Example, tail: seq<Example>)
    requires IdsIncreasing(tail)
    requires forall k :: 0 <= k < |tail| ==> x.id < tail[k].id
    ensures IdsIncreasing([x] + tail)
  {
    var r := [x] + tail;
    forall i, j | 0 <= i < j < |r|
      ensures r[i].id < r[j].id
    {
      assert r[j] == tail[j - 1];
      if i > 0 {
        assert r[i] == tail[i - 1];
      }
    }
  }

  /** Filtering a sequence whose ids increase leaves a sequence whose ids increase. */
  lemma {:induction false} FilterKeepsIdsIncreasing(s: seq<Example>)
    requires IdsIncreasing(s)
    ensures IdsIncreasing(Filter(s, IsUsable))
    decreases |s|
  {
    if s != [] {
      var tail := Filter(s[1..], IsUsable);
      FilterKeepsIdsIncreasing(s[1..]);
      forall k | 0 <= k < |tail|
        ensures s[0].id < tail[k].id
      {
        assert tail[k] in s[1..];
        var j :| 0 <= j < |s[1..]| && s[1..][j] == tail[k];
        assert s[j + 1] == tail[k];
      }
      if IsUsable(s[0]) {
        ConsKeepsIdsIncreasing(s[0], tail);
      }
    }
  }

  /** The examples the lookup returns: the usable raw examples. */
  function Examples(blocks: seq<ExampleBlock>): (kept: seq<Example>)
    ensures forall k :: 0 <= k < |kept| ==> IsUsable(kept[k]) && IsTrimmed(kept[k].source) && IsTrimmed(kept[k].target)
  {
    Filter(RawExamples(blocks), IsUsable)
  }

  /**
   * The returned examples are exactly the usable raw examples, in document
   * order: each is the raw example at its own id, ids strictly increase,
   * and no usable raw example is missing.
   */
  lemma ExamplesAreUsableRawInOrder(blocks: seq<ExampleBlock>)
    ensures var raw := RawExamples(blocks);
            var kept := Examples(blocks);
            && IdsIncreasing(kept)
            && (forall k :: 0 <= k < |kept| ==> kept[k].id < |raw| && raw[kept[k].id] == kept[k])
            && (forall i :: 0 <= i < |raw| && IsUsable(raw[i]) ==> raw[i] in kept)
  {
    var raw := RawExamples(blocks);
    FilterKeepsIdsIncreasing(raw);
    var kept := Examples(blocks);
    forall k | 0 <= k < |kept|
      ensures kept[k].id < |raw| && raw[kept[k].id] == kept[k]
    {
      var j :| 0 <= j < |raw| && raw[j] == kept[k];
    }
  }

  /** `error.message || "An error occurred"`. */
  function ErrorMessage(e: Thrown): (m: string)
    ensures m != ""
    ensures e.message.Some? && e.message.value != "" ==> m == e.message.value
    ensures e.message.None? || e.message.value == "" ==> m == DefaultErrorMessage
  {
    match e.message
    case Some(msg) => if msg != "" then msg else DefaultErrorMessage
    case None => DefaultErrorMessage
  }

  /**
   * What a lookup returns once the browser runs, given what loading its URL
   * yielded: a navigation error becomes a failure, a rendered page a
   * success that echoes the request.
   */
  function PageOutcome(text: string, source: string, target: string, page: PageLoad): (r: ContextResult)
    ensures r.Failure? <==> page.NavigationFailed?
    ensures r.Failure? ==> r.message != ""
    ensures r.Success? ==> r.text == text && r.source == source && r.target == target
    ensures r.Success? ==> forall k :: 0 <= k < |r.translations| ==> r.translations[k] != ""
    ensures r.Success? ==> forall k :: 0 <= k < |r.examples| ==> IsUsable(r.examples[k])
  {
    match page
    case NavigationFailed(e) => Failure(ErrorMessage(e))
    case Rendered(doc) => Success(text, source, target, Translations(doc.translationPanel), Examples(doc.exampleBlocks))
  }

  class ReversoWrapper {
    /** The browser handle: None until started and after close. */
    var browser: Option<Browser>
    /** How many times a browser launch was attempted. */
    ghost var launches: nat
    /** Pages opened and not yet closed. */
    ghost var openPages: nat
    /** How many times `close` was called. */
    ghost var closeCalls: nat

    constructor ()
      ensures browser == None && launches == 0 && openPages == 0 && closeCalls == 0
    {
      browser := None;
      launches, openPages, closeCalls := 0, 0, 0;
    }

    /**
     * `init`: launches a browser when none is running; with one running it
     * changes nothing. A failed launch leaves the handle unset and is
     * returned as the thrown error.
     */
    method Init(launch: Launch) returns (thrown: Option<Thrown>)
      modifies this`browser, this`launches
      ensures old(browser).Some? ==> browser == old(browser) && launches == old(launches) && thrown == None
      ensures old(browser).None? ==> launches == old(launches) + 1
      ensures old(browser).None? && launch.Launched? ==> browser == Some(launch.browser) && thrown == None
      ensures old(browser).None? && launch.LaunchFailed? ==> browser == None && thrown == Some(launch.error)
    {
      thrown := None;
      if browser.None? {
        launches := launches + 1;
        match launch
        case Launched(b) =>
          browser := Some(b);
        case LaunchFailed(e) =>
          thrown := Some(e);
      }
    }

    /** `close`: shuts a running browser down (with all its pages) and clears the handle; otherwise does nothing. */
    method Close()
      modifies this`browser, this`openPages, this`closeCalls
      ensures browser == None && closeCalls == old(closeCalls) + 1
      ensures openPages == if old(browser).Some? then 0 else old(openPages)
    {
      closeCalls := closeCalls + 1;
      if browser.Some? {
        openPages := 0;
        browser := None;
      }
    }

    /**
     * `getContext`: starts the browser if needed, opens a page, loads the
     * lookup URL, waits `settleMs`, extracts, and closes the page. Any
     * thrown error becomes a failure; the page is then left open.
     */
    method GetContext(text: string, launch: Launch, fetch: string -> PageLoad,
                      source: string := DefaultSource, target: string := DefaultTarget)
      returns (r: ContextResult, settleMs: nat)
      modifies this`browser, this`launches, this`openPages
      ensures old(browser).None? && launch.LaunchFailed? ==>
        && r == Failure(ErrorMessage(launch.error))
        && browser == None && settleMs == 0 && openPages == old(openPages)
      ensures old(browser).Some? || launch.Launched? ==>
        var page := fetch(ContextUrl(text, source, target));
        && browser == (if old(browser).Some? then old(browser) else Some(launch.browser))
        && r == PageOutcome(text, source, target, page)
        && settleMs == (if page.Rendered? then SettleDelay(page.doc.title) else 0)
        && openPages == old(openPages) + (if r.Failure? then 1 else 0)
      ensures launches == old(launches) + (if old(browser).None? then 1 else 0)
    {
      var thrown := Init(launch);
      if thrown.Some? {
        r, settleMs := Failure(ErrorMessage(thrown.value)), 0;
        return;
      }
      openPages := openPages + 1;
      var url := ContextUrl(text, source, target);
      var page := fetch(url);
      match page {
        case NavigationFailed(e) =>
          r, settleMs := Failure(ErrorMessage(e)), 0;
        case Rendered(doc) =>
          settleMs := SettleDelay(doc.title);
          var translations := Translations(doc.translationPanel);
          var examples := Examples(doc.exampleBlocks);
          openPages := openPages - 1;
          r := Success(text, source, target, translations, examples);
      }
    }
  }

  /**
   * What callers can rely on: after a successful `init`, a second `init`
   * throws nothing and reuses the browser (`reused`), and a second `close`
   * after the first is harmless.
   */
  method SessionLifecycle(b: Browser, other: Launch)
    returns (session: ReversoWrapper, first: Option<Thrown>, second: Option<Thrown>, reused: Option<Browser>)
    ensures first == None && second == None && reused == Some(b)
    ensures session.browser == None && session.launches == 1 && session.openPages == 0 && session.closeCalls == 2
  {
    session := new ReversoWrapper();
    first := session.Init(Launched(b));
    second := session.Init(other);
    reused := session.browser;
    session.Close();
    session.Close();
  }
}
