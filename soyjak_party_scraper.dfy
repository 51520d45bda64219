/**
 * The soyjak.st harvester (SoyjakPartyScraper.py): `clean_text`, the catalog's thread ids,
 * and the save-or-skip loop over the posts of each thread with its seen-set and counters.
 * The browser, the JSON parsing and the CSV file are outside the model: the catalog and the
 * threads arrive as values, and a thread whose page could not be read is `None`.
 */
module SoyjakPartyScraper {
  import opened Wrappers
  import opened Strings
  import opened Patterns
  import opened Collections
  import opened Seqs

  const MIN_TEXT_LENGTH: nat := 15

  /**
   * `clean_text`: quote links `>>digits` and tags `<[^>]+>` are removed, entities decoded,
   * whitespace runs collapsed to one space and the ends stripped. The result is the words of
   * the decoded text joined by single spaces.
   */
  function CleanText(text: Option<string>): (r: string)
    ensures !Truthy(text) ==> r == ""
    ensures Truthy(text) ==> r == NormalizeSpaces(DecodeEntities(Sub(Tag(1), "", Sub(QuoteLink, "", text.value))))
    ensures Stripped(r) && SingleSpaced(r)
  {
    if !Truthy(text) then ""
    else
      var decoded := DecodeEntities(Sub(Tag(1), "", Sub(QuoteLink, "", text.value)));
      var spaced := Sub(WhitespaceRun, " ", decoded);
      CollapseSingleSpaced(decoded);
      StripSingleSpaced(spaced);
      CollapseStrip(decoded);
      Strip(spaced)
  }
  /**
   * Quote links and tags are removed before entities are decoded, so an escaped `>>digits`
   * link survives: the text `&gt;&gt;d` for digits `d` is cleaned to the link text `>>d`.
   */
  lemma EscapedQuoteSurvives(d: string)
    requires d != [] && AllChars(d, IsDigit)
    ensures CleanText(Some("&gt;" + ("&gt;" + d))) == ">" + (">" + d)
  {
    var s := "&gt;" + ("&gt;" + d);
    var u := ">" + (">" + d);
    DigitLinkChars(d);
    NoQuoteNoTag(s);
    DecodeEscapedQuote(d);
    SpacedStripped(u);
  }

  /** A text without `>` and `<` has no quote link and no tag to remove. */
  lemma NoQuoteNoTag(s: string)
    requires '<' !in s && '>' !in s
    ensures Sub(Tag(1), "", Sub(QuoteLink, "", s)) == s
  {
    assert Sub(QuoteLink, "", s) == s by { StartsQuoteLink(); SubAbsent(QuoteLink, "", s, '>'); }
    StartsTag(1);
    SubAbsent(Tag(1), "", s, '<');
  }

  /** A stripped text without whitespace passes the spacing and the stripping unchanged. */
  lemma SpacedStripped(u: string)
    requires NoWhitespace(u) && Stripped(u)
    ensures Strip(Sub(WhitespaceRun, " ", u)) == u
  {
    SubNoWhitespace(" ", u);
    StripSlice(u);
  }



  /** A catalog entry: its `sticky` field (a JSON `true` reads as 1) and its `no` field. */
  datatype CatalogThread = CatalogThread(sticky: Option<int>, no: Option<int>)

  /** A catalog entry that is not sticky and whose `no` is the truthy id `x`. */
  predicate Eligible(t: CatalogThread, x: int) {
    t.sticky != Some(1) && t.no == Some(x) && x != 0
  }

  /** The ids one catalog page contributes, in order. */
  function PageIds(threads: seq<CatalogThread>): seq<int> {
    if threads == [] then []
    else
      var t := threads[|threads| - 1];
      if t.sticky != Some(1) && t.no.Some? && t.no.value != 0 then PageIds(threads[..|threads| - 1]) + [t.no.value]
      else PageIds(threads[..|threads| - 1])
  }

  /** The ids of all catalog pages, in order, before de-duplication. */
  function CatalogIds(pages: seq<seq<CatalogThread>>): seq<int> {
    if pages == [] then [] else CatalogIds(pages[..|pages| - 1]) + PageIds(pages[|pages| - 1])
  }

  /** Some entry of the catalog page is eligible with id `x`. */
  predicate Lists(page: seq<CatalogThread>, x: int) {
    exists k :: 0 <= k < |page| && Eligible(page[k], x)
  }

  lemma {:induction false} PageIdsMembers(threads: seq<CatalogThread>, x: int)
    ensures x in PageIds(threads) <==> Lists(threads, x)
  {
    if threads != [] {
      var p := threads[..|threads| - 1];
      PageIdsMembers(p, x);
      if Lists(p, x) {
        var k :| 0 <= k < |p| && Eligible(p[k], x);
        assert threads[k] == p[k];
      }
      if Lists(threads, x) {
        var k :| 0 <= k < |threads| && Eligible(threads[k], x);
        if k < |p| {
          assert Eligible(p[k], x);
        }
      }
    }
  }

  /** An id is collected iff some catalog entry carries it as a truthy `no` and is not sticky. */
  lemma {:induction false} CatalogIdsMembers(pages: seq<seq<CatalogThread>>, x: int)
    ensures x in CatalogIds(pages) <==> exists i :: 0 <= i < |pages| && Lists(pages[i], x)
  {
    if pages != [] {
      var p := pages[..|pages| - 1];
      CatalogIdsMembers(p, x);
      PageIdsMembers(pages[|pages| - 1], x);
      assert forall i :: 0 <= i < |p| ==> p[i] == pages[i];
    }
  }

  /**
   * The catalog loop of `run_harvest` followed by `list(dict.fromkeys(...))`: the ids of the
   * non-sticky threads, each once, in the order of their first appearance.
   */
  method CollectThreadIds(pages: seq<seq<CatalogThread>>) returns (ids: seq<int>)
    ensures ids == Dedup(CatalogIds(pages))
  {
    var found: seq<int> := [];
    for i := 0 to |pages|
      invariant found == CatalogIds(pages[..i])
    {
      var threads := pages[i];
      for k := 0 to |threads|
        invariant found == CatalogIds(pages[..i]) + PageIds(threads[..k])
      {
        var t := threads[k];
        assert threads[..k + 1][..k] == threads[..k];
        if t.sticky == Some(1) {
          continue;
        }
        if t.no.Some? && t.no.value != 0 {
          found := found + [t.no.value];
        }
      }
      assert threads[..|threads|] == threads;
      assert pages[..i + 1][..i] == pages[..i];
    }
    assert pages[..|pages|] == pages;
    ids := Dedup(found);
  }

  /** A post of a thread page: its `___body_nomarkup` and `com` fields (`None` when absent or null). */
  datatype Post = Post(nomarkup: Option<string>, com: Option<string>)

  /**
   * The cleaned text of a post: `___body_nomarkup` when truthy, otherwise `com`; empty when
   * neither field holds text.
   */
  function Cleaned(p: Post): (r: string)
    ensures Truthy(p.nomarkup) ==> r == CleanText(p.nomarkup)
    ensures !Truthy(p.nomarkup) ==> r == CleanText(p.com)
    ensures !Truthy(p.nomarkup) && !Truthy(p.com) ==> r == ""
    ensures Stripped(r) && SingleSpaced(r)
  {
    CleanText(if Truthy(p.nomarkup) then p.nomarkup else p.com)
  }

  /** The cleaned posts of one thread that pass the length gate, in order. */
  function Passed(posts: seq<Post>): seq<string> {
    Gate(posts, Cleaned, MIN_TEXT_LENGTH)
  }

  /** The posts of all threads that pass the length gate, thread by thread; an unread thread adds none. */
  function PassedAll(threads: seq<Option<seq<Post>>>): seq<string> {
    if threads == [] then []
    else
      var t := threads[|threads| - 1];
      if t.Some? then PassedAll(threads[..|threads| - 1]) + Passed(t.value) else PassedAll(threads[..|threads| - 1])
  }

  /** Every text that passes is long enough, stripped and single spaced. */
  lemma {:induction false} PassedAllClean(threads: seq<Option<seq<Post>>>)
    ensures forall t :: t in PassedAll(threads) ==>
      |t| >= MIN_TEXT_LENGTH && Stripped(t) && SingleSpaced(t)
  {
    if threads != [] {
      PassedAllClean(threads[..|threads| - 1]);
      var last := threads[|threads| - 1];
      if last.Some? {
        forall t | t in Passed(last.value) ensures |t| >= MIN_TEXT_LENGTH && Stripped(t) && SingleSpaced(t) {
          GateMembers(last.value, Cleaned, MIN_TEXT_LENGTH, t);
        }
      }
    }
  }

  /** The bookkeeping of the save loop: texts written, keys seen, and the two counters. */
  datatype Ledger = Ledger(written: seq<string>, seen: set<string>, totalSaved: nat, duplicatesSkipped: nat)

  const EMPTY_LEDGER := Ledger([], {}, 0, 0)

  /** One text that passed the length gate: written if its key is new, counted as a duplicate otherwise. */
  function Step(l: Ledger, c: string, hash: string -> string): Ledger {
    if hash(c) !in l.seen then Ledger(l.written + [c], l.seen + {hash(c)}, l.totalSaved + 1, l.duplicatesSkipped)
    else l.(duplicatesSkipped := l.duplicatesSkipped + 1)
  }

  /** The ledger after the texts `cs`, in order. */
  function Run(l: Ledger, cs: seq<string>, hash: string -> string): Ledger {
    if cs == [] then l else Step(Run(l, cs[..|cs| - 1], hash), cs[|cs| - 1], hash)
  }

  lemma RunSnoc(l: Ledger, cs: seq<string>, c: string, hash: string -> string)
    ensures Run(l, cs + [c], hash) == Step(Run(l, cs, hash), c, hash)
  {
    assert (cs + [c])[..|cs|] == cs;
  }

  lemma {:induction false} RunAppend(l: Ledger, a: seq<string>, b: seq<string>, hash: string -> string)
    ensures Run(l, a + b, hash) == Run(Run(l, a, hash), b, hash)
    decreases |b|
  {
    if b == [] {
      assert a + b == a;
    } else {
      var b' := b[..|b| - 1];
      assert a + b == (a + b') + [b[|b| - 1]];
      RunSnoc(l, a + b', b[|b| - 1], hash);
      RunAppend(l, a, b', hash);
    }
  }

  /**
   * `l` is the bookkeeping of the texts `cs`: the texts written are the first text of each
   * key, in order; the seen keys are all keys of `cs`; `total_saved` is the number of seen
   * keys; and `total_saved + duplicates_skipped` is the number of texts.
   */
  predicate Tracks(l: Ledger, cs: seq<string>, hash: string -> string) {
    l.written == KeepFirst(cs, hash) && l.seen == Keys(cs, hash) &&
    l.totalSaved == |l.seen| == |l.written| && l.totalSaved + l.duplicatesSkipped == |cs|
  }

  lemma TracksStep(l: Ledger, cs: seq<string>, c: string, hash: string -> string)
    requires Tracks(l, cs, hash)
    ensures Tracks(Step(l, c, hash), cs + [c], hash)
  {
    KeepFirstSnoc(cs, c, hash);
    KeysSnoc(cs, c, hash);
    if hash(c) !in l.seen {
      assert |l.seen + {hash(c)}| == |l.seen| + 1;
    }
  }

  /** Running the save step over texts from an empty ledger keeps the books `Tracks` describes. */
  lemma {:induction false} RunLedger(cs: seq<string>, hash: string -> string)
    ensures Tracks(Run(EMPTY_LEDGER, cs, hash), cs, hash)
  {
    if cs == [] {
      assert Tracks(EMPTY_LEDGER, cs, hash);
    } else {
      var p, c := cs[..|cs| - 1], cs[|cs| - 1];
      RunLedger(p, hash);
      Whole(cs);
      RunSnoc(EMPTY_LEDGER, p, c, hash);
      TracksStep(Run(EMPTY_LEDGER, p, hash), p, c, hash);
    }
  }

  /**
   * The post loop of one thread in `run_harvest`: a post whose cleaned text passes the length
   * gate is written if its key (`hashlib.md5` of the text, here `hash`) is new, and counted
   * as a duplicate otherwise; `threadCount` counts the texts this thread wrote.
   */
  method SaveThread(posts: seq<Post>, hash: string -> string,
                    written0: seq<string>, seen0: set<string>, saved0: nat, skipped0: nat)
    returns (written: seq<string>, seen: set<string>, totalSaved: nat, duplicatesSkipped: nat, threadCount: nat)
    ensures Ledger(written, seen, totalSaved, duplicatesSkipped) ==
      Run(Ledger(written0, seen0, saved0, skipped0), Passed(posts), hash)
    ensures totalSaved == saved0 + threadCount
  {
    written, seen, totalSaved, duplicatesSkipped, threadCount := written0, seen0, saved0, skipped0, 0;
    ghost var texts: seq<string> := [];
    ghost var l0 := Ledger(written0, seen0, saved0, skipped0);
    assert Passed(posts[..0]) == [];
    for k := 0 to |posts|
      invariant texts == Passed(posts[..k])
      invariant Ledger(written, seen, totalSaved, duplicatesSkipped) == Run(l0, texts, hash)
      invariant totalSaved == saved0 + threadCount
    {
      var cleaned := Cleaned(posts[k]);
      GatePrefix(posts, k, Cleaned, MIN_TEXT_LENGTH);
      if |cleaned| >= MIN_TEXT_LENGTH {
        RunSnoc(l0, texts, cleaned, hash);
        texts := texts + [cleaned];
        var postHash := hash(cleaned);
        if postHash !in seen {
          written := written + [cleaned];
          seen := seen + {postHash};
          totalSaved := totalSaved + 1;
          threadCount := threadCount + 1;
        } else {
          duplicatesSkipped := duplicatesSkipped + 1;
        }
      }
    }
    assert posts[..|posts|] == posts;
  }

  /**
   * The thread loop of `run_harvest` over the threads that were read. `threadCounts[i]` is
   * the `thread_count` of thread `i` (0 for a thread that could not be read).
   */
  method SavePosts(threads: seq<Option<seq<Post>>>, hash: string -> string)
    returns (written: seq<string>, seen: set<string>, totalSaved: nat, duplicatesSkipped: nat, threadCounts: seq<nat>)
    ensures written == KeepFirst(PassedAll(threads), hash)
    ensures seen == Keys(PassedAll(threads), hash) == Keys(written, hash)
    ensures totalSaved == |seen| == |written|
    ensures totalSaved + duplicatesSkipped == |PassedAll(threads)|
    ensures |threadCounts| == |threads| && Sum(threadCounts) == totalSaved
  {
    written, seen, totalSaved, duplicatesSkipped, threadCounts := [], {}, 0, 0, [];
    for i := 0 to |threads|
      invariant Ledger(written, seen, totalSaved, duplicatesSkipped) == Run(EMPTY_LEDGER, PassedAll(threads[..i]), hash)
      invariant |threadCounts| == i && Sum(threadCounts) == totalSaved
    {
      assert threads[..i + 1][..i] == threads[..i];
      var threadCount: nat := 0;
      if threads[i].Some? {
        RunAppend(EMPTY_LEDGER, PassedAll(threads[..i]), Passed(threads[i].value), hash);
        written, seen, totalSaved, duplicatesSkipped, threadCount :=
          SaveThread(threads[i].value, hash, written, seen, totalSaved, duplicatesSkipped);
      } else {
        assert PassedAll(threads[..i + 1]) == PassedAll(threads[..i]);
      }
      SumSnoc(threadCounts, threadCount);
      threadCounts := threadCounts + [threadCount];
    }
    assert threads[..|threads|] == threads;
    RunLedger(PassedAll(threads), hash);
    KeepFirstKeys(PassedAll(threads), hash);
  }

  /**
   * What reaches the file: texts that passed the length gate (hence long enough, stripped and
   * single spaced), with pairwise distinct keys, covering every key that passed.
   */
  lemma WrittenPosts(threads: seq<Option<seq<Post>>>, hash: string -> string)
    ensures var w := KeepFirst(PassedAll(threads), hash);
      (forall i :: 0 <= i < |w| ==> |w[i]| >= MIN_TEXT_LENGTH && Stripped(w[i]) && SingleSpaced(w[i])) &&
      (forall i, j :: 0 <= i < j < |w| ==> hash(w[i]) != hash(w[j])) &&
      Keys(w, hash) == Keys(PassedAll(threads), hash)
  {
    PassedAllClean(threads);
    KeepFirstKeys(PassedAll(threads), hash);
  }
}
