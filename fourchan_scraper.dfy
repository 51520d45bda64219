/**
 * The 4chan scraper (4chanScraper.py): `clean_text`, the per-thread worker, the archive
 * truncation and id union, and the `total_saved` count over the workers' results. The board
 * client, the HTTP requests, the worker pool and the CSV file are outside the model: a thread
 * arrives as the list of its posts' `text_comment` values, or `None` when it could not be read,
 * and the pool's results arrive as a list in any order.
 */
module FourChanScraper {
  import opened Wrappers
  import opened Strings
  import opened Patterns
  import opened Collections

  /** `ARCHIVE_LIMIT`; `None` would keep the whole archive. */
  const ARCHIVE_LIMIT: Option<nat> := Some(5000)
  const MIN_POST_LENGTH: nat := 10

  /**
   * `clean_text`: entities decoded, then URLs and `>>digits` links removed, newline runs turned
   * into one space, every remaining `>` removed, and the ends stripped.
   */
  function CleanText(text: Option<string>): (r: string)
    ensures !Truthy(text) ==> r == ""
    ensures '\n' !in r && '>' !in r
    ensures Stripped(r)
  {
    if !Truthy(text) then ""
    else
      var unlinked := Sub(QuoteLink, "", Sub(Url, "", DecodeEntities(text.value)));
      NoBreakNoQuote(unlinked);
      Strip(Sub(Literal(">"), "", Sub(NewlineRun, " ", unlinked)))
  }

  /** After the newline and `>` steps neither character is left, and stripping keeps it that way. */
  lemma NoBreakNoQuote(t: string)
    ensures var r := Strip(Sub(Literal(">"), "", Sub(NewlineRun, " ", t))); '\n' !in r && '>' !in r
  {
    var spaced := Sub(NewlineRun, " ", t);
    CoversNewline();
    SubRemoves(NewlineRun, " ", t, '\n');
    var q := c => c != '\n';
    assert AllChars(spaced, q);
    SubAllChars(Literal(">"), "", spaced, q);
    var unquoted := Sub(Literal(">"), "", spaced);
    CoversLiteral('>');
    SubRemoves(Literal(">"), "", spaced, '>');
    var q2 := c => c != '\n' && c != '>';
    assert AllChars(unquoted, q2);
    StripChars(unquoted, q2);
  }

  /**
   * `&amp;` is decoded last and only once: an escaped ampersand followed by plain text comes
   * out as `&` and that text, so `&amp;gt;` is cleaned to the text `&gt;`, not to `>`.
   */
  lemma CleanEscapedAmpersand(x: string)
    requires '&' !in x && '>' !in x && '\n' !in x && 'h' !in x
    requires x == [] || !IsWhitespace(x[|x| - 1])
    ensures CleanText(Some("&amp;" + x)) == "&" + x
  {
    var s := "&" + x;
    DecodeEscapedAmpersand(x);
    assert 'h' !in s && '>' !in s && '\n' !in s by {
      assert forall i :: 1 <= i < |s| ==> s[i] == x[i - 1];
    }
    assert Sub(Url, "", s) == s by { StartsUrl(); SubAbsent(Url, "", s, 'h'); }
    assert Sub(QuoteLink, "", s) == s by { StartsQuoteLink(); SubAbsent(QuoteLink, "", s, '>'); }
    assert Sub(NewlineRun, " ", s) == s by { StartsNewline(); SubAbsent(NewlineRun, " ", s, '\n'); }
    assert Sub(Literal(">"), "", s) == s by { StartsLiteral(">"); SubAbsent(Literal(">"), "", s, '>'); }
    assert Stripped(s) by {
      PrintableNotWhitespace('&');
      if x != [] {
        assert s[|s| - 1] == x[|x| - 1];
      }
    }
    StripSlice(s);
  }

  /** `scrape_thread_worker` as a value: the cleaned posts longer than `MIN_POST_LENGTH`. */
  function WorkerPosts(thread: Option<seq<Option<string>>>): seq<string> {
    if thread.None? then [] else Gate(thread.value, CleanText, MIN_POST_LENGTH + 1)
  }

  /** The loop of `scrape_thread_worker`. */
  method ScrapeThread(thread: Option<seq<Option<string>>>) returns (posts: seq<string>)
    ensures posts == WorkerPosts(thread)
  {
    if thread.None? {
      return [];
    }
    var texts := thread.value;
    posts := [];
    for k := 0 to |texts|
      invariant posts == Gate(texts[..k], CleanText, MIN_POST_LENGTH + 1)
    {
      var cleaned := CleanText(texts[k]);
      GatePrefix(texts, k, CleanText, MIN_POST_LENGTH + 1);
      if cleaned != [] && |cleaned| > MIN_POST_LENGTH {
        posts := posts + [cleaned];
      }
    }
    assert texts[..|texts|] == texts;
  }

  /**
   * A text is kept for a thread iff it is the cleaned text of one of its posts and is longer
   * than `MIN_POST_LENGTH`; a kept text has no newline and no `>` and is stripped.
   */
  lemma WorkerKeeps(texts: seq<Option<string>>, p: string)
    ensures p in WorkerPosts(Some(texts)) <==>
      exists k :: 0 <= k < |texts| && CleanText(texts[k]) == p && |p| > MIN_POST_LENGTH
    ensures p in WorkerPosts(Some(texts)) ==> '\n' !in p && '>' !in p && Stripped(p)
  {
    GateMembers(texts, CleanText, MIN_POST_LENGTH + 1, p);
  }

  /** `arch_ids[:ARCHIVE_LIMIT]` when the limit is set (truthy), the whole list otherwise. */
  function Truncate(ids: seq<int>, limit: Option<nat>): (r: seq<int>)
    ensures r <= ids
    ensures limit.Some? && limit.value > 0 && limit.value < |ids| ==> |r| == limit.value
    ensures limit.None? || limit.value == 0 || |ids| <= limit.value ==> r == ids
  {
    if limit.Some? && limit.value > 0 && limit.value < |ids| then ids[..limit.value] else ids
  }

  /** `list(set(live_ids + arch_ids))`: each live or archived id exactly once. */
  function TargetIds(live: seq<int>, arch: seq<int>): (ids: seq<int>)
    ensures NoDup(ids)
    ensures forall x :: x in ids <==> x in live || x in arch
  {
    Dedup(live + arch)
  }

  /** The worker's result for each target id, in the order of the ids. */
  function Results(ids: seq<int>, fetch: int -> Option<seq<Option<string>>>): seq<seq<string>> {
    MapAll(ids, id => WorkerPosts(fetch(id)))
  }

  /**
   * The writing loop of `run_scrape`. `arrivals` is the order in which `imap_unordered`
   * hands back the workers' results, some permutation of their results in id order; every
   * post of every result becomes one row, and `total_saved` is then the number of posts
   * the workers kept, whatever the order.
   */
  method RunScrape(live: seq<int>, arch: seq<int>, fetch: int -> Option<seq<Option<string>>>,
                   arrivals: seq<seq<string>>)
    returns (rows: seq<string>, totalSaved: nat)
    requires multiset(arrivals) == multiset(Results(TargetIds(live, Truncate(arch, ARCHIVE_LIMIT)), fetch))
    ensures rows == Flatten(arrivals)
    ensures totalSaved == |rows| == SumLen(Results(TargetIds(live, Truncate(arch, ARCHIVE_LIMIT)), fetch))
    ensures multiset(rows) == multiset(Flatten(Results(TargetIds(live, Truncate(arch, ARCHIVE_LIMIT)), fetch)))
  {
    rows, totalSaved := [], 0;
    for i := 0 to |arrivals|
      invariant rows == Flatten(arrivals[..i]) && totalSaved == |rows|
    {
      var postList := arrivals[i];
      for j := 0 to |postList|
        invariant rows == Flatten(arrivals[..i]) + postList[..j] && totalSaved == |rows|
      {
        assert postList[..j + 1] == postList[..j] + [postList[j]];
        rows := rows + [postList[j]];
        totalSaved := totalSaved + 1;
      }
      assert postList[..|postList|] == postList;
      assert arrivals[..i + 1][..i] == arrivals[..i];
    }
    assert arrivals[..|arrivals|] == arrivals;
    FlattenPermutation(arrivals, Results(TargetIds(live, Truncate(arch, ARCHIVE_LIMIT)), fetch));
  }
}
