/**
 * The 8kun scraper (8kunScraper.py): `clean_8kun_text`, the per-thread worker and the
 * `total_saved` count over the workers' results. The board client, the worker pool and the
 * CSV file are outside the model: a thread arrives as the list of its posts' `comment`
 * values, or `None` when it is empty or could not be read, and the pool's results arrive
 * as a list in any order.
 */
module EightKunScraper {
  import opened Wrappers
  import opened Strings
  import opened Patterns
  import opened Collections
  import opened Seqs

  const MIN_POST_LENGTH: nat := 10

  /**
   * `clean_8kun_text`: line breaks turned into spaces, every other tag removed, entities
   * decoded, then `>>digits` links and URLs removed and the ends stripped.
   */
  function Clean8kun(text: Option<string>): (r: string)
    ensures !Truthy(text) ==> r == ""
    ensures Stripped(r)
  {
    if !Truthy(text) then ""
    else
      var untagged := Sub(Tag(0), "", Sub(LineBreak, " ", text.value));
      Strip(Sub(Url, "", Sub(QuoteLink, "", DecodeEntities(untagged))))
  }

  /**
   * Line breaks are turned into spaces before the other tags are removed: each of `<br>`,
   * `<br/>` and `<br />` at the front becomes one space, and the rest is handled on its own.
   */
  lemma BreaksBecomeSpaces(x: string)
    ensures Sub(LineBreak, " ", "<br>" + x) == " " + Sub(LineBreak, " ", x)
    ensures Sub(LineBreak, " ", "<br/>" + x) == " " + Sub(LineBreak, " ", x)
    ensures Sub(LineBreak, " ", "<br />" + x) == " " + Sub(LineBreak, " ", x)
  {
    BreakVariants(x);
    DropPrefix("<br>", x);
    DropPrefix("<br/>", x);
    DropPrefix("<br />", x);
  }

  /** A text without `<` has no line break and no tag to remove. */
  lemma NoTagText(s: string)
    requires '<' !in s
    ensures Sub(Tag(0), "", Sub(LineBreak, " ", s)) == s
  {
    assert Sub(LineBreak, " ", s) == s by { StartsLineBreak(); SubAbsent(LineBreak, " ", s, '<'); }
    StartsTag(0);
    SubAbsent(Tag(0), "", s, '<');
  }

  /** The tag text `<x>` passes the link removal and the stripping unchanged. */
  lemma TagTextKept(x: string)
    requires '>' !in x && 'h' !in x
    ensures Strip(Sub(Url, "", Sub(QuoteLink, "", "<" + (x + ">")))) == "<" + (x + ">")
  {
    var d := "<" + (x + ">");
    assert Sub(QuoteLink, "", d) == d by {
      assert d == ("<" + x) + ">";
      StartsQuoteLink();
      SubAbsentPrefix(QuoteLink, "", "<" + x, ">", '>');
      assert MatchLen(QuoteLink, ">") == 0;
      assert Sub(QuoteLink, "", ">") == ">" + Sub(QuoteLink, "", []);
    }
    assert 'h' !in d;
    assert Sub(Url, "", d) == d by { StartsUrl(); SubAbsent(Url, "", d, 'h'); }
    assert Stripped(d) by {
      PrintableNotWhitespace('<');
      PrintableNotWhitespace('>');
    }
    StripSlice(d);
  }

  /**
   * Tags are removed before entities are decoded, so an escaped tag is not removed: the text
   * `&lt;x&gt;` is cleaned to the tag text `<x>`.
   */
  lemma EscapedTagSurvives(x: string)
    requires '&' !in x && '<' !in x && '>' !in x && 'h' !in x
    ensures Clean8kun(Some("&lt;" + (x + "&gt;"))) == "<" + (x + ">")
  {
    assert '<' !in "&lt;" + (x + "&gt;");
    NoTagText("&lt;" + (x + "&gt;"));
    DecodeEscapedTag(x);
    TagTextKept(x);
  }

  /**
   * Quote links are removed after entities are decoded, so an escaped `>>digits` link is
   * removed as well: the text `&gt;&gt;d` for digits `d` is cleaned to nothing.
   */
  lemma EscapedQuoteRemoved(d: string)
    requires d != [] && AllChars(d, IsDigit)
    ensures Clean8kun(Some("&gt;" + ("&gt;" + d))) == ""
  {
    var s := "&gt;" + ("&gt;" + d);
    DigitLinkChars(d);
    NoTagText(s);
    DecodeEscapedQuote(d);
    var u := ">" + (">" + d);
    assert MatchLen(QuoteLink, u) == |u| by {
      assert ">>" <= u && u[2..] == d;
      RunLenAll(d, IsDigit);
    }
    assert u[|u|..] == [];
  }

  /** `scrape_8kun_thread` as a value: the cleaned posts longer than `MIN_POST_LENGTH`. */
  function WorkerPosts(thread: Option<seq<Option<string>>>): seq<string> {
    if thread.None? then [] else Gate(thread.value, Clean8kun, MIN_POST_LENGTH + 1)
  }

  /** The loop of `scrape_8kun_thread`. */
  method ScrapeThread(thread: Option<seq<Option<string>>>) returns (posts: seq<string>)
    ensures posts == WorkerPosts(thread)
  {
    if thread.None? {
      return [];
    }
    var comments := thread.value;
    posts := [];
    for k := 0 to |comments|
      invariant posts == Gate(comments[..k], Clean8kun, MIN_POST_LENGTH + 1)
    {
      var cleaned := Clean8kun(comments[k]);
      GatePrefix(comments, k, Clean8kun, MIN_POST_LENGTH + 1);
      if cleaned != [] && |cleaned| > MIN_POST_LENGTH {
        posts := posts + [cleaned];
      }
    }
    assert comments[..|comments|] == comments;
  }

  /**
   * A text is kept for a thread iff it is the cleaned comment of one of its posts and is
   * longer than `MIN_POST_LENGTH`; a kept text is stripped.
   */
  lemma WorkerKeeps(comments: seq<Option<string>>, p: string)
    ensures p in WorkerPosts(Some(comments)) <==>
      exists k :: 0 <= k < |comments| && Clean8kun(comments[k]) == p && |p| > MIN_POST_LENGTH
    ensures p in WorkerPosts(Some(comments)) ==> Stripped(p)
  {
    GateMembers(comments, Clean8kun, MIN_POST_LENGTH + 1, p);
  }

  /** The worker's result for each thread id, in the order of the ids. */
  function Results(ids: seq<int>, fetch: int -> Option<seq<Option<string>>>): seq<seq<string>> {
    MapAll(ids, id => WorkerPosts(fetch(id)))
  }

  /**
   * The writing loop of `run_8kun_scrape`. `arrivals` is the order in which `imap_unordered`
   * hands back the workers' results for `all_ids`; every post of every result becomes one
   * row, and `total_saved` is then the number of posts the workers kept, whatever the order.
   */
  method RunScrape(allIds: seq<int>, fetch: int -> Option<seq<Option<string>>>, arrivals: seq<seq<string>>)
    returns (rows: seq<string>, totalSaved: nat)
    requires multiset(arrivals) == multiset(Results(allIds, fetch))
    ensures rows == Flatten(arrivals)
    ensures totalSaved == |rows| == SumLen(Results(allIds, fetch))
    ensures multiset(rows) == multiset(Flatten(Results(allIds, fetch)))
  {
    rows, totalSaved := [], 0;
    for i := 0 to |arrivals|
      invariant rows == Flatten(arrivals[..i]) && totalSaved == |rows|
    {
      var postList := arrivals[i];
      for j := 0 to |postList|
        invariant rows == Flatten(arrivals[..i]) + postList[..j] && totalSaved == |rows|
      {
        assert postList[..j + 1] == postList[..j] + [postList[j]];
        rows := rows + [postList[j]];
        totalSaved := totalSaved + 1;
      }
      assert postList[..|postList|] == postList;
      assert arrivals[..i + 1][..i] == arrivals[..i];
    }
    assert arrivals[..|arrivals|] == arrivals;
    FlattenPermutation(arrivals, Results(allIds, fetch));
  }
}
