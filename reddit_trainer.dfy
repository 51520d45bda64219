/**
 * The Reddit trainer (RedditTrainer.py): `clean_text` and the row cleaning that feeds the
 * batched training loop of `Batching.RunTraining`. A CSV row is the map `csv.DictReader`
 * yields, in which a field missing from a short row is `None`.
 */
module RedditTrainer {
  import opened Wrappers
  import opened Strings
  import opened Patterns
  import opened Batching

  /** Texts containing any of these are bot messages or removed content. */
  const JUNK_PATTERNS: seq<string> := [
    "I am a bot",
    "automatically removed",
    "[removed]",
    "[deleted]",
    "Hi! Thank-you for your comment"
  ]

  /** The Markdown characters `[*_~>`#]` removes. */
  const MARKDOWN: set<char> := {'*', '_', '~', '>', '`', '#'}

  /** Texts must be longer than this to be kept. */
  const MIN_LENGTH: nat := 20

  /** `any(pattern in text for pattern in junk_patterns)`. */
  predicate Junk(text: string) {
    exists k :: 0 <= k < |JUNK_PATTERNS| && Contains(text, JUNK_PATTERNS[k])
  }

  /** A character the cleaned text may contain: ASCII and not Markdown. */
  predicate Plain(c: char) {
    IsAscii(c) && c !in MARKDOWN
  }

  /**
   * Steps 2 to 4 of `clean_text`: non-ASCII characters dropped, links and user or
   * subreddit tags removed, Markdown characters removed, whitespace normalised.
   */
  function Normalized(text: string): (r: string)
    ensures AllChars(r, Plain)
    ensures Stripped(r) && SingleSpaced(r)
  {
    var ascii := AsciiOnly(text);
    var unlinked := Sub(RedditLink, "", ascii);
    var plain := Sub(OneOf(MARKDOWN), "", unlinked);
    PlainChars(ascii);
    var spaced := NormalizeSpaces(plain);
    NormalizeAllChars(plain, Plain);
    StripChars(spaced, Plain);
    StripSingleSpaced(spaced);
    Strip(spaced)
  }

  /** After the link and Markdown removal only plain characters are left. */
  lemma PlainChars(ascii: string)
    requires AllChars(ascii, IsAscii)
    ensures AllChars(Sub(OneOf(MARKDOWN), "", Sub(RedditLink, "", ascii)), Plain)
  {
    var unlinked := Sub(RedditLink, "", ascii);
    SubAllChars(RedditLink, "", ascii, IsAscii);
    var plain := Sub(OneOf(MARKDOWN), "", unlinked);
    SubAllChars(OneOf(MARKDOWN), "", unlinked, IsAscii);
    SubOneOfRemoves(MARKDOWN, unlinked);
    assert forall i :: 0 <= i < |plain| ==> IsAscii(plain[i]) && plain[i] !in MARKDOWN;
  }

  /**
   * `clean_text`: `None` for an empty text and for junk; otherwise the normalised text,
   * kept exactly when it is longer than `MIN_LENGTH`. A kept text is plain, stripped and
   * single-spaced, and came from a text that is not junk.
   */
  function CleanText(text: Option<string>): (r: Option<string>)
    ensures !Truthy(text) ==> r.None?
    ensures Truthy(text) && Junk(text.value) ==> r.None?
    ensures r.Some? <==> Truthy(text) && !Junk(text.value) && |Normalized(text.value)| > MIN_LENGTH
    ensures r.Some? ==> Truthy(text) && !Junk(text.value) && r.value == Normalized(text.value)
    ensures r.Some? ==> |r.value| > MIN_LENGTH && AllChars(r.value, Plain)
    ensures r.Some? ==> Stripped(r.value) && SingleSpaced(r.value)
  {
    if !Truthy(text) || Junk(text.value) then None
    else
      var t := Normalized(text.value);
      if |t| > MIN_LENGTH then Some(t) else None
  }

  /** A text that has one of the junk patterns anywhere in it is dropped. */
  lemma JunkDropped(a: string, k: nat, b: string)
    requires k < |JUNK_PATTERNS|
    ensures CleanText(Some(a + (JUNK_PATTERNS[k] + b))).None?
  {
    ContainsInfix(a, JUNK_PATTERNS[k], b);
  }

  /** Every junk pattern starts with one of `I`, `a`, `[` and `H`. */
  lemma NotJunk(text: string)
    requires forall i :: 0 <= i < |text| ==> text[i] !in {'I', 'a', '[', 'H'}
    ensures !Junk(text)
  {
    forall k | 0 <= k < |JUNK_PATTERNS| ensures !Contains(text, JUNK_PATTERNS[k]) {
      var p := JUNK_PATTERNS[k];
      assert p[0] in {'I', 'a', '[', 'H'};
      ContainsFirst(text, p);
    }
  }

  /**
   * A text with none of the characters that start a junk pattern is kept exactly when its
   * normalised form is long enough.
   */
  lemma NotJunkKept(text: string)
    requires forall i :: 0 <= i < |text| ==> text[i] !in {'I', 'a', '[', 'H'}
    requires |Normalized(text)| > MIN_LENGTH
    ensures CleanText(Some(text)) == Some(Normalized(text))
  {
    NotJunk(text);
  }

  /** A `/u/` user tag or an `/r/` subreddit tag is removed up to the next whitespace. */
  lemma TagsRemoved(w: string)
    requires w != [] && NoWhitespace(w)
    ensures Sub(RedditLink, "", "/u/" + w) == ""
    ensures Sub(RedditLink, "", "/r/" + w) == ""
  {
    assert AllChars(w, NotWhitespace);
    RunLenAll(w, NotWhitespace);
    var u, r := "/u/" + w, "/r/" + w;
    assert MatchLen(RedditLink, u) == |u| by {
      assert u[0] == '/' && u[3..] == w;
    }
    assert u[|u|..] == [];
    assert MatchLen(RedditLink, r) == |r| by {
      assert r[0] == '/' && r[1] == 'r' && r[3..] == w;
    }
    assert r[|r|..] == [];
  }

  /** `row.get('content', '')`. */
  function Content(row: map<string, Option<string>>): Option<string> {
    if "content" in row then row["content"] else Some("")
  }

  /** The cleaner `run_training` applies to each row. */
  function CleanRow(row: map<string, Option<string>>): Option<string> {
    CleanText(Content(row))
  }

  /**
   * The texts the training loop batches are exactly the cleaned contents of rows that
   * clean to something; each is plain, stripped, single-spaced and longer than `MIN_LENGTH`,
   * and no row it came from is junk.
   */
  lemma TrainingTexts(rows: seq<map<string, Option<string>>>, t: string)
    ensures t in Accepted(rows, CleanRow) <==>
      exists i :: 0 <= i < |rows| && CleanText(Content(rows[i])) == Some(t)
    ensures t in Accepted(rows, CleanRow) ==>
      |t| > MIN_LENGTH && AllChars(t, Plain) && Stripped(t) && SingleSpaced(t)
  {
    AcceptedMembers(rows, CleanRow, t);
    if t in Accepted(rows, CleanRow) {
      var i :| 0 <= i < |rows| && CleanRow(rows[i]) == Some(t) && t != [];
      assert CleanText(Content(rows[i])) == Some(t);
    }
  }
}
