/**
 * The Soyjak Party trainer (SoyjakPartyTrainer.py): `clean_text` and the row cleaning that
 * feeds the batched training loop of `Batching.RunTraining`. `html.unescape` is a
 * parameter; a CSV row is the map `csv.DictReader` yields.
 */
module SoyjakPartyTrainer {
  import opened Wrappers
  import opened Strings
  import opened Patterns
  import opened Batching

  /** The characters `[*_~`#]` removes. */
  const MARKDOWN: set<char> := {'*', '_', '~', '`', '#'}

  /** Texts must be longer than this to be kept. */
  const MIN_LENGTH: nat := 20

  /** A character the cleaned text may contain: ASCII, not `>` and not Markdown. */
  predicate Plain(c: char) {
    IsAscii(c) && c != '>' && c !in MARKDOWN
  }

  /** `>` is never left once `replace('>', '')` has run. */
  predicate NoQuote(c: char) {
    c != '>'
  }

  /** `NoQuote` and not Markdown. */
  predicate NoMarkup(c: char) {
    c != '>' && c !in MARKDOWN
  }

  /**
   * Steps 2 to 6 of `clean_text` on the unescaped text: `>>digits` links removed, every `>`
   * removed, URLs removed, Markdown characters removed, whitespace normalised, and last
   * every non-ASCII character dropped.
   */
  function Cleaned(unescaped: string): (r: string)
    ensures AllChars(r, Plain)
  {
    var unquoted := Sub(Literal(">"), "", Sub(QuoteLink, "", unescaped));
    var unmarked := Sub(OneOf(MARKDOWN), "", Sub(Url, "", unquoted));
    NoMarkupChars(unescaped);
    var spaced := Strip(NormalizeSpaces(unmarked));
    NormalizeAllChars(unmarked, NoMarkup);
    StripChars(NormalizeSpaces(unmarked), NoMarkup);
    var r := AsciiOnly(spaced);
    assert forall i :: 0 <= i < |r| ==> r[i] in spaced;
    r
  }

  /** After the link, `>` and Markdown removal none of those characters is left. */
  lemma NoMarkupChars(s: string)
    ensures AllChars(Sub(OneOf(MARKDOWN), "", Sub(Url, "", Sub(Literal(">"), "", Sub(QuoteLink, "", s)))), NoMarkup)
  {
    var unquoted := Sub(Literal(">"), "", Sub(QuoteLink, "", s));
    CoversLiteral('>');
    SubRemoves(Literal(">"), "", Sub(QuoteLink, "", s), '>');
    assert AllChars(unquoted, NoQuote);
    var unlinked := Sub(Url, "", unquoted);
    SubAllChars(Url, "", unquoted, NoQuote);
    var unmarked := Sub(OneOf(MARKDOWN), "", unlinked);
    SubAllChars(OneOf(MARKDOWN), "", unlinked, NoQuote);
    SubOneOfRemoves(MARKDOWN, unlinked);
    assert forall i :: 0 <= i < |unmarked| ==> unmarked[i] != '>' && unmarked[i] !in MARKDOWN;
  }

  /**
   * `clean_text`: `None` for an empty text; otherwise the cleaned unescaped text, kept exactly
   * when it is longer than `MIN_LENGTH`. A kept text is ASCII and has no `>` and no Markdown character.
   */
  function CleanText(text: Option<string>, unescape: string -> string): (r: Option<string>)
    ensures !Truthy(text) ==> r.None?
    ensures r.Some? <==> Truthy(text) && |Cleaned(unescape(text.value))| > MIN_LENGTH
    ensures r.Some? ==> Truthy(text) && r.value == Cleaned(unescape(text.value))
    ensures r.Some? ==> |r.value| > MIN_LENGTH && AllChars(r.value, Plain)
  {
    if !Truthy(text) then None
    else
      var t := Cleaned(unescape(text.value));
      if |t| > MIN_LENGTH then Some(t) else None
  }

  /**
   * Non-ASCII characters are dropped after whitespace is normalised, so the kept text need
   * not be stripped: a non-ASCII word, a space and a plain word of more than `MIN_LENGTH`
   * characters come out as that space and the plain word.
   */
  lemma LeadingSpaceKept(c: char, w: string, unescape: string -> string)
    requires !IsAscii(c) && !IsWhitespace(c)
    requires |w| > MIN_LENGTH && NoWhitespace(w) && AllChars(w, Plain) && 'h' !in w
    requires unescape([c] + (" " + w)) == [c] + (" " + w)
    ensures CleanText(Some([c] + (" " + w)), unescape) == Some(" " + w)
    ensures !Stripped(" " + w)
  {
    CleanedTwoWords(c, w);
  }

  lemma CleanedTwoWords(c: char, w: string)
    requires !IsAscii(c) && !IsWhitespace(c)
    requires w != [] && NoWhitespace(w) && AllChars(w, Plain) && 'h' !in w
    ensures Cleaned([c] + (" " + w)) == " " + w
  {
    var s := [c] + (" " + w);
    SubsAbsent(c, w);
    NormalizeTwoWords([c], w);
    PlainText(c, w);
    StripSlice(s);
    AsciiTail(c, w);
  }

  lemma SubsAbsent(c: char, w: string)
    requires !IsAscii(c) && !IsWhitespace(c)
    requires w != [] && NoWhitespace(w) && AllChars(w, Plain) && 'h' !in w
    ensures var s := [c] + (" " + w);
      Sub(OneOf(MARKDOWN), "", Sub(Url, "", Sub(Literal(">"), "", Sub(QuoteLink, "", s)))) == s
  {
    var s := [c] + (" " + w);
    PlainText(c, w);
    assert Sub(QuoteLink, "", s) == s by { StartsQuoteLink(); SubAbsent(QuoteLink, "", s, '>'); }
    assert Sub(Literal(">"), "", s) == s by { StartsLiteral(">"); SubAbsent(Literal(">"), "", s, '>'); }
    assert Sub(Url, "", s) == s by { StartsUrl(); SubAbsent(Url, "", s, 'h'); }
    SubOneOfAbsent(MARKDOWN, "", s);
  }

  lemma PlainText(c: char, w: string)
    requires !IsAscii(c) && !IsWhitespace(c)
    requires w != [] && NoWhitespace(w) && AllChars(w, Plain) && 'h' !in w
    ensures var s := [c] + (" " + w); '>' !in s && 'h' !in s && forall i :: 0 <= i < |s| ==> s[i] !in MARKDOWN
    ensures Stripped([c] + (" " + w))
  {
    var s := [c] + (" " + w);
    assert forall i :: 2 <= i < |s| ==> s[i] == w[i - 2];
    assert s[|s| - 1] == w[|w| - 1];
  }

  lemma AsciiTail(c: char, w: string)
    requires !IsAscii(c) && AllChars(w, Plain)
    ensures AsciiOnly([c] + (" " + w)) == " " + w
  {
    var s := [c] + (" " + w);
    assert s[1..] == " " + w;
    assert (" " + w)[1..] == w;
    assert AllChars(w, IsAscii);
  }

  /** `row.get('text', '')`. */
  function Text(row: map<string, Option<string>>): Option<string> {
    if "text" in row then row["text"] else Some("")
  }

  /**
   * The texts the training loop batches are exactly the cleaned texts of rows that clean
   * to something; each is ASCII, has no `>` and no Markdown character and is longer than
   * `MIN_LENGTH`.
   */
  lemma TrainingTexts(rows: seq<map<string, Option<string>>>, unescape: string -> string, t: string)
    ensures t in Accepted(rows, row => CleanText(Text(row), unescape)) <==>
      exists i :: 0 <= i < |rows| && CleanText(Text(rows[i]), unescape) == Some(t)
    ensures t in Accepted(rows, row => CleanText(Text(row), unescape)) ==>
      |t| > MIN_LENGTH && AllChars(t, Plain)
  {
    var accept := row => CleanText(Text(row), unescape);
    AcceptedMembers(rows, accept, t);
    if t in Accepted(rows, accept) {
      var i :| 0 <= i < |rows| && accept(rows[i]) == Some(t) && t != [];
      assert CleanText(Text(rows[i]), unescape) == Some(t);
    }
  }
}
