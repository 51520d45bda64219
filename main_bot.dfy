/**
 * The Discord bot's own logic: the memegen.link caption filter and escaping of the
 * `meme` command, the session uptime of `stats`, the lines of `greentext`, and the
 * message handler of `CondoBot` with its seeded-then-unseeded response tiers and its
 * lifetime counters. The Markov model is a parameter: `seeded(seed)` stands for
 * `make_sentence_with_start(seed, ...)` (a raised exception being `None`) and
 * `unseeded` for the result of `make_sentence(...)`.
 */
module MainBot {
  import opened Wrappers
  import opened Strings
  import opened Patterns

  // ---------------------------------------------------------------- meme captions

  /** Words the caption filter swaps for milder ones. */
  const BAD_WORDS: map<string, string> := map["fucking" := "hecking", "shit" := "stuff", "hell" := "heck"]

  /** `bad_words.get(w.lower(), w)`. */
  function Substitute(w: string): string {
    if Lower(w) in BAD_WORDS then BAD_WORDS[Lower(w)] else w
  }

  function SubstituteAll(ws: seq<string>): (r: seq<string>)
    ensures |r| == |ws| && forall i :: 0 <= i < |ws| ==> r[i] == Substitute(ws[i])
  {
    seq(|ws|, i requires 0 <= i < |ws| => Substitute(ws[i]))
  }

  /** `filter_text(t)`: `" ".join(bad_words.get(w.lower(), w) for w in t.split())`. */
  function FilterText(t: string): (r: string)
    ensures Stripped(r) && SingleSpaced(r)
  {
    var ws := SubstituteAll(Split(t));
    ReplacementWords(Split(t));
    JoinWords(ws);
    JoinSpace(ws)
  }

  /** Lower-case ASCII letters are their own lower case and are not whitespace. */
  lemma LowerLetters(s: string)
    requires forall i :: 0 <= i < |s| ==> 'a' <= s[i] <= 'z'
    ensures Lower(s) == s && NoWhitespace(s)
  {
    forall i | 0 <= i < |s| ensures !IsWhitespace(s[i]) {
      PrintableNotWhitespace(s[i]);
    }
  }

  /** Each replacement is a lower-case word that is not itself a key. */
  lemma ReplacementValues(k: string)
    requires k in BAD_WORDS
    ensures var v := BAD_WORDS[k]; v != [] && Lower(v) == v && NoWhitespace(v) && v !in BAD_WORDS
  {
    var v := BAD_WORDS[k];
    assert v == "hecking" || v == "stuff" || v == "heck";
    LowerLetters(v);
  }

  lemma ReplacementWords(ws: seq<string>)
    requires Words(ws)
    ensures Words(SubstituteAll(ws))
  {
    forall i | 0 <= i < |ws| ensures Substitute(ws[i]) != [] && NoWhitespace(Substitute(ws[i])) {
      if Lower(ws[i]) in BAD_WORDS {
        ReplacementValues(Lower(ws[i]));
      }
    }
  }

  /**
   * The filter keeps the number of words; a word is changed exactly when its lower-case
   * form is one of the keys, and then it becomes that key's replacement.
   */
  lemma FilterTextWords(t: string)
    ensures |Split(FilterText(t))| == |Split(t)|
    ensures forall i :: 0 <= i < |Split(t)| ==>
      Split(FilterText(t))[i] == (if Lower(Split(t)[i]) in BAD_WORDS then BAD_WORDS[Lower(Split(t)[i])] else Split(t)[i])
    ensures forall i :: 0 <= i < |Split(t)| ==>
      (Split(FilterText(t))[i] != Split(t)[i] <==> Lower(Split(t)[i]) in BAD_WORDS)
  {
    var ws := Split(t);
    ReplacementWords(ws);
    SplitJoin(SubstituteAll(ws));
    forall i | 0 <= i < |ws| && Lower(ws[i]) in BAD_WORDS ensures Substitute(ws[i]) != ws[i] {
      ReplacementValues(Lower(ws[i]));
    }
  }

  /** Filtering twice is filtering once: no replacement is itself a key. */
  lemma FilterTextIdempotent(t: string)
    ensures FilterText(FilterText(t)) == FilterText(t)
  {
    var ws := SubstituteAll(Split(t));
    ReplacementWords(Split(t));
    SplitJoin(ws);
    assert Split(FilterText(t)) == ws;
    forall i | 0 <= i < |ws| ensures Substitute(ws[i]) == ws[i] {
      var w := Split(t)[i];
      if Lower(w) in BAD_WORDS {
        ReplacementValues(Lower(w));
      }
    }
    assert SubstituteAll(ws) == ws;
  }

  /** The characters `strip(".,!?;: ")` removes from the ends of a caption. */
  const CAPTION_TRIM: set<char> := {'.', ',', '!', '?', ';', ':', ' '}

  /** `filter_text(raw or fallback).strip(".,!?;: ")` for one caption line. */
  function Caption(raw: Option<string>, fallback: string): (r: string)
    ensures r == [] || (r[0] !in CAPTION_TRIM && r[|r| - 1] !in CAPTION_TRIM)
    ensures forall i :: 0 <= i < |r| ==> r[i] in FilterText(if Truthy(raw) then raw.value else fallback)
  {
    StripCharSet(FilterText(if Truthy(raw) then raw.value else fallback), CAPTION_TRIM)
  }

  /** The `replace` calls of `clean`, in the order they are applied. */
  const ESCAPES: seq<(char, string)> := [
    ('?', "~q"), ('/', "~s"), ('#', "~h"), ('%', "~p"), ('.', "~d"), ('\'', "''"), (' ', "_")
  ]

  /** `t.replace(c1, r1).replace(c2, r2)...` for the pairs of `es`. */
  function ReplaceChain(es: seq<(char, string)>, t: string): string
    decreases |es|
  {
    if es == [] then t else ReplaceChain(es[1..], Sub(Literal([es[0].0]), es[0].1, t))
  }

  /** `clean(t)`: the chain of `replace` calls that escapes a caption for memegen.link. */
  function Clean(t: string): string {
    ReplaceChain(ESCAPES, t)
  }

  /** The memegen.link escape of one character. */
  function Escape(c: char): string {
    if c == '?' then "~q"
    else if c == '/' then "~s"
    else if c == '#' then "~h"
    else if c == '%' then "~p"
    else if c == '.' then "~d"
    else if c == '\'' then "''"
    else if c == ' ' then "_"
    else [c]
  }

  /** Every character replaced by its escape. */
  function EscapeAll(t: string): string {
    if t == [] then [] else Escape(t[0]) + EscapeAll(t[1..])
  }

  /** A chain of character replacements distributes over concatenation. */
  lemma {:induction false} ChainAppend(es: seq<(char, string)>, a: string, b: string)
    ensures ReplaceChain(es, a + b) == ReplaceChain(es, a) + ReplaceChain(es, b)
    decreases |es|
  {
    if es != [] {
      SubCharAppend(es[0].0, es[0].1, a, b);
      ChainAppend(es[1..], Sub(Literal([es[0].0]), es[0].1, a), Sub(Literal([es[0].0]), es[0].1, b));
    }
  }

  lemma CleanAppend(a: string, b: string)
    ensures Clean(a + b) == Clean(a) + Clean(b)
  {
    ChainAppend(ESCAPES, a, b);
  }

  /** No replacement produces a character that a later replacement rewrites. */
  predicate Closed(es: seq<(char, string)>) {
    forall i, j :: 0 <= i < j < |es| ==> es[j].0 !in es[i].1
  }

  /** The replacement of the first pair for `x`, or `x` itself when no pair names it. */
  function Lookup(es: seq<(char, string)>, x: char): string {
    if es == [] then [x] else if es[0].0 == x then es[0].1 else Lookup(es[1..], x)
  }

  /** A text none of whose characters a chain names passes it unchanged. */
  lemma {:induction false} ChainAbsent(es: seq<(char, string)>, s: string)
    requires forall k :: 0 <= k < |es| ==> es[k].0 !in s
    ensures ReplaceChain(es, s) == s
    decreases |es|
  {
    if es != [] {
      SubCharAbsent(es[0].0, es[0].1, s);
      ChainAbsent(es[1..], s);
    }
  }

  /** In a closed chain one character comes out as the replacement of the first pair naming it. */
  lemma {:induction false} ChainChar(es: seq<(char, string)>, x: char)
    requires Closed(es)
    ensures ReplaceChain(es, [x]) == Lookup(es, x)
    decreases |es|
  {
    if es != [] {
      var e := es[1..];
      SubCharSingle(es[0].0, es[0].1, x);
      if es[0].0 == x {
        assert forall k :: 0 <= k < |e| ==> e[k].0 !in es[0].1 by {
          assert forall k :: 0 <= k < |e| ==> e[k] == es[k + 1];
        }
        ChainAbsent(e, es[0].1);
      } else {
        assert Closed(e) by {
          assert forall k :: 0 <= k < |e| ==> e[k] == es[k + 1];
        }
        ChainChar(e, x);
      }
    }
  }

  lemma EscapesClosed()
    ensures Closed(ESCAPES)
  {
  }

  /** The first pair naming `x` gives the escape of `x`. */
  lemma LookupEscapes(x: char)
    ensures Lookup(ESCAPES, x) == Escape(x)
  {
    var e7 := [(' ', "_")];
    var e6 := [('\'', "''")] + e7;
    var e5 := [('.', "~d")] + e6;
    var e4 := [('%', "~p")] + e5;
    var e3 := [('#', "~h")] + e4;
    var e2 := [('/', "~s")] + e3;
    assert ESCAPES == [('?', "~q")] + e2;
    assert e2[1..] == e3 && e3[1..] == e4 && e4[1..] == e5 && e5[1..] == e6 && e6[1..] == e7;
    assert e7[1..] == [];
    assert Lookup(e7, x) == if x == ' ' then "_" else [x];
    assert Lookup(e6, x) == if x == '\'' then "''" else Lookup(e7, x);
    assert Lookup(e5, x) == if x == '.' then "~d" else Lookup(e6, x);
    assert Lookup(e4, x) == if x == '%' then "~p" else Lookup(e5, x);
    assert Lookup(e3, x) == if x == '#' then "~h" else Lookup(e4, x);
    assert Lookup(e2, x) == if x == '/' then "~s" else Lookup(e3, x);
  }

  /** Every character is escaped by the one `replace` that names it and left alone by the others. */
  lemma CleanChar(x: char)
    ensures Clean([x]) == Escape(x)
  {
    EscapesClosed();
    ChainChar(ESCAPES, x);
    LookupEscapes(x);
  }

  /**
   * The `replace` chain is a character-by-character escape: no replacement produces a
   * character that a later replacement rewrites.
   */
  lemma {:induction false} CleanIsEscape(t: string)
    ensures Clean(t) == EscapeAll(t)
  {
    if t != [] {
      assert t == [t[0]] + t[1..];
      CleanAppend([t[0]], t[1..]);
      CleanChar(t[0]);
      CleanIsEscape(t[1..]);
    }
  }

  /** The characters that cost one extra output character each. */
  const DOUBLED: set<char> := {'?', '/', '#', '%', '.', '\''}

  /** The characters that never survive escaping. */
  const UNSAFE: set<char> := {'?', '/', '#', '%', '.', ' '}

  function CountIn(t: string, cs: set<char>): (n: nat)
    ensures n <= |t|
  {
    if t == [] then 0 else (if t[0] in cs then 1 else 0) + CountIn(t[1..], cs)
  }

  /** The escaped caption is one character longer per `? / # % . '` of the input. */
  lemma {:induction false} CleanLength(t: string)
    ensures |Clean(t)| == |t| + CountIn(t, DOUBLED)
  {
    CleanIsEscape(t);
    EscapeAllLength(t);
  }

  lemma {:induction false} EscapeAllLength(t: string)
    ensures |EscapeAll(t)| == |t| + CountIn(t, DOUBLED)
  {
    if t != [] {
      EscapeAllLength(t[1..]);
    }
  }

  /** No `? / # % .` and no space is left in an escaped caption. */
  lemma {:induction false} CleanSafe(t: string)
    ensures forall i :: 0 <= i < |Clean(t)| ==> Clean(t)[i] !in UNSAFE
  {
    CleanIsEscape(t);
    EscapeAllSafe(t);
  }

  lemma {:induction false} EscapeAllSafe(t: string)
    ensures forall i :: 0 <= i < |EscapeAll(t)| ==> EscapeAll(t)[i] !in UNSAFE
  {
    if t != [] {
      EscapeAllSafe(t[1..]);
      var e := Escape(t[0]);
      assert forall i :: 0 <= i < |e| ==> e[i] !in UNSAFE;
      var r := EscapeAll(t);
      assert r == e + EscapeAll(t[1..]);
      forall i | 0 <= i < |r| ensures r[i] !in UNSAFE {
        if i >= |e| {
          assert r[i] == EscapeAll(t[1..])[i - |e|];
        }
      }
    }
  }

  // ---------------------------------------------------------------- stats

  /** `divmod(uptime, 3600)` then `divmod(remainder, 60)`, with Python's floor division. */
  function Uptime(seconds: int): (hms: (int, int, int))
    ensures hms.0 * 3600 + hms.1 * 60 + hms.2 == seconds
    ensures 0 <= hms.1 < 60 && 0 <= hms.2 < 60
    ensures seconds >= 0 ==> hms.0 >= 0
  {
    var hours := seconds / 3600;
    var remainder := seconds % 3600;
    (hours, remainder / 60, remainder % 60)
  }

  /** The hours-minutes-seconds split is the only one with minutes and seconds below 60. */
  lemma UptimeUnique(seconds: int, h: int, m: int, s: int)
    requires h * 3600 + m * 60 + s == seconds
    requires 0 <= m < 60 && 0 <= s < 60
    ensures Uptime(seconds) == (h, m, s)
  {
    var rest := m * 60 + s;
    assert 0 <= rest < 3600;
    assert seconds == h * 3600 + rest;
    assert seconds / 3600 == h && seconds % 3600 == rest;
    assert rest / 60 == m && rest % 60 == s;
  }

  // ---------------------------------------------------------------- greentext

  const REACTIONS: seq<string> := ["tfw", "mfw", "pic unrelated"]

  /** The story lines: one `\\>`-prefixed, lower-cased line per non-empty generated sentence. */
  function GreenLines(generated: seq<Option<string>>): (lines: seq<string>)
    ensures |lines| <= |generated|
  {
    if generated == [] then []
    else
      var p := generated[..|generated| - 1];
      var g := generated[|generated| - 1];
      if Truthy(g) then GreenLines(p) + ["\\>" + Lower(g.value)] else GreenLines(p)
  }

  /**
   * Every story line is `\\>` and some text; there is one line per sentence when every
   * sentence is non-empty, and none when every sentence is empty.
   */
  lemma {:induction false} GreenLinesShape(generated: seq<Option<string>>)
    ensures var lines := GreenLines(generated);
      forall i :: 0 <= i < |lines| ==> |lines[i]| > 2 && lines[i][..2] == "\\>"
    ensures (forall g :: g in generated ==> Truthy(g)) ==> |GreenLines(generated)| == |generated|
    ensures (forall g :: g in generated ==> !Truthy(g)) ==> GreenLines(generated) == []
  {
    if generated != [] {
      var p := generated[..|generated| - 1];
      var g := generated[|generated| - 1];
      GreenLinesShape(p);
      assert forall x :: x in p ==> x in generated;
      if Truthy(g) {
        var line := "\\>" + Lower(g.value);
        assert |line| > 2 && line[..2] == "\\>";
        var lines := GreenLines(generated);
        assert lines == GreenLines(p) + [line];
        assert forall i :: 0 <= i < |GreenLines(p)| ==> lines[i] == GreenLines(p)[i];
      }
    }
  }

  lemma GreenLinesStep(generated: seq<Option<string>>, i: nat)
    requires i < |generated|
    ensures Truthy(generated[i]) ==>
      GreenLines(generated[..i + 1]) == GreenLines(generated[..i]) + ["\\>" + Lower(generated[i].value)]
    ensures !Truthy(generated[i]) ==> GreenLines(generated[..i + 1]) == GreenLines(generated[..i])
  {
    assert generated[..i + 1][..i] == generated[..i];
  }

  /** `greentext`: `\>be me`, the generated lines, then `\>` and the chosen reaction. */
  method Greentext(generated: seq<Option<string>>, choice: nat) returns (lines: seq<string>)
    requires choice < |REACTIONS|
    ensures lines == ["\\>be me"] + GreenLines(generated) + ["\\>" + REACTIONS[choice]]
    ensures 2 <= |lines| <= |generated| + 2
    ensures lines[0] == "\\>be me" && lines[|lines| - 1] == "\\>" + REACTIONS[choice]
  {
    lines := ["\\>be me"];
    var i := 0;
    while i < |generated|
      invariant 0 <= i <= |generated|
      invariant lines == ["\\>be me"] + GreenLines(generated[..i])
    {
      GreenLinesStep(generated, i);
      var line := generated[i];
      if Truthy(line) {
        lines := lines + ["\\>" + Lower(line.value)];
      }
      i := i + 1;
    }
    assert generated[..i] == generated;
    lines := lines + ["\\>" + REACTIONS[choice]];
  }

  // ---------------------------------------------------------------- on_message

  /** The outcome of the three response tiers. */
  datatype Attempt = Attempt(seeds: seq<string>, unseededRan: bool, response: Option<string>)

  /**
   * The response tiers: the last two words as a seed, then the last word alone, then
   * no seed; each later tier runs only when the earlier ones gave nothing.
   */
  function Respond(words: seq<string>, seeded: string -> Option<string>, unseeded: Option<string>): (a: Attempt)
    ensures |words| >= 2 ==> |a.seeds| >= 1 && a.seeds[0] == words[|words| - 2] + " " + words[|words| - 1]
    ensures |a.seeds| <= 2 && (|words| == 0 <==> a.seeds == [])
    ensures |words| >= 1 && (|words| < 2 || !Truthy(seeded(a.seeds[0])))
      ==> a.seeds[|a.seeds| - 1] == words[|words| - 1]
    ensures |a.seeds| == 2 ==> !Truthy(seeded(a.seeds[0]))
    ensures a.unseededRan <==> a.seeds == [] || !Truthy(seeded(a.seeds[|a.seeds| - 1]))
    ensures a.response == if a.unseededRan then unseeded else seeded(a.seeds[|a.seeds| - 1])
  {
    var first := if |words| >= 2 then [words[|words| - 2] + " " + words[|words| - 1]] else [];
    var firstOk := first != [] && Truthy(seeded(first[0]));
    var seeds := first + if !firstOk && |words| >= 1 then [words[|words| - 1]] else [];
    if seeds != [] && Truthy(seeded(seeds[|seeds| - 1])) then Attempt(seeds, false, seeded(seeds[|seeds| - 1]))
    else Attempt(seeds, true, unseeded)
  }

  /** A snapshot of the lifetime counters, as `save_stats` writes them. */
  datatype Stats = Stats(messagesSeen: int, responsesSent: int, randomChats: int)

  /**
   * What the handler needs to know about an incoming message: whether its author is a
   * bot, its text, whether it mentions the bot and whether it replies to one of the
   * bot's own messages.
   */
  datatype Message = Message(authorIsBot: bool, content: string, mentionsBot: bool, repliesToBot: bool)

  /** A reply to the message itself, or a plain post in its channel. */
  datatype Delivery = Reply | ChannelSend

  datatype Outgoing = Outgoing(text: string, delivery: Delivery)

  /** `stats.get(key, 0)`. */
  function GetOrZero(loaded: map<string, int>, key: string): (n: int)
    ensures key !in loaded ==> n == 0
    ensures key in loaded ==> n == loaded[key]
  {
    if key in loaded then loaded[key] else 0
  }

  /**
   * The message text with the bot's nickname and user mention tokens removed, split into
   * words; the `strip()` before the split changes nothing.
   */
  function MessageWords(content: string, userId: string): (r: seq<string>)
    ensures Words(r)
    ensures r == Split(Sub(Literal("<@" + userId + ">"), "", Sub(Literal("<@!" + userId + ">"), "", content)))
  {
    var noNick := Sub(Literal("<@!" + userId + ">"), "", content);
    var noMention := Sub(Literal("<@" + userId + ">"), "", noNick);
    SplitStrip(noMention);
    Split(Strip(noMention))
  }

  /** Whether the handler generates anything for a message that passed the early returns. */
  predicate Addressed(msg: Message, randomChatter: bool) {
    msg.mentionsBot || msg.repliesToBot || randomChatter
  }

  /** Whether a message reaches the response tiers at all. */
  predicate Considered(msg: Message, randomChatter: bool) {
    !msg.authorIsBot && !("!" <= msg.content) && Addressed(msg, randomChatter)
  }

  /**
   * What `on_message` sends, given the words of the message: nothing for bot authors,
   * commands and messages that are neither a ping, a reply nor picked by chance;
   * otherwise the lower-cased response of the tiers, if there is one, as a reply when
   * the bot was addressed and as a channel message when it chimes in at random.
   */
  function Reaction(msg: Message, randomChatter: bool, words: seq<string>,
                    seeded: string -> Option<string>, unseeded: Option<string>): (sent: Option<Outgoing>)
    ensures sent.Some? ==> Considered(msg, randomChatter)
  {
    if !Considered(msg, randomChatter) then None
    else
      var a := Respond(words, seeded, unseeded);
      if Truthy(a.response) then
        Some(Outgoing(Lower(a.response.value), if msg.mentionsBot || msg.repliesToBot then Reply else ChannelSend))
      else None
  }

  /**
   * A response is sent exactly when the message reaches the tiers and they produce a
   * non-empty text; it is that text lower-cased, and it is a reply exactly when the bot
   * was pinged or replied to.
   */
  lemma ReactionSpec(msg: Message, randomChatter: bool, words: seq<string>,
                     seeded: string -> Option<string>, unseeded: Option<string>)
    ensures var sent := Reaction(msg, randomChatter, words, seeded, unseeded);
      var a := Respond(words, seeded, unseeded);
      && (sent.Some? <==> Considered(msg, randomChatter) && Truthy(a.response))
      && (sent.Some? ==> sent.value.text == Lower(a.response.value))
      && (sent.Some? ==> (sent.value.delivery == Reply <==> msg.mentionsBot || msg.repliesToBot))
  {
  }

  /** The fallback block of `on_message`: `response` is reassigned tier by tier. */
  method ChooseResponse(words: seq<string>, seeded: string -> Option<string>, unseeded: Option<string>)
    returns (response: Option<string>)
    ensures response == Respond(words, seeded, unseeded).response
  {
    response := None;
    if |words| >= 2 {
      response := seeded(words[|words| - 2] + " " + words[|words| - 1]);
    }
    if !Truthy(response) && |words| >= 1 {
      response := seeded(words[|words| - 1]);
    }
    if !Truthy(response) {
      response := unseeded;
    }
  }

  /** The bot with its lifetime counters; `saved` is what `save_stats` has written so far. */
  class CondoBot {
    const userId: string
    var messagesSeen: int
    var responsesSent: int
    var randomChats: int
    var saved: seq<Stats>

    function Current(): Stats
      reads this
    {
      Stats(messagesSeen, responsesSent, randomChats)
    }

    /** The counters start from the loaded statistics, each defaulting to 0. */
    constructor (userId: string, loaded: map<string, int>)
      ensures this.userId == userId && saved == []
      ensures messagesSeen == GetOrZero(loaded, "messages_seen")
      ensures responsesSent == GetOrZero(loaded, "responses_sent")
      ensures randomChats == GetOrZero(loaded, "random_chats")
    {
      this.userId := userId;
      messagesSeen := GetOrZero(loaded, "messages_seen");
      responsesSent := GetOrZero(loaded, "responses_sent");
      randomChats := GetOrZero(loaded, "random_chats");
      saved := [];
    }

    method SaveStats()
      modifies this
      ensures saved == old(saved) + [old(Current())]
      ensures messagesSeen == old(messagesSeen) && responsesSent == old(responsesSent)
      ensures randomChats == old(randomChats)
    {
      saved := saved + [Current()];
    }

    /**
     * `on_message`, with the chat-chance draw as `randomChatter`. Every message not
     * written by a bot is counted, and the counters are saved whenever that count is a
     * multiple of 10; a sent response is counted, saved, and counted as a random chat
     * when only the chance draw caused it.
     */
    method OnMessage(msg: Message, randomChatter: bool,
                     seeded: string -> Option<string>, unseeded: Option<string>)
      returns (sent: Option<Outgoing>)
      modifies this
      ensures sent == Reaction(msg, randomChatter, MessageWords(msg.content, userId), seeded, unseeded)
      ensures messagesSeen == old(messagesSeen) + (if msg.authorIsBot then 0 else 1)
      ensures responsesSent == old(responsesSent) + (if sent.Some? then 1 else 0)
      ensures randomChats == old(randomChats) +
        (if sent.Some? && randomChatter && !(msg.mentionsBot || msg.repliesToBot) then 1 else 0)
      ensures msg.authorIsBot ==> sent.None? && saved == old(saved)
      ensures !msg.authorIsBot && messagesSeen % 10 == 0 && sent.None? ==>
        saved == old(saved) + [Stats(messagesSeen, old(responsesSent), old(randomChats))]
      ensures !msg.authorIsBot && messagesSeen % 10 == 0 && sent.Some? ==>
        saved == old(saved) + [Stats(messagesSeen, old(responsesSent), old(randomChats)), Current()]
      ensures !msg.authorIsBot && messagesSeen % 10 != 0 && sent.None? ==> saved == old(saved)
      ensures !msg.authorIsBot && messagesSeen % 10 != 0 && sent.Some? ==> saved == old(saved) + [Current()]
    {
      sent := None;
      if msg.authorIsBot {
        return;
      }
      messagesSeen := messagesSeen + 1;
      if messagesSeen % 10 == 0 {
        SaveStats();
      }
      if !("!" <= msg.content) && Addressed(msg, randomChatter) {
        sent := Answer(msg, randomChatter, seeded, unseeded);
      }
    }

    /** The part of `on_message` after the early returns, for a ping, a reply or a chance pick. */
    method Answer(msg: Message, randomChatter: bool,
                  seeded: string -> Option<string>, unseeded: Option<string>)
      returns (sent: Option<Outgoing>)
      requires Considered(msg, randomChatter)
      modifies this
      ensures sent == Reaction(msg, randomChatter, MessageWords(msg.content, userId), seeded, unseeded)
      ensures messagesSeen == old(messagesSeen)
      ensures responsesSent == old(responsesSent) + (if sent.Some? then 1 else 0)
      ensures randomChats == old(randomChats) +
        (if sent.Some? && randomChatter && !(msg.mentionsBot || msg.repliesToBot) then 1 else 0)
      ensures saved == old(saved) + (if sent.Some? then [Current()] else [])
    {
      var isPinged := msg.mentionsBot;
      var isReply := msg.repliesToBot;
      var words := MessageWords(msg.content, userId);
      var response := ChooseResponse(words, seeded, unseeded);
      sent := None;
      if Truthy(response) {
        if randomChatter && !(isPinged || isReply) {
          randomChats := randomChats + 1;
        }
        responsesSent := responsesSent + 1;
        SaveStats();
        var delivery := if isPinged || isReply then Reply else ChannelSend;
        sent := Some(Outgoing(Lower(response.value), delivery));
      }
    }
  }
}
