/**
 * The regular-expression substitutions the cleaners perform, one `Pattern` per
 * expression in the source, under the rules of Python's `re.sub`: the text is
 * scanned left to right, at each position the first alternative that matches is
 * taken with its quantifiers as long as they can be, matches never overlap, and
 * the replacement is not scanned again. `str.replace(old, new)` obeys the same
 * rules and is the `Literal` pattern.
 */
module Patterns {
  import opened Strings
  import opened Seqs

  datatype Pattern =
    | Literal(text: string)      // str.replace(text, ...)
    | OneOf(chars: set<char>)    // a character class such as [*_~`#]
    | WhitespaceRun              // \s+
    | NewlineRun                 // \n+
    | QuoteLink                  // >>\d+
    | Tag(minInner: nat)         // <[^>]+> when minInner is 1, <[^>]*> when it is 0
    | LineBreak                  // <br\s*/?>
    | Url                        // http\S+
    | RedditLink                 // http\S+|/u/\S+|/r/\S+
    | DiscordToken               // <@!?\d+>|<@&\d+>|http\S+

  /** Number of leading characters of `s` that satisfy `p`. */
  function RunLen(s: string, p: char -> bool): (n: nat)
    ensures n <= |s|
    ensures forall i :: 0 <= i < n ==> p(s[i])
    ensures n < |s| ==> !p(s[n])
  {
    if s != [] && p(s[0]) then 1 + RunLen(s[1..], p) else 0
  }

  /** `pre` followed by as many characters satisfying `p` as there are, at least one. */
  function PrefixRun(pre: string, p: char -> bool, s: string): (k: nat)
    ensures k <= |s|
    ensures k > 0 ==> pre <= s && k > |pre|
  {
    if pre <= s then
      var n := RunLen(s[|pre|..], p);
      if n > 0 then |pre| + n else 0
    else 0
  }

  /** `pre`, one or more digits, then `>`. */
  function Bracketed(pre: string, s: string): (k: nat)
    ensures k <= |s|
    ensures k > 0 ==> pre <= s
  {
    if pre <= s then
      var n := RunLen(s[|pre|..], IsDigit);
      if n > 0 && |pre| + n < |s| && s[|pre| + n] == '>' then |pre| + n + 1 else 0
    else 0
  }

  /** `<br`, any whitespace, an optional `/`, then `>`. */
  function BreakLen(s: string): (k: nat)
    ensures k <= |s|
    ensures k > 0 ==> "<br" <= s
  {
    if "<br" <= s then
      var j := 3 + RunLen(s[3..], IsWhitespace);
      if j + 1 < |s| && s[j] == '/' && s[j + 1] == '>' then j + 2
      else if j < |s| && s[j] == '>' then j + 1
      else 0
    else 0
  }

  /** `<`, at least `minInner` characters other than `>`, then `>`. */
  function TagLen(minInner: nat, s: string): (k: nat)
    ensures k <= |s|
    ensures k > 0 ==> s[0] == '<'
  {
    if s != [] && s[0] == '<' then
      var j := RunLen(s[1..], c => c != '>');
      if minInner <= j && 1 + j < |s| then j + 2 else 0
    else 0
  }

  /** Length of the match of `p` at the start of `s`; 0 when there is none. */
  function MatchLen(p: Pattern, s: string): (k: nat)
    ensures k <= |s|
  {
    match p
    case Literal(t) => if t != [] && t <= s then |t| else 0
    case OneOf(cs) => if s != [] && s[0] in cs then 1 else 0
    case WhitespaceRun => RunLen(s, IsWhitespace)
    case NewlineRun => RunLen(s, c => c == '\n')
    case QuoteLink => PrefixRun(">>", IsDigit, s)
    case Tag(m) => TagLen(m, s)
    case LineBreak => BreakLen(s)
    case Url => PrefixRun("http", NotWhitespace, s)
    case RedditLink =>
      var a := PrefixRun("http", NotWhitespace, s);
      if a > 0 then a
      else
        var b := PrefixRun("/u/", NotWhitespace, s);
        if b > 0 then b else PrefixRun("/r/", NotWhitespace, s)
    case DiscordToken =>
      var a := Bracketed("<@!", s);
      if a > 0 then a
      else
        var b := Bracketed("<@", s);
        if b > 0 then b
        else
          var c := Bracketed("<@&", s);
          if c > 0 then c else PrefixRun("http", NotWhitespace, s)
  }

  /** Python's `re.sub(p, rep, s)` (and `s.replace(text, rep)` for a `Literal`). */
  function Sub(p: Pattern, rep: string, s: string): (r: string)
    ensures rep == [] ==> |r| <= |s|
    decreases |s|
  {
    if s == [] then []
    else
      var k := MatchLen(p, s);
      if k > 0 then rep + Sub(p, rep, s[k..]) else [s[0]] + Sub(p, rep, s[1..])
  }

  /** Where the pattern matches nowhere, the text is left as it is. */
  lemma {:induction false} SubNoMatch(p: Pattern, rep: string, s: string)
    requires forall i :: 0 <= i < |s| ==> MatchLen(p, s[i..]) == 0
    ensures Sub(p, rep, s) == s
    decreases |s|
  {
    if s != [] {
      TailSuffixes(s);
      SubNoMatch(p, rep, s[1..]);
    }
  }

  /** A substitution brings in no character that is neither in the text nor in the replacement. */
  lemma {:induction false} SubAllChars(p: Pattern, rep: string, s: string, q: char -> bool)
    requires AllChars(s, q) && AllChars(rep, q)
    ensures AllChars(Sub(p, rep, s), q)
    decreases |s|
  {
    if s != [] {
      var k := MatchLen(p, s);
      if k > 0 {
        SliceAllChars(s, k, |s|, q);
        SubAllChars(p, rep, s[k..], q);
      } else {
        SliceAllChars(s, 1, |s|, q);
        SubAllChars(p, rep, s[1..], q);
      }
    }
  }

  /** Every occurrence of `c` starts a match of `p`. */
  ghost predicate Covers(p: Pattern, c: char) {
    forall t: string :: t != [] && t[0] == c ==> MatchLen(p, t) > 0
  }

  /** A pattern that matches at every `c`, replaced by text without `c`, leaves no `c`. */
  lemma {:induction false} SubRemoves(p: Pattern, rep: string, s: string, c: char)
    requires Covers(p, c) && c !in rep
    ensures c !in Sub(p, rep, s)
    decreases |s|
  {
    if s != [] {
      var k := MatchLen(p, s);
      if k > 0 {
        SubRemoves(p, rep, s[k..], c);
      } else {
        SubRemoves(p, rep, s[1..], c);
      }
    }
  }

  lemma CoversLiteral(c: char)
    ensures Covers(Literal([c]), c)
  {
    forall t: string | t != [] && t[0] == c ensures MatchLen(Literal([c]), t) > 0 {
      assert [c] == t[..1];
    }
  }

  lemma CoversOneOf(cs: set<char>, c: char)
    requires c in cs
    ensures Covers(OneOf(cs), c)
  {
  }

  lemma CoversNewline()
    ensures Covers(NewlineRun, '\n')
  {
  }

  /** Where `p` does not match, the first character is kept. */
  lemma SubKeepsFirst(p: Pattern, rep: string, s: string)
    requires s != [] && MatchLen(p, s) == 0
    ensures Sub(p, rep, s) == [s[0]] + Sub(p, rep, s[1..])
  {
  }

  /** `re.sub(r'\s+', ' ', s)` leaves only single spaces. */
  lemma {:induction false} CollapseSingleSpaced(s: string)
    ensures SingleSpaced(Sub(WhitespaceRun, " ", s))
    decreases |s|
  {
    if s != [] {
      var k := MatchLen(WhitespaceRun, s);
      if k > 0 {
        var t := s[k..];
        CollapseSingleSpaced(t);
        var r' := Sub(WhitespaceRun, " ", t);
        assert t != [] ==> !IsWhitespace(t[0]) && r' != [] && r'[0] == t[0];
        PrependSpace(r');
      } else {
        CollapseSingleSpaced(s[1..]);
        PrependChar(s[0], Sub(WhitespaceRun, " ", s[1..]));
      }
    }
  }

  /** A word passes `re.sub(r'\s+', ' ', ...)` unchanged. */
  lemma {:induction false} CollapseWord(w: string, t: string)
    requires NoWhitespace(w)
    ensures Sub(WhitespaceRun, " ", w + t) == w + Sub(WhitespaceRun, " ", t)
    decreases |w|
  {
    if w == [] {
      assert w + t == t;
    } else {
      HeadTail(w, t);
      assert NoWhitespace(w[1..]) by {
        assert forall i :: 0 <= i < |w| - 1 ==> w[1..][i] == w[i + 1];
      }
      CollapseWord(w[1..], t);
    }
  }

  /** A leading whitespace run becomes one space. */
  lemma CollapseRun(s: string)
    requires s != [] && IsWhitespace(s[0])
    ensures Sub(WhitespaceRun, " ", s) == " " + Sub(WhitespaceRun, " ", StripLeft(s))
  {
    var r := StripLeft(s);
    StripLeftSlice(s);
    var j := |s| - |r|;
    assert j > 0;
    assert AllChars(s[..j], IsWhitespace);
    TakeDrop(s, j);
    if r == [] {
      assert s[..j] == s;
      RunLenAll(s, IsWhitespace);
    } else {
      RunLenStops(s[..j], r, IsWhitespace);
    }
  }

  /** Text that does not start with whitespace keeps its first character at the front. */
  lemma CollapseHead(t: string)
    requires t == [] || !IsWhitespace(t[0])
    ensures t != [] ==> Sub(WhitespaceRun, " ", t) != [] && Sub(WhitespaceRun, " ", t)[0] == t[0]
    ensures StripLeft(Sub(WhitespaceRun, " ", t)) == Sub(WhitespaceRun, " ", t)
  {
  }

  /**
   * From a text that does not start with whitespace, collapsing every whitespace run to one
   * space and then dropping the trailing space gives the words joined by single spaces.
   */
  lemma {:induction false} CollapseWords(t: string)
    requires t == [] || !IsWhitespace(t[0])
    ensures StripRight(Sub(WhitespaceRun, " ", t)) == JoinSpace(Split(t))
    decreases |t|
  {
    if t != [] {
      assert StripLeft(t) == t;
      var w := TakeWord(t);
      TakeWordSlice(t);
      var rest := t[|w|..];
      TakeDrop(t, |w|);
      assert Split(t) == [w] + Split(rest);
      CollapseWord(w, rest);
      assert w[|w| - 1] == t[|w| - 1];
      if rest == [] {
        assert Split(rest) == [];
        StripRightAppend(w, []);
      } else {
        var r := StripLeft(rest);
        CollapseRun(rest);
        SplitStripLeft(rest);
        CollapseWords(r);
        if r == [] {
          assert Split(r) == [];
          StripRightAppend(w, " ");
          assert StripRight(" ") == [];
        } else {
          var c := Sub(WhitespaceRun, " ", r);
          CollapseHead(r);
          StripRightAppend(w + " ", c);
          Assoc(w, " ", c);
          assert ([w] + Split(r))[1..] == Split(r);
        }
      }
    }
  }

  /** `re.sub(r'\s+', ' ', s).strip()` is `" ".join(s.split())`: it keeps the words of `s` in order. */
  lemma CollapseStrip(s: string)
    ensures Strip(Sub(WhitespaceRun, " ", s)) == NormalizeSpaces(s)
  {
    var r := StripLeft(s);
    SplitStripLeft(s);
    CollapseWords(r);
    CollapseHead(r);
    if s != [] && IsWhitespace(s[0]) {
      var c := Sub(WhitespaceRun, " ", r);
      CollapseRun(s);
      assert (" " + c)[1..] == c;
    }
  }

  lemma PrependSpace(r: string)
    requires SingleSpaced(r) && (r == [] || !IsWhitespace(r[0]))
    ensures SingleSpaced(" " + r)
  {
    var t := " " + r;
    forall i | 0 <= i < |t| && IsWhitespace(t[i])
      ensures t[i] == ' ' && (i + 1 < |t| ==> !IsWhitespace(t[i + 1]))
    {
      if i > 0 {
        assert t[i] == r[i - 1];
        if i + 1 < |t| { assert t[i + 1] == r[i]; }
      }
    }
  }

  lemma PrependChar(c: char, r: string)
    requires SingleSpaced(r) && !IsWhitespace(c)
    ensures SingleSpaced([c] + r)
  {
    var t := [c] + r;
    forall i | 0 <= i < |t| && IsWhitespace(t[i])
      ensures t[i] == ' ' && (i + 1 < |t| ==> !IsWhitespace(t[i + 1]))
    {
      assert t[i] == r[i - 1];
      if i + 1 < |t| { assert t[i + 1] == r[i]; }
    }
  }

  /** Replacing one character is a character-by-character map, so it distributes over concatenation. */
  lemma {:induction false} SubCharAppend(c: char, rep: string, a: string, b: string)
    ensures Sub(Literal([c]), rep, a + b) == Sub(Literal([c]), rep, a) + Sub(Literal([c]), rep, b)
    decreases |a|
  {
    var p := Literal([c]);
    if a == [] {
      assert a + b == b;
    } else {
      var s := a + b;
      assert s[0] == a[0] && s[1..] == a[1..] + b;
      assert ([c] <= s) == ([c] <= a) by {
        assert [c] <= s <==> s[0] == c;
        assert [c] <= a <==> a[0] == c;
      }
      SubCharAppend(c, rep, a[1..], b);
    }
  }

  /** `s.replace(c, rep)` on one character. */
  lemma SubCharSingle(c: char, rep: string, x: char)
    ensures Sub(Literal([c]), rep, [x]) == if x == c then rep else [x]
  {
    assert [c] <= [x] <==> x == c;
    assert [x][1..] == [];
  }

  /** `s.replace(c, rep)` leaves a text without `c` as it is. */
  lemma {:induction false} SubCharAbsent(c: char, rep: string, s: string)
    requires c !in s
    ensures Sub(Literal([c]), rep, s) == s
    decreases |s|
  {
    if s != [] {
      assert !([c] <= s) by {
        assert s[0] != c;
      }
      SubCharAbsent(c, rep, s[1..]);
    }
  }

  /**
   * `.replace('&quot;', '"').replace('&gt;', '>').replace('&lt;', '<').replace('&amp;', '&')`,
   * the entity decoding the imageboard cleaners share; `&amp;` comes last, so each entity is
   * decoded once.
   */
  function DecodeEntities(t: string): string {
    var t1 := Sub(Literal("&quot;"), "\"", t);
    var t2 := Sub(Literal("&gt;"), ">", t1);
    var t3 := Sub(Literal("&lt;"), "<", t2);
    Sub(Literal("&amp;"), "&", t3)
  }

  /** Every match of `p` starts with `c`. */
  ghost predicate StartsWith(p: Pattern, c: char) {
    forall t: string :: MatchLen(p, t) > 0 ==> t[0] == c
  }

  /** A pattern whose matches all start with `c` leaves a text without `c` as it is. */
  lemma {:induction false} SubAbsent(p: Pattern, rep: string, s: string, c: char)
    requires StartsWith(p, c) && c !in s
    ensures Sub(p, rep, s) == s
    decreases |s|
  {
    if s != [] {
      assert MatchLen(p, s) == 0 by {
        assert s[0] != c;
      }
      SubAbsent(p, rep, s[1..], c);
    }
  }

  lemma StartsLiteral(t: string)
    requires t != []
    ensures StartsWith(Literal(t), t[0])
  {
  }

  lemma StartsUrl()
    ensures StartsWith(Url, 'h')
  {
  }

  lemma StartsQuoteLink()
    ensures StartsWith(QuoteLink, '>')
  {
  }

  lemma StartsNewline()
    ensures StartsWith(NewlineRun, '\n')
  {
  }

  lemma StartsTag(m: nat)
    ensures StartsWith(Tag(m), '<')
  {
  }

  lemma StartsLineBreak()
    ensures StartsWith(LineBreak, '<')
  {
  }

  /** Where `&` stands only at the head of `s` and does not start `t`, `replace(t, rep)` leaves `s` as it is. */
  lemma SubHeadMismatch(t: string, rep: string, s: string)
    requires t != [] && t[0] == '&' && s != [] && '&' !in s[1..] && !(t <= s)
    ensures Sub(Literal(t), rep, s) == s
  {
    StartsLiteral(t);
    SubKeepsFirst(Literal(t), rep, s);
    SubAbsent(Literal(t), rep, s[1..], '&');
  }

  /**
   * An escaped ampersand followed by text without `&` comes out as `&` and that text,
   * so `&amp;gt;` decodes to the text `&gt;` and not to `>`.
   */
  lemma DecodeEscapedAmpersand(x: string)
    requires '&' !in x
    ensures DecodeEntities("&amp;" + x) == "&" + x
  {
    var s := "&amp;" + x;
    assert s[1] == 'a';
    assert '&' !in s[1..] by {
      assert s[1..] == "amp;" + x;
    }
    SubHeadMismatch("&quot;", "\"", s);
    SubHeadMismatch("&gt;", ">", s);
    SubHeadMismatch("&lt;", "<", s);
    assert "&amp;" <= s;
    assert s[5..] == x;
    StartsLiteral("&amp;");
    SubAbsent(Literal("&amp;"), "&", x, '&');
  }

  /** A prefix without `c` passes a pattern whose matches start with `c` unchanged. */
  lemma {:induction false} SubAbsentPrefix(p: Pattern, rep: string, a: string, b: string, c: char)
    requires StartsWith(p, c) && c !in a
    ensures Sub(p, rep, a + b) == a + Sub(p, rep, b)
    decreases |a|
  {
    if a == [] {
      AppendNil(b);
    } else {
      var s := a + b;
      HeadTail(a, b);
      assert MatchLen(p, s) == 0;
      SubKeepsFirst(p, rep, s);
      SubAbsentPrefix(p, rep, a[1..], b, c);
      Assoc([a[0]], a[1..], Sub(p, rep, b));
    }
  }

  /**
   * One entity `e` at the head of the text under `replace(t, rep)`: it is replaced when it
   * is `t`, and passes unchanged when it differs from `t` in its second character.
   */
  lemma EntityStep(t: string, rep: string, e: string, y: string)
    requires |t| >= 2 && |e| >= 2 && t[0] == '&' && e[0] == '&' && '&' !in e[1..]
    requires t == e || t[1] != e[1]
    ensures t == e ==> Sub(Literal(t), rep, e + y) == rep + Sub(Literal(t), rep, y)
    ensures t != e ==> Sub(Literal(t), rep, e + y) == e + Sub(Literal(t), rep, y)
  {
    var s := e + y;
    DropPrefix(e, y);
    if t == e {
      assert t <= s;
    } else {
      assert !(t <= s) by {
        assert s[1] == e[1];
      }
      SubKeepsFirst(Literal(t), rep, s);
      HeadTail(e, y);
      StartsLiteral(t);
      SubAbsentPrefix(Literal(t), rep, e[1..], y, '&');
      Assoc([e[0]], e[1..], Sub(Literal(t), rep, y));
    }
  }

  lemma EscapedTagQuot(x: string)
    requires '&' !in x
    ensures Sub(Literal("&quot;"), "\"", "&lt;" + (x + "&gt;")) == "&lt;" + (x + "&gt;")
  {
    EntityStep("&quot;", "\"", "&lt;", x + "&gt;");
    StartsLiteral("&quot;");
    SubAbsentPrefix(Literal("&quot;"), "\"", x, "&gt;", '&');
    EntityStep("&quot;", "\"", "&gt;", []);
    assert "&gt;" + [] == "&gt;";
  }

  lemma EscapedTagGt(x: string)
    requires '&' !in x
    ensures Sub(Literal("&gt;"), ">", "&lt;" + (x + "&gt;")) == "&lt;" + (x + ">")
  {
    EntityStep("&gt;", ">", "&lt;", x + "&gt;");
    StartsLiteral("&gt;");
    SubAbsentPrefix(Literal("&gt;"), ">", x, "&gt;", '&');
    EntityStep("&gt;", ">", "&gt;", []);
    assert ">" + [] == ">";
  }

  lemma EscapedTagLt(x: string)
    requires '&' !in x
    ensures Sub(Literal("&lt;"), "<", "&lt;" + (x + ">")) == "<" + (x + ">")
  {
    EntityStep("&lt;", "<", "&lt;", x + ">");
    StartsLiteral("&lt;");
    SubAbsent(Literal("&lt;"), "<", x + ">", '&');
  }

  /** An escaped tag `&lt;x&gt;` decodes to the tag text `<x>`. */
  lemma DecodeEscapedTag(x: string)
    requires '&' !in x
    ensures DecodeEntities("&lt;" + (x + "&gt;")) == "<" + (x + ">")
  {
    EscapedTagQuot(x);
    EscapedTagGt(x);
    EscapedTagLt(x);
    StartsLiteral("&amp;");
    SubAbsent(Literal("&amp;"), "&", "<" + (x + ">"), '&');
  }

  /** An escaped quote link `&gt;&gt;d` decodes to `>>d`. */
  lemma DecodeEscapedQuote(d: string)
    requires '&' !in d
    ensures DecodeEntities("&gt;" + ("&gt;" + d)) == ">" + (">" + d)
  {
    var g := "&gt;";
    assert Sub(Literal("&quot;"), "\"", g + (g + d)) == g + (g + d) by {
      EntityStep("&quot;", "\"", g, g + d);
      EntityStep("&quot;", "\"", g, d);
      StartsLiteral("&quot;");
      SubAbsent(Literal("&quot;"), "\"", d, '&');
    }
    assert Sub(Literal(g), ">", g + (g + d)) == ">" + (">" + d) by {
      EntityStep(g, ">", g, g + d);
      EntityStep(g, ">", g, d);
      StartsLiteral(g);
      SubAbsent(Literal(g), ">", d, '&');
    }
    assert '&' !in ">" + (">" + d);
    assert Sub(Literal("&lt;"), "<", ">" + (">" + d)) == ">" + (">" + d) by {
      StartsLiteral("&lt;");
      SubAbsent(Literal("&lt;"), "<", ">" + (">" + d), '&');
    }
    assert Sub(Literal("&amp;"), "&", ">" + (">" + d)) == ">" + (">" + d) by {
      StartsLiteral("&amp;");
      SubAbsent(Literal("&amp;"), "&", ">" + (">" + d), '&');
    }
  }

  lemma {:induction false} RunLenAll(s: string, p: char -> bool)
    requires AllChars(s, p)
    ensures RunLen(s, p) == |s|
    decreases |s|
  {
    if s != [] {
      SliceAllChars(s, 1, |s|, p);
      RunLenAll(s[1..], p);
    }
  }

  /** `re.sub(r'\s+', rep, s)` leaves a text without whitespace as it is. */
  lemma SubNoWhitespace(rep: string, s: string)
    requires NoWhitespace(s)
    ensures Sub(WhitespaceRun, rep, s) == s
  {
    forall i | 0 <= i < |s| ensures MatchLen(WhitespaceRun, s[i..]) == 0 {
      assert s[i..][0] == s[i];
    }
    SubNoMatch(WhitespaceRun, rep, s);
  }

  lemma BreakPlain(x: string)
    ensures BreakLen("<br>" + x) == 4
  {
    var a := "<br>" + x;
    assert "<br" <= a && a[3..][0] == '>';
  }

  lemma BreakSlash(x: string)
    ensures BreakLen("<br/>" + x) == 5
  {
    var b := "<br/>" + x;
    assert "<br" <= b && b[3..][0] == '/';
  }

  lemma BreakSpaceSlash(x: string)
    ensures BreakLen("<br />" + x) == 6
  {
    var c := "<br />" + x;
    assert "<br" <= c;
    assert RunLen(c[3..], IsWhitespace) == 1 by {
      assert c[3..][0] == ' ' && IsWhitespace(' ');
      assert c[3..][1..][0] == '/' && !IsWhitespace('/');
    }
  }

  // The line-break pattern matches each of `<br>`, `<br/>` and `<br />` whole.
  lemma BreakVariants(x: string)
    ensures MatchLen(LineBreak, "<br>" + x) == 4
    ensures MatchLen(LineBreak, "<br/>" + x) == 5
    ensures MatchLen(LineBreak, "<br />" + x) == 6
  {
    BreakPlain(x);
    BreakSlash(x);
    BreakSpaceSlash(x);
  }

  /** A character class replaced by nothing leaves none of its characters. */
  lemma SubOneOfRemoves(cs: set<char>, s: string)
    ensures AllChars(Sub(OneOf(cs), "", s), c => c !in cs)
  {
    var r := Sub(OneOf(cs), "", s);
    forall c | c in cs ensures c !in r {
      CoversOneOf(cs, c);
      SubRemoves(OneOf(cs), "", s, c);
    }
  }

  /** A text without any character of the class is left as it is. */
  lemma SubOneOfAbsent(cs: set<char>, rep: string, s: string)
    requires forall i :: 0 <= i < |s| ==> s[i] !in cs
    ensures Sub(OneOf(cs), rep, s) == s
  {
    forall i | 0 <= i < |s| ensures MatchLen(OneOf(cs), s[i..]) == 0 {
      assert s[i..][0] == s[i];
    }
    SubNoMatch(OneOf(cs), rep, s);
  }

  /** A user mention `<@digits>` is one whole match of the Discord token pattern. */
  lemma MentionMatch(d: string)
    requires d != [] && AllChars(d, IsDigit)
    ensures MatchLen(DiscordToken, "<@" + (d + ">")) == |d| + 3
  {
    var s := "<@" + (d + ">");
    assert Bracketed("<@!", s) == 0 by {
      assert s[2] == d[0];
    }
    assert RunLen(s[2..], IsDigit) == |d| by {
      assert s[2..] == d + ">";
      RunLenAll(d, IsDigit);
      RunLenStops(d, ">", IsDigit);
    }
  }

  /** A run that covers all of `a` stops at a following character outside the class. */
  lemma {:induction false} RunLenStops(a: string, b: string, p: char -> bool)
    requires AllChars(a, p) && b != [] && !p(b[0])
    ensures RunLen(a + b, p) == |a|
    decreases |a|
  {
    if a == [] {
      assert a + b == b;
    } else {
      SliceAllChars(a, 1, |a|, p);
      assert (a + b)[1..] == a[1..] + b;
      RunLenStops(a[1..], b, p);
    }
  }

  /** The characters of an escaped `>>digits` link and of its decoding. */
  lemma DigitLinkChars(d: string)
    requires d != [] && AllChars(d, IsDigit)
    ensures var s := "&gt;" + ("&gt;" + d); '<' !in s && '>' !in s && '&' !in d
    ensures var u := ">" + (">" + d); NoWhitespace(u) && Stripped(u)
  {
    var s := "&gt;" + ("&gt;" + d);
    var u := ">" + (">" + d);
    assert forall i :: 0 <= i < |d| ==> IsDigit(d[i]) && !IsWhitespace(d[i]);
    assert forall i :: 8 <= i < |s| ==> s[i] == d[i - 8];
    assert forall i :: 2 <= i < |u| ==> u[i] == d[i - 2];
  }
}
