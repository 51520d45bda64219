/**
 * Python string behaviour that the cleaners rely on: the whitespace and digit
 * classes, `str.strip()`, `str.split()`, `" ".join(...)`, the ASCII filter
 * `encode('ascii', 'ignore')`, `str.strip(chars)`, ASCII lowercasing and the
 * truthiness of an optional string.
 */
module Strings {
  import opened Wrappers
  import opened Seqs

  /** Python's `str.isspace()` characters; `\s`, `split()` and `strip()` all use this set. */
  const WHITESPACE: set<char> := {
    '\U{0009}', '\U{000A}', '\U{000B}', '\U{000C}', '\U{000D}',
    '\U{001C}', '\U{001D}', '\U{001E}', '\U{001F}', '\U{0020}',
    '\U{0085}', '\U{00A0}', '\U{1680}',
    '\U{2000}', '\U{2001}', '\U{2002}', '\U{2003}', '\U{2004}', '\U{2005}',
    '\U{2006}', '\U{2007}', '\U{2008}', '\U{2009}', '\U{200A}',
    '\U{2028}', '\U{2029}', '\U{202F}', '\U{205F}', '\U{3000}'
  }

  predicate IsWhitespace(c: char) {
    c in WHITESPACE
  }

  /** The printable ASCII characters other than the space are not whitespace. */
  lemma PrintableNotWhitespace(c: char)
    requires '!' <= c <= '~'
    ensures !IsWhitespace(c)
  {
  }

  /** The decimal digits `\d` matches (ASCII only in this model). */
  predicate IsDigit(c: char) {
    '0' <= c <= '9'
  }

  predicate IsAscii(c: char) {
    c < '\U{0080}'
  }

  predicate NotWhitespace(c: char) {
    !IsWhitespace(c)
  }

  /** Python truthiness of a value that is either `None` or a string. */
  predicate Truthy(o: Option<string>) {
    o.Some? && o.value != []
  }

  predicate AllChars(s: string, p: char -> bool) {
    forall i :: 0 <= i < |s| ==> p(s[i])
  }

  predicate NoWhitespace(s: string) {
    forall i :: 0 <= i < |s| ==> !IsWhitespace(s[i])
  }

  /** No whitespace at either end: what `strip()` leaves. */
  predicate Stripped(s: string) {
    s == [] || (!IsWhitespace(s[0]) && !IsWhitespace(s[|s| - 1]))
  }

  /** Every whitespace character is a plain space and is followed by a non-whitespace one. */
  predicate SingleSpaced(s: string) {
    forall i :: 0 <= i < |s| && IsWhitespace(s[i]) ==>
      s[i] == ' ' && (i + 1 < |s| ==> !IsWhitespace(s[i + 1]))
  }

  /** Python's `p in s` for strings. */
  predicate Contains(s: string, p: string) {
    p <= s || (s != [] && Contains(s[1..], p))
  }

  predicate AllWhitespace(s: string) {
    forall i :: 0 <= i < |s| ==> IsWhitespace(s[i])
  }

  /** Python's `str.lstrip()`. */
  function StripLeft(s: string): (r: string)
    ensures |r| <= |s|
    ensures r == [] || !IsWhitespace(r[0])
  {
    if s != [] && IsWhitespace(s[0]) then StripLeft(s[1..]) else s
  }

  /** `lstrip()` keeps a suffix and drops only whitespace before it. */
  lemma {:induction false} StripLeftSlice(s: string)
    ensures var r := StripLeft(s); r == s[|s| - |r|..] && AllWhitespace(s[..|s| - |r|])
  {
    if s != [] && IsWhitespace(s[0]) {
      StripLeftSlice(s[1..]);
      var r := StripLeft(s);
      assert s[..|s| - |r|] == [s[0]] + s[1..][..|s[1..]| - |r|];
    }
  }

  /** Python's `str.rstrip()`. */
  function StripRight(s: string): (r: string)
    ensures |r| <= |s|
    ensures r == [] || !IsWhitespace(r[|r| - 1])
    ensures s != [] && !IsWhitespace(s[0]) ==> r != [] && r[0] == s[0]
  {
    if s != [] && IsWhitespace(s[|s| - 1]) then
      var t := s[..|s| - 1];
      assert |s| > 1 ==> t[0] == s[0];
      StripRight(t)
    else s
  }

  /** `rstrip()` keeps a prefix and drops only whitespace after it. */
  lemma {:induction false} StripRightSlice(s: string)
    ensures var r := StripRight(s); r == s[..|r|] && AllWhitespace(s[|r|..])
  {
    if s != [] && IsWhitespace(s[|s| - 1]) {
      var t := s[..|s| - 1];
      StripRightSlice(t);
      var r := StripRight(t);
      assert s == t + [s[|s| - 1]];
      assert s[|r|..] == t[|r|..] + [s[|s| - 1]];
    }
  }

  /** `rstrip()` of a text keeps a prefix that ends in non-whitespace or is followed by some. */
  lemma {:induction false} StripRightAppend(a: string, x: string)
    requires a == [] || !IsWhitespace(a[|a| - 1]) || StripRight(x) != []
    ensures StripRight(a + x) == a + StripRight(x)
    decreases |x|
  {
    if x == [] {
      assert a + x == a;
    } else if IsWhitespace(x[|x| - 1]) {
      assert (a + x)[..|a + x| - 1] == a + x[..|x| - 1];
      StripRightAppend(a, x[..|x| - 1]);
    }
  }

  /** Python's `str.strip()`: drops the whitespace at both ends. */
  function Strip(s: string): (r: string)
    ensures Stripped(r) && |r| <= |s|
  {
    StripRight(StripLeft(s))
  }

  /** `strip()` removes whitespace at both ends and nothing else; a stripped text is left as it is. */
  lemma StripSlice(s: string)
    ensures exists a, b :: 0 <= a <= b <= |s| && Strip(s) == s[a..b] && AllWhitespace(s[..a]) && AllWhitespace(s[b..])
    ensures Stripped(s) ==> Strip(s) == s
  {
    var l := StripLeft(s);
    var r := StripRight(l);
    StripLeftSlice(s);
    StripRightSlice(l);
    var a := |s| - |l|;
    assert s[a..] == l;
    assert r == s[a..a + |r|];
    assert s[a + |r|..] == l[|r|..];
  }

  /** `strip()` keeps single spacing. */
  lemma StripSingleSpaced(s: string)
    requires SingleSpaced(s)
    ensures SingleSpaced(Strip(s))
  {
    StripSlice(s);
    var a, b :| 0 <= a <= b <= |s| && Strip(s) == s[a..b];
    SliceSingleSpaced(s, a, b);
  }

  /** `strip()` removes characters and adds none. */
  lemma StripChars(s: string, p: char -> bool)
    requires AllChars(s, p)
    ensures AllChars(Strip(s), p)
  {
    StripSlice(s);
    var a, b :| 0 <= a <= b <= |s| && Strip(s) == s[a..b];
    SliceAllChars(s, a, b, p);
  }

  lemma SliceAllChars(s: string, a: nat, b: nat, p: char -> bool)
    requires a <= b <= |s|
    requires AllChars(s, p)
    ensures AllChars(s[a..b], p)
  {
    forall i | 0 <= i < b - a ensures p(s[a..b][i]) {
      assert s[a..b][i] == s[a + i];
    }
  }

  lemma SliceSingleSpaced(s: string, a: nat, b: nat)
    requires a <= b <= |s|
    requires SingleSpaced(s)
    ensures SingleSpaced(s[a..b])
  {
    var t := s[a..b];
    forall i | 0 <= i < |t| && IsWhitespace(t[i])
      ensures t[i] == ' ' && (i + 1 < |t| ==> !IsWhitespace(t[i + 1]))
    {
      assert t[i] == s[a + i];
      if i + 1 < |t| { assert t[i + 1] == s[a + i + 1]; }
    }
  }

  /** The longest prefix of `s` without whitespace. */
  function TakeWord(s: string): (w: string)
    ensures |w| <= |s| && NoWhitespace(w)
    ensures s != [] && !IsWhitespace(s[0]) ==> w != []
  {
    if s == [] || IsWhitespace(s[0]) then [] else [s[0]] + TakeWord(s[1..])
  }

  /** The word is a prefix of the text, ended by whitespace or by the end of the text. */
  lemma {:induction false} TakeWordSlice(s: string)
    ensures var w := TakeWord(s); w == s[..|w|] && (|w| < |s| ==> IsWhitespace(s[|w|]))
  {
    if s != [] && !IsWhitespace(s[0]) {
      TakeWordSlice(s[1..]);
    }
  }

  /** Python's `str.split()` with no separator: the maximal runs of non-whitespace, in order. */
  function Split(s: string): (ws: seq<string>)
    ensures Words(ws)
    decreases |s|
  {
    var t := StripLeft(s);
    if t == [] then []
    else
      var w := TakeWord(t);
      [w] + Split(t[|w|..])
  }

  /** Every word of `Split(s)` is made of characters of `s`. */
  lemma {:induction false} SplitAllChars(s: string, p: char -> bool)
    requires AllChars(s, p)
    ensures forall i :: 0 <= i < |Split(s)| ==> AllChars(Split(s)[i], p)
    decreases |s|
  {
    var t := StripLeft(s);
    if t != [] {
      StripLeftSlice(s);
      SliceAllChars(s, |s| - |t|, |s|, p);
      var w := TakeWord(t);
      TakeWordSlice(t);
      SliceAllChars(t, 0, |w|, p);
      SliceAllChars(t, |w|, |t|, p);
      var rest := t[|w|..];
      SplitAllChars(rest, p);
      assert Split(s) == [w] + Split(rest);
      forall i | 0 <= i < |Split(s)| ensures AllChars(Split(s)[i], p) {
        if i > 0 { assert Split(s)[i] == Split(rest)[i - 1]; }
      }
    }
  }

  /** Python's `" ".join(ws)`. */
  function JoinSpace(ws: seq<string>): string {
    if ws == [] then []
    else if |ws| == 1 then ws[0]
    else ws[0] + " " + JoinSpace(ws[1..])
  }

  /** Non-empty strings without whitespace: what `split()` returns. */
  predicate Words(ws: seq<string>) {
    forall i :: 0 <= i < |ws| ==> ws[i] != [] && NoWhitespace(ws[i])
  }

  /** Joining words with single spaces gives a stripped, single-spaced text. */
  lemma {:induction false} JoinWords(ws: seq<string>)
    requires Words(ws)
    ensures Stripped(JoinSpace(ws)) && SingleSpaced(JoinSpace(ws))
    ensures ws != [] ==> JoinSpace(ws) != []
  {
    if |ws| > 1 {
      var rest := JoinSpace(ws[1..]);
      JoinWords(ws[1..]);
      var r := ws[0] + " " + rest;
      assert r == JoinSpace(ws);
      forall i | 0 <= i < |r| && IsWhitespace(r[i])
        ensures r[i] == ' ' && (i + 1 < |r| ==> !IsWhitespace(r[i + 1]))
      {
        if i > |ws[0]| {
          assert r[i] == rest[i - |ws[0]| - 1];
          if i + 1 < |r| { assert r[i + 1] == rest[i - |ws[0]|]; }
        } else if i == |ws[0]| && i + 1 < |r| {
          assert r[i + 1] == rest[0];
        }
      }
    }
  }

  /** The join is made of the words' characters and spaces. */
  lemma {:induction false} JoinAllChars(ws: seq<string>, p: char -> bool)
    requires p(' ')
    requires forall i :: 0 <= i < |ws| ==> AllChars(ws[i], p)
    ensures AllChars(JoinSpace(ws), p)
  {
    if |ws| > 1 {
      JoinAllChars(ws[1..], p);
      var rest := JoinSpace(ws[1..]);
      var r := ws[0] + " " + rest;
      forall i | 0 <= i < |r| ensures p(r[i]) {
        if i < |ws[0]| {
          assert r[i] == ws[0][i];
        } else if i > |ws[0]| {
          assert r[i] == rest[i - |ws[0]| - 1];
        }
      }
    }
  }

  /** `str.split()` undoes `" ".join(...)` on words. */
  lemma {:induction false} SplitJoin(ws: seq<string>)
    requires Words(ws)
    ensures Split(JoinSpace(ws)) == ws
  {
    if |ws| == 1 {
      calc {
        Split(JoinSpace(ws));
        { assert JoinSpace(ws) == ws[0] + []; }
        Split(ws[0] + []);
        { SplitWord(ws[0], []); }
        [ws[0]] + Split([]);
        { assert Split([]) == []; }
        [ws[0]];
      }
    } else if |ws| > 1 {
      var rest := JoinSpace(ws[1..]);
      JoinWords(ws[1..]);
      calc {
        Split(JoinSpace(ws));
        { assert JoinSpace(ws) == ws[0] + (" " + rest); }
        Split(ws[0] + (" " + rest));
        { assert IsWhitespace((" " + rest)[0]); SplitWord(ws[0], " " + rest); }
        [ws[0]] + Split(" " + rest);
        { SplitSpace(rest); }
        [ws[0]] + Split(rest);
        { SplitJoin(ws[1..]); }
        [ws[0]] + ws[1..];
      }
    }
  }

  /** Leading whitespace does not change the split. */
  lemma SplitStripLeft(s: string)
    ensures Split(s) == Split(StripLeft(s))
  {
    var t := StripLeft(s);
    assert StripLeft(t) == t;
  }

  /** Trailing whitespace does not change the split. */
  lemma {:induction false} SplitTrailing(a: string, u: string)
    requires AllWhitespace(u)
    ensures Split(a + u) == Split(a)
    decreases |a|
  {
    if a == [] {
      assert a + u == u;
      StripLeftSlice(u);
    } else if IsWhitespace(a[0]) {
      HeadTail(a, u);
      SplitStripLeft(a + u);
      SplitStripLeft(a[1..] + u);
      SplitStripLeft(a);
      SplitStripLeft(a[1..]);
      SplitTrailing(a[1..], u);
    } else {
      var w := TakeWord(a);
      TakeWordSlice(a);
      var rest := a[|w|..];
      TakeDrop(a, |w|);
      Assoc(w, rest, u);
      SplitWord(w, rest + u);
      SplitWord(w, rest);
      SplitTrailing(rest, u);
    }
  }

  /** `s.strip().split()` is `s.split()`. */
  lemma SplitStrip(s: string)
    ensures Split(Strip(s)) == Split(s)
  {
    var t := StripLeft(s);
    SplitStripLeft(s);
    var r := StripRight(t);
    StripRightSlice(t);
    TakeDrop(t, |r|);
    SplitTrailing(r, t[|r|..]);
  }

  /** Splitting a word followed by text that starts with whitespace. */
  lemma SplitWord(w: string, t: string)
    requires w != [] && NoWhitespace(w)
    requires t == [] || IsWhitespace(t[0])
    ensures Split(w + t) == [w] + Split(t)
  {
    var s := w + t;
    assert StripLeft(s) == s;
    TakeWordAll(w, t);
    assert s[|w|..] == t;
  }

  /** A leading single space does not change the split. */
  lemma SplitSpace(r: string)
    requires r == [] || !IsWhitespace(r[0])
    ensures Split(" " + r) == Split(r)
  {
    var s := " " + r;
    assert s[1..] == r;
    assert StripLeft(s) == StripLeft(r);
  }

  lemma {:induction false} TakeWordAll(w: string, t: string)
    requires NoWhitespace(w)
    requires t == [] || IsWhitespace(t[0])
    ensures TakeWord(w + t) == w
  {
    if w != [] {
      assert (w + t)[1..] == w[1..] + t;
      TakeWordAll(w[1..], t);
    } else {
      assert w + t == t;
    }
  }

  /** Python's `" ".join(s.split())`: the words of `s` separated by single spaces. */
  function NormalizeSpaces(s: string): (r: string)
    ensures Stripped(r) && SingleSpaced(r)
    ensures Split(r) == Split(s)
  {
    var ws := Split(s);
    JoinWords(ws);
    SplitJoin(ws);
    JoinSpace(ws)
  }

  /** Normalising whitespace adds no character but the space. */
  lemma NormalizeAllChars(s: string, p: char -> bool)
    requires p(' ') && AllChars(s, p)
    ensures AllChars(NormalizeSpaces(s), p)
  {
    SplitAllChars(s, p);
    JoinAllChars(Split(s), p);
  }

  /** Python's `s.encode('ascii', 'ignore').decode('ascii')`: drops every non-ASCII character. */
  function AsciiOnly(s: string): (r: string)
    ensures AllChars(r, IsAscii)
    ensures forall i :: 0 <= i < |r| ==> r[i] in s
    ensures AllChars(s, IsAscii) ==> r == s
    ensures |r| <= |s|
  {
    if s == [] then []
    else if IsAscii(s[0]) then [s[0]] + AsciiOnly(s[1..])
    else AsciiOnly(s[1..])
  }

  /** The ASCII filter on one character keeps it exactly when it is ASCII. */
  lemma AsciiOnlyChar(c: char)
    ensures AsciiOnly([c]) == if IsAscii(c) then [c] else []
  {
    assert [c][1..] == [];
  }

  /** The ASCII filter works character by character, so it distributes over concatenation. */
  lemma {:induction false} AsciiOnlyAppend(a: string, b: string)
    ensures AsciiOnly(a + b) == AsciiOnly(a) + AsciiOnly(b)
    decreases |a|
  {
    if a == [] {
      assert a + b == b;
    } else {
      assert (a + b)[0] == a[0] && (a + b)[1..] == a[1..] + b;
      AsciiOnlyAppend(a[1..], b);
    }
  }

  /** Python's `str.strip(chars)`: drops the characters of `cs` at both ends and nothing else. */
  function StripCharSet(s: string, cs: set<char>): (r: string)
    ensures r == [] || (r[0] !in cs && r[|r| - 1] !in cs)
    ensures forall i :: 0 <= i < |r| ==> r[i] in s
    decreases |s|
  {
    if s != [] && s[0] in cs then StripCharSet(s[1..], cs)
    else if s != [] && s[|s| - 1] in cs then StripCharSet(s[..|s| - 1], cs)
    else s
  }

  /**
   * Lower-case form of one character as far as comparisons with ASCII words are concerned:
   * ASCII capitals and the Kelvin sign, the one non-ASCII character whose lower case is ASCII.
   */
  function LowerChar(c: char): char {
    if 'A' <= c <= 'Z' then (c - 'A' + 'a') as char
    else if c == '\U{212A}' then 'k'
    else c
  }

  function Lower(s: string): (r: string)
    ensures |r| == |s|
    ensures forall i :: 0 <= i < |s| ==> r[i] == LowerChar(s[i])
  {
    if s == [] then [] else [LowerChar(s[0])] + Lower(s[1..])
  }

  /** A text containing `p` somewhere is matched by Python's `p in s`. */
  lemma {:induction false} ContainsInfix(a: string, p: string, b: string)
    ensures Contains(a + (p + b), p)
    decreases |a|
  {
    if a == [] {
      assert a + (p + b) == p + b;
    } else {
      ContainsInfix(a[1..], p, b);
      assert (a + (p + b))[1..] == a[1..] + (p + b);
    }
  }

  /** Conversely, Python's `p in s` holds only where `p` occurs somewhere in `s`. */
  lemma {:induction false} ContainsSplit(s: string, p: string)
    requires Contains(s, p)
    ensures exists a, b :: s == a + (p + b)
    decreases |s|
  {
    if p <= s {
      assert s == [] + (p + s[|p|..]);
    } else {
      ContainsSplit(s[1..], p);
      var a, b :| s[1..] == a + (p + b);
      assert s == [s[0]] + s[1..];
      assert s == ([s[0]] + a) + (p + b);
    }
  }

  /** A text that contains `p` contains its first character. */
  lemma ContainsFirst(s: string, p: string)
    requires p != []
    ensures Contains(s, p) ==> p[0] in s
  {
    if Contains(s, p) {
      ContainsSplit(s, p);
      var a, b :| s == a + (p + b);
      assert s[|a|] == p[0];
    }
  }

  /** Two words separated by one space are already normalised. */
  lemma NormalizeTwoWords(u: string, w: string)
    requires u != [] && NoWhitespace(u) && w != [] && NoWhitespace(w)
    ensures NormalizeSpaces(u + (" " + w)) == u + (" " + w)
  {
    SplitWord(u, " " + w);
    SplitSpace(w);
    SplitWord(w, []);
    AppendNil(w);
    assert Split([]) == [];
    assert Split(u + (" " + w)) == [u, w];
    assert [u, w][1..] == [w];
    assert JoinSpace([u, w]) == u + " " + w;
    Assoc(u, " ", w);
  }
}
