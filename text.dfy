/**
  The handful of Python string operations the description builder and the
  domain extractor are made of: `str.split()` with and without a separator,
  `sep.join(parts)`, `str.capitalize()` and zero-padded decimal fields such as
  `%02d` and `%04d`.
 */
module Text {

  // ---------------------------------------------------------------------------
  // Whitespace and words: str.split() with no separator
  // ---------------------------------------------------------------------------

  /** Python's `str.isspace()` for one character: the characters `str.split()` splits on. */
  predicate IsSpace(c: char) {
    ('\t' <= c <= '\r') || ('\U{1C}' <= c <= ' ')
    || c == '\U{85}' || c == '\U{A0}' || c == '\U{1680}'
    || ('\U{2000}' <= c <= '\U{200A}')
    || c == '\U{2028}' || c == '\U{2029}' || c == '\U{202F}' || c == '\U{205F}' || c == '\U{3000}'
  }

  predicate NoSpace(s: string) {
    forall i :: 0 <= i < |s| ==> !IsSpace(s[i])
  }

  /** A word as `str.split()` returns it: non-empty and free of whitespace. */
  predicate IsWord(w: string) {
    |w| > 0 && NoSpace(w)
  }

  /** The longest whitespace-free prefix of `s`. */
  function LeadingWord(s: string): (w: string)
    ensures |w| <= |s| && w == s[..|w|]
    ensures NoSpace(w)
    ensures |w| < |s| ==> IsSpace(s[|w|])
  {
    if s == [] || IsSpace(s[0]) then [] else [s[0]] + LeadingWord(s[1..])
  }

  /** `s.split()`: the maximal runs of non-whitespace characters of `s`, in order. */
  function Words(s: string): (ws: seq<string>)
    ensures forall k :: 0 <= k < |ws| ==> IsWord(ws[k])
    decreases |s|
  {
    if s == [] then []
    else if IsSpace(s[0]) then Words(s[1..])
    else
      var w := LeadingWord(s);
      [w] + Words(s[|w|..])
  }

  lemma NoSpaceAppend(x: string, y: string)
    requires NoSpace(x) && NoSpace(y)
    ensures NoSpace(x + y)
  {
    forall i | 0 <= i < |x + y| ensures !IsSpace((x + y)[i]) {
      if i < |x| {
        assert (x + y)[i] == x[i];
      } else {
        assert (x + y)[i] == y[i - |x|];
      }
    }
  }

  /** A whitespace-free `w` followed by whitespace (or nothing) is read as `w`. */
  lemma LeadingWordOf(w: string, rest: string)
    requires NoSpace(w)
    requires rest == [] || IsSpace(rest[0])
    ensures LeadingWord(w + rest) == w
  {
    var s := w + rest;
    var v := LeadingWord(s);
    assert forall i :: 0 <= i < |w| ==> s[i] == w[i];
    assert |s| > |w| ==> s[|w|] == rest[0];
    assert |v| == |w|;
  }

  /** Splitting on one whitespace character: the words on either side, nothing joined across it. */
  lemma {:induction false} WordsAround(a: string, c: char, b: string)
    requires IsSpace(c)
    ensures Words(a + [c] + b) == Words(a) + Words(b)
    decreases |a|
  {
    var s := a + [c] + b;
    if a == [] {
      assert s[1..] == b;
    } else if IsSpace(a[0]) {
      assert s[1..] == a[1..] + [c] + b;
      WordsAround(a[1..], c, b);
    } else {
      var w := LeadingWord(a);
      var tail := a[|w|..];
      assert a == w + tail;
      assert s == w + (tail + [c] + b);
      LeadingWordOf(w, tail + [c] + b);
      assert s[|w|..] == tail + [c] + b;
      WordsAround(tail, c, b);
    }
  }

  /** A word splits into itself. */
  lemma WordsOfWord(w: string)
    requires IsWord(w)
    ensures Words(w) == [w]
  {
    LeadingWordOf(w, []);
    assert w + [] == w;
    assert w[|w|..] == [];
  }

  // ---------------------------------------------------------------------------
  // sep.join(parts)
  // ---------------------------------------------------------------------------

  /** `sep.join(parts)`. */
  function Join(sep: string, parts: seq<string>): string {
    if parts == [] then ""
    else if |parts| == 1 then parts[0]
    else parts[0] + sep + Join(sep, parts[1..])
  }

  /** `[p for p in parts if p]`. */
  function NonEmpty(parts: seq<string>): (r: seq<string>)
    ensures forall k :: 0 <= k < |r| ==> r[k] != ""
    ensures r == [] <==> forall k :: 0 <= k < |parts| ==> parts[k] == ""
  {
    if parts == [] then []
    else if parts[0] == "" then NonEmpty(parts[1..])
    else [parts[0]] + NonEmpty(parts[1..])
  }

  /** The words of each part, part after part. */
  function WordsOfEach(parts: seq<string>): seq<string> {
    if parts == [] then [] else Words(parts[0]) + WordsOfEach(parts[1..])
  }

  /** Joining with a space and splitting again yields the words of the parts, in order. */
  lemma {:induction false} WordsOfJoin(parts: seq<string>)
    ensures Words(Join(" ", parts)) == WordsOfEach(parts)
  {
    if |parts| == 1 {
      assert WordsOfEach(parts[1..]) == [];
    } else if |parts| > 1 {
      WordsAround(parts[0], ' ', Join(" ", parts[1..]));
      WordsOfJoin(parts[1..]);
    }
  }

  /** Dropping empty parts drops no words. */
  lemma {:induction false} WordsOfNonEmpty(parts: seq<string>)
    ensures WordsOfEach(NonEmpty(parts)) == WordsOfEach(parts)
  {
    if parts != [] {
      WordsOfNonEmpty(parts[1..]);
    }
  }

  /** Words joined by single spaces split back into the same words. */
  lemma {:induction false} WordsOfJoinedWords(ws: seq<string>)
    requires forall k :: 0 <= k < |ws| ==> IsWord(ws[k])
    ensures Words(Join(" ", ws)) == ws
  {
    WordsOfJoin(ws);
    WordsOfEachWord(ws);
  }

  lemma {:induction false} WordsOfEachWord(ws: seq<string>)
    requires forall k :: 0 <= k < |ws| ==> IsWord(ws[k])
    ensures WordsOfEach(ws) == ws
  {
    if ws != [] {
      WordsOfWord(ws[0]);
      WordsOfEachWord(ws[1..]);
    }
  }

  /**
    What `' '.join(s.split())` guarantees: no whitespace at either end, and every
    whitespace character is a single ' ' between two non-whitespace characters.
   */
  predicate SingleSpaced(s: string) {
    forall i :: 0 <= i < |s| && IsSpace(s[i]) ==>
      s[i] == ' ' && 0 < i < |s| - 1 && !IsSpace(s[i - 1]) && !IsSpace(s[i + 1])
  }

  lemma {:induction false} JoinedWordsSingleSpaced(ws: seq<string>)
    requires forall k :: 0 <= k < |ws| ==> IsWord(ws[k])
    ensures SingleSpaced(Join(" ", ws))
    ensures ws != [] ==> |Join(" ", ws)| > 0
  {
    if |ws| > 1 {
      var w, j := ws[0], Join(" ", ws[1..]);
      JoinedWordsSingleSpaced(ws[1..]);
      var s := w + " " + j;
      assert Join(" ", ws) == s;
      assert !IsSpace(j[0]);
      forall i | 0 <= i < |s| && IsSpace(s[i])
        ensures s[i] == ' ' && 0 < i < |s| - 1 && !IsSpace(s[i - 1]) && !IsSpace(s[i + 1])
      {
        assert i >= |w| by {
          assert forall k :: 0 <= k < |w| ==> s[k] == w[k];
        }
        if i == |w| {
          assert s[i - 1] == w[|w| - 1] && s[i + 1] == j[0];
        } else {
          assert s[i] == j[i - |w| - 1];
          assert s[i - 1] == j[i - |w| - 2] && s[i + 1] == j[i - |w|];
        }
      }
    }
  }

  // ---------------------------------------------------------------------------
  // str.capitalize()
  // ---------------------------------------------------------------------------

  function Upper(c: char): char {
    if 'a' <= c <= 'z' then (c as int - 32) as char else c
  }

  function Lower(c: char): char {
    if 'A' <= c <= 'Z' then (c as int + 32) as char else c
  }

  /** `w.capitalize()` on ASCII letters: the first character upper case, the others lower case. */
  function Capitalize(w: string): (r: string)
    ensures |r| == |w|
    ensures NoSpace(w) ==> NoSpace(r)
  {
    if w == [] then []
    else [Upper(w[0])] + seq(|w| - 1, i requires 0 <= i < |w| - 1 => Lower(w[i + 1]))
  }

  /** Text already in capitalised form: no lower-case first letter, no upper-case letter after it. */
  predicate IsCapitalised(w: string) {
    w != [] && !('a' <= w[0] <= 'z') && forall i :: 0 < i < |w| ==> !('A' <= w[i] <= 'Z')
  }

  /** Capitalising changes nothing in text that is already capitalised. */
  lemma CapitalizeFixes(w: string)
    requires IsCapitalised(w)
    ensures Capitalize(w) == w
  {
    var r := Capitalize(w);
    forall i | 0 <= i < |w| ensures r[i] == w[i] {
      if i > 0 {
        assert r[i] == Lower(w[i]);
      }
    }
  }

  // ---------------------------------------------------------------------------
  // Zero-padded decimal fields: %02d, %04d
  // ---------------------------------------------------------------------------

  function Pow10(n: nat): (p: nat)
    ensures p >= 1
  {
    if n == 0 then 1 else 10 * Pow10(n - 1)
  }

  predicate IsDigit(c: char) {
    '0' <= c <= '9'
  }

  predicate AllDigits(s: string) {
    forall i :: 0 <= i < |s| ==> IsDigit(s[i])
  }

  function DigitChar(d: nat): (c: char)
    requires d < 10
    ensures IsDigit(c)
  {
    ('0' as int + d) as char
  }

  /** The number a string of decimal digits denotes. */
  function ValueOf(s: string): nat
    requires AllDigits(s)
  {
    if s == [] then 0 else 10 * ValueOf(s[..|s| - 1]) + (s[|s| - 1] as int - '0' as int)
  }

  /** `n` in exactly `width` decimal digits, zero-padded on the left. */
  function Fixed(n: nat, width: nat): (r: string)
    requires n < Pow10(width)
    ensures |r| == width && AllDigits(r)
  {
    if width == 0 then "" else Fixed(n / 10, width - 1) + [DigitChar(n % 10)]
  }

  /** The decimal numeral of `n`, without leading zeros. */
  function Decimal(n: nat): (r: string)
    ensures |r| > 0 && AllDigits(r)
    decreases n
  {
    if n < 10 then [DigitChar(n)] else Decimal(n / 10) + [DigitChar(n % 10)]
  }

  /** The numeral denotes `n` and, unless `n` is 0, does not start with '0'. */
  lemma {:induction false} DecimalValue(n: nat)
    ensures ValueOf(Decimal(n)) == n
    ensures n > 0 ==> Decimal(n)[0] != '0'
    decreases n
  {
    var r := Decimal(n);
    if n >= 10 {
      DecimalValue(n / 10);
      assert r[..|r| - 1] == Decimal(n / 10);
    }
  }

  /** Reading a padded field back gives the number written. */
  lemma {:induction false} ValueOfFixed(n: nat, width: nat)
    requires n < Pow10(width)
    ensures ValueOf(Fixed(n, width)) == n
  {
    if width > 0 {
      var r := Fixed(n, width);
      ValueOfFixed(n / 10, width - 1);
      assert r[..|r| - 1] == Fixed(n / 10, width - 1);
    }
  }
}
